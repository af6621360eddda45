/** The resumable multipart parser (src/mime/mime.cc, include/angel/mime.h).

    The parser keeps its progress in a tree of nodes and returns NotEnough whenever the buffer
    ends too early. It is modelled as a function from a node and a buffer to a code, the updated
    node and what is left of the buffer. `b64` stands for the base64 decoder. */
module MultipartParser {
  import opened Bytes
  import opened MultipartSyntax
  import QuotedPrintable

  /** `ParseCode`, with Abnormal for a read past the buffer or an uncaught exception. */
  datatype Code = NotEnough | Error | Ok | Abnormal

  datatype NodeState = DashBoundary | HeaderPart | BodyPart | Delimiter

  datatype Node =
    | Leaf(headers: Headers, body: Text)
    | Multi(headers: Headers, body: Text, boundary: Text, state: NodeState,
            parts: seq<Node>, partHeaders: Headers, cur: Option<Node>)

  datatype Out = Out(code: Code, node: Node, buf: Text)

  function NewMulti(h: Headers, b: Text): Node { Multi(h, [], b, DashBoundary, [], map[], None) }

  datatype HeaderOut = HeaderOut(code: Code, headers: Headers, buf: Text)

  /** One turn of the header loop: stop with a code, or go on after a line. */
  datatype HeaderTurn = Stop(out: HeaderOut) | Next(headers: Headers, buf: Text)

  function HeaderLine(h: Headers, buf: Text): (r: HeaderTurn)
    ensures r.Stop? ==> |r.out.buf| <= |buf| && (r.out.code.Ok? ==> |r.out.buf| < |buf|)
    ensures r.Next? ==> |r.buf| < |buf|
  {
    var crlf := Find(buf, CRLF);
    if crlf < 0 then Stop(HeaderOut(NotEnough, h, buf))
    else if StartsWith(buf, CRLF) then Stop(HeaderOut(Ok, h, buf[2..]))
    else
      var pos := Find(buf, [COLON]);
      if pos < 0 then Stop(HeaderOut(Error, h, buf))
      else if pos >= crlf then Stop(HeaderOut(Abnormal, h, buf))
      else Next(AddField(h, buf[..pos], Trim(buf[pos + 1..crlf])), buf[crlf + 2..])
  }

  /** `codec::parse_header`. The ':' is searched in the whole buffer, not in the line. */
  function ParseHeader(h: Headers, buf: Text): (r: HeaderOut)
    ensures |r.buf| <= |buf| && (r.code.Ok? ==> |r.buf| < |buf|)
    decreases |buf|
  {
    match HeaderLine(h, buf)
    case Stop(out) => out
    case Next(h', rest) => ParseHeader(h', rest)
  }

  /** The loop of `parse_header` as written. */
  method ParseHeaderLoop(headers: Headers, text: Text) returns (r: HeaderOut)
    ensures r == ParseHeader(headers, text)
  {
    var h, buf := headers, text;
    while buf != []
      invariant ParseHeader(h, buf) == ParseHeader(headers, text)
      decreases |buf|
    {
      var crlf := Find(buf, CRLF);
      if crlf < 0 { break; }
      if StartsWith(buf, CRLF) { return HeaderOut(Ok, h, buf[2..]); }
      var pos := Find(buf, [COLON]);
      if pos < 0 { return HeaderOut(Error, h, buf); }
      if pos >= crlf { return HeaderOut(Abnormal, h, buf); }
      h := AddField(h, buf[..pos], Trim(buf[pos + 1..crlf]));
      buf := buf[crlf + 2..];
    }
    return HeaderOut(NotEnough, h, buf);
  }

  /** `part_node::decode`: the new body, or None for failure. Without a
      Content-Transfer-Encoding field the data is dropped. */
  function Decoded(b64: Text -> Text, h: Headers, data: Text): Option<Text> {
    if data == [] || TRANSFER_ENCODING !in h then Some([])
    else
      var encoding := Lower(h[TRANSFER_ENCODING]);
      var body := if encoding == Ascii("base64") then b64(data)
                  else if encoding == Ascii("quoted-printable") then QuotedPrintable.Decode(data)
                  else data;
      if body == [] then None else Some(body)
  }

  predicate IsLwsp(c: byte) { c == SP || c == HT }

  predicate AllLwsp(s: Text) { forall i :: 0 <= i < |s| ==> IsLwsp(s[i]) }

  /** `skip_lwsp_char`. */
  function SkipLwsp(s: Text): (r: Text)
    ensures |r| <= |s|
  {
    if s != [] && IsLwsp(s[0]) then SkipLwsp(s[1..]) else s
  }

  function Depth(n: Node): nat {
    if n.Multi? && n.cur.Some? then 1 + Depth(n.cur.value) else 0
  }

  /** `multipart_node::parse`, entered at the stage where the last call stopped. */
  function ParseMulti(b64: Text -> Text, n: Node, buf: Text): (r: Out)
    requires n.Multi?
    ensures r.node.Multi? && |r.buf| <= |buf| && (r.code.Ok? ==> |r.buf| < |buf|)
    ensures |n.parts| <= |r.node.parts|
    decreases |buf|, Depth(n), 4
  {
    match n.state
    case DashBoundary => DashStage(b64, n, buf)
    case HeaderPart => HeaderStage(b64, n, buf)
    case BodyPart => BodyStage(b64, n, buf)
    case Delimiter => DelimStage(b64, n, buf)
  }

  function DashStage(b64: Text -> Text, n: Node, buf: Text): (r: Out)
    requires n.Multi?
    ensures r.node.Multi? && |r.buf| <= |buf| && (r.code.Ok? ==> |r.buf| < |buf|)
    ensures |n.parts| <= |r.node.parts|
    decreases |buf|, Depth(n), 3
  {
    var crlf := Find(buf, CRLF);
    var dash := Dash(n.boundary);
    if crlf < 0 then Out(NotEnough, n, buf)
    else if !StartsWith(buf, dash) then Out(Error, n, buf)
    else if crlf < |dash| then Out(Abnormal, n, buf)
    else if !AllLwsp(buf[|dash|..crlf]) then Out(Error, n, buf)
    else HeaderStage(b64, n.(state := HeaderPart), buf[crlf + 2..])
  }

  function HeaderStage(b64: Text -> Text, n: Node, buf: Text): (r: Out)
    requires n.Multi?
    ensures r.node.Multi? && |r.buf| <= |buf| && (r.code.Ok? ==> |r.buf| < |buf|)
    ensures |n.parts| <= |r.node.parts|
    decreases |buf|, Depth(n), 3
  {
    if n.cur.Some? then NestedStage(b64, n, buf)
    else
      var h := ParseHeader(n.partHeaders, buf);
      if !h.code.Ok? then Out(h.code, n.(partHeaders := h.headers), h.buf)
      else match KindOf(h.headers)
        case KError => Out(Error, n.(partHeaders := h.headers), h.buf)
        case KAbnormal => Out(Abnormal, n.(partHeaders := h.headers), h.buf)
        case KLeaf => NestedStage(b64, n.(partHeaders := map[], cur := Some(Leaf(h.headers, []))), h.buf)
        case KMulti(b) => NestedStage(b64, n.(partHeaders := map[], cur := Some(NewMulti(h.headers, b))), h.buf)
  }

  /** A multipart child parses itself first; both kinds of child then look for the delimiter. */
  function NestedStage(b64: Text -> Text, n: Node, buf: Text): (r: Out)
    requires n.Multi? && n.cur.Some?
    ensures r.node.Multi? && |r.buf| <= |buf| && (r.code.Ok? ==> |r.buf| < |buf|)
    ensures |n.parts| <= |r.node.parts| && (n.cur.Some? ==> r.node.cur.Some? || |n.parts| < |r.node.parts|)
    decreases |buf|, Depth(n), 2
  {
    if n.cur.value.Leaf? then BodyStage(b64, n.(state := BodyPart), buf)
    else
      var o := ParseMulti(b64, n.cur.value, buf);
      var n' := n.(cur := Some(o.node));
      if !o.code.Ok? then Out(o.code, n', o.buf) else BodyStage(b64, n'.(state := BodyPart), o.buf)
  }

  function BodyStage(b64: Text -> Text, n: Node, buf: Text): (r: Out)
    requires n.Multi?
    ensures r.node.Multi? && |r.buf| <= |buf| && (r.code.Ok? ==> |r.buf| < |buf|)
    ensures |n.parts| <= |r.node.parts| && (n.cur.Some? ==> r.node.cur.Some? || |n.parts| < |r.node.parts|)
    decreases |buf|, Depth(n), 1
  {
    var pos := Find(buf, Delim(n.boundary));
    if pos < 0 then Out(NotEnough, n, buf)
    else if n.cur.None? then Out(Abnormal, n, buf)
    else
      var body := Decoded(b64, n.cur.value.headers, buf[..pos]);
      if body.None? then Out(Error, n, buf)
      else DelimStage(b64, n.(state := Delimiter, cur := Some(n.cur.value.(body := body.value))),
                      buf[pos + |Delim(n.boundary)|..])
  }

  function DelimStage(b64: Text -> Text, n: Node, buf: Text): (r: Out)
    requires n.Multi?
    ensures r.node.Multi? && |r.buf| <= |buf| && (r.code.Ok? ==> |r.buf| < |buf|)
    ensures |n.parts| <= |r.node.parts| && (n.cur.Some? ==> r.node.cur.Some? || |n.parts| < |r.node.parts|)
    decreases |buf|, Depth(n), 0
  {
    if |buf| < 2 then Out(NotEnough, n, buf)
    else if n.cur.None? then Out(Abnormal, n, buf)
    else
      var done := n.(parts := n.parts + [n.cur.value], cur := None);
      if StartsWith(buf, TWO_HYPHEN) then Out(Ok, done, SkipLwsp(buf[2..]))
      else
        var crlf := Find(buf, CRLF);
        if crlf < 0 then Out(NotEnough, n, buf)
        else if !AllLwsp(buf[..crlf]) then Out(Error, n, buf)
        else HeaderStage(b64, done.(state := HeaderPart), buf[crlf + 2..])
  }

  // ---------------------------------------------------------------- the top level parser

  datatype TopState = Preamble | MultipartBody | Epilogue

  /** `multipart_parser`. */
  datatype Parser = Parser(state: TopState, preamble: Text, epilogue: Text, root: Node)

  datatype TopOut = TopOut(code: Code, parser: Parser, buf: Text)

  function NewParser(h: Headers, b: Text): Parser { Parser(Preamble, [], [], NewMulti(h, b)) }

  function ParseTop(b64: Text -> Text, p: Parser, buf: Text): (r: TopOut)
    requires p.root.Multi?
    ensures r.parser.root.Multi?
  {
    match p.state
    case Preamble =>
      var crlf := Find(buf, CRLF);
      if crlf < 0 then TopOut(NotEnough, p, buf)
      else if StartsWith(buf, Dash(p.root.boundary)) then ParseBody(b64, p.(state := MultipartBody), buf)
      else ParseBody(b64, p.(state := MultipartBody, preamble := buf[..crlf]), buf[crlf + 2..])
    case MultipartBody => ParseBody(b64, p, buf)
    case Epilogue => ParseEpilogue(p, buf)
  }

  function ParseBody(b64: Text -> Text, p: Parser, buf: Text): TopOut
    requires p.root.Multi?
  {
    var o := ParseMulti(b64, p.root, buf);
    var p' := p.(root := o.node);
    if !o.code.Ok? then TopOut(o.code, p', o.buf)
    else if StartsWith(o.buf, CRLF) then ParseEpilogue(p'.(state := Epilogue), o.buf[2..])
    else TopOut(Ok, p', o.buf)
  }

  function ParseEpilogue(p: Parser, buf: Text): TopOut {
    var crlf := Find(buf, CRLF);
    if crlf < 0 then TopOut(NotEnough, p, buf)
    else TopOut(Ok, p.(epilogue := buf[..crlf]), buf[crlf + 2..])
  }

  /** The reads of a connection, each followed by one call of the parser, until it stops asking. */
  function FeedAll(b64: Text -> Text, p: Parser, buf: Text, pieces: seq<Text>): TopOut
    requires p.root.Multi?
    decreases |pieces|
  {
    if pieces == [] then TopOut(NotEnough, p, buf)
    else
      var o := ParseTop(b64, p, buf + pieces[0]);
      if o.code.NotEnough? then FeedAll(b64, o.parser, o.buf, pieces[1..]) else o
  }
}
