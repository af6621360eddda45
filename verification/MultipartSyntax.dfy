/** Message trees, the multipart writer and the header values it shares with the parser
    (src/mime/mime.cc, include/angel/mime.h), after section 5.1.1 of RFC 2046. */
module MultipartSyntax {
  import opened Bytes

  type Text = seq<byte>
  /** Keys are lower case: the source map ignores case and keeps the first value. */
  type Headers = map<Text, Text>

  datatype Field = Field(name: Text, value: Text)

  /** A message as the writer holds it. Leaf data is already transfer-encoded. */
  datatype Part =
    | PLeaf(fields: seq<Field>, data: Text)
    | PMulti(fields: seq<Field>, boundary: Text, parts: seq<Part>)

  const TWO_HYPHEN: Text := [45, 45]
  const COLON: byte := 58

  function Dash(b: Text): Text { TWO_HYPHEN + b }

  function Delim(b: Text): Text { CRLF + Dash(b) }

  // ---------------------------------------------------------------- writing

  function FieldText(f: Field): Text { f.name + [COLON, SP] + f.value + CRLF }

  function FieldsText(fs: seq<Field>): Text {
    if fs == [] then [] else FieldText(fs[0]) + FieldsText(fs[1..])
  }

  /** `base::str` and `multipart::str`. A multipart without parts loses the CRLF that ends its
      header block to the final pop_back pair. */
  function PartText(p: Part): Text
    decreases p, 2
  {
    if p.PMulti? && p.parts == [] then FieldsText(p.fields) + TWO_HYPHEN
    else FieldsText(p.fields) + CRLF + Content(p)
  }

  function Content(p: Part): Text
    decreases p, 1
  {
    match p
    case PLeaf(_, data) => data
    case PMulti(_, b, parts) =>
      if parts == [] then [] else Dash(b) + CRLF + (PartText(parts[0]) + After(p, 0))
  }

  /** What follows part `i` of a multipart: its delimiter, then the next part or the close mark. */
  function After(p: Part, i: nat): Text
    requires p.PMulti? && i < |p.parts|
    decreases p, 0, |p.parts| - i
  {
    Delim(p.boundary) + AfterDelim(p, i)
  }

  function AfterDelim(p: Part, i: nat): Text
    requires p.PMulti? && i < |p.parts|
    decreases p, 0, |p.parts| - i, 0
  {
    if i + 1 == |p.parts| then TWO_HYPHEN
    else CRLF + PartText(p.parts[i + 1]) + After(p, i + 1)
  }

  /** `multipart::str` as written: a delimiter line after every part, the last one turned into
      the close delimiter by dropping its CRLF. */
  method Str(p: Part) returns (data: Text)
    ensures data == PartText(p)
    decreases p
  {
    data := FieldsText(p.fields) + CRLF;
    if p.PLeaf? {
      data := data + p.data;
      return;
    }
    if p.parts != [] { data := data + Dash(p.boundary) + CRLF; }
    for i := 0 to |p.parts|
      invariant if p.parts == [] then data == FieldsText(p.fields) + CRLF
                else if i < |p.parts| then data + (PartText(p.parts[i]) + After(p, i)) == PartText(p)
                else |data| >= 2 && data[|data| - 2..] == CRLF && data[..|data| - 2] + TWO_HYPHEN == PartText(p)
    {
      var text := Str(p.parts[i]);
      ghost var before := data;
      data := data + text + CRLF + TWO_HYPHEN + p.boundary + CRLF;
      AppendedPart(before, p, i, data);
    }
    data := data[..|data| - 2] + TWO_HYPHEN;
  }

  lemma AppendedPart(before: Text, p: Part, i: nat, data: Text)
    requires p.PMulti? && i < |p.parts|
    requires before + (PartText(p.parts[i]) + After(p, i)) == PartText(p)
    requires data == before + PartText(p.parts[i]) + CRLF + TWO_HYPHEN + p.boundary + CRLF
    ensures |data| >= 2 && data[|data| - 2..] == CRLF
    ensures i + 1 == |p.parts| ==> data[..|data| - 2] + TWO_HYPHEN == PartText(p)
    ensures i + 1 < |p.parts| ==> data + (PartText(p.parts[i + 1]) + After(p, i + 1)) == PartText(p)
  {
    var t, d := PartText(p.parts[i]), Delim(p.boundary);
    assert After(p, i) == d + AfterDelim(p, i);
    if i + 1 < |p.parts| {
      assert AfterDelim(p, i) == CRLF + PartText(p.parts[i + 1]) + After(p, i + 1);
      Regroup(before, t, d, CRLF, PartText(p.parts[i + 1]), After(p, i + 1));
    }
    assert data == before + t + d + CRLF;
    assert data[..|data| - 2] == before + t + d;
  }

  lemma Regroup(a: Text, b: Text, c: Text, d: Text, e: Text, f: Text)
    ensures a + (b + (c + (d + e + f))) == a + b + c + d + (e + f)
  {
  }

  // ---------------------------------------------------------------- header values

  function AddField(h: Headers, name: Text, value: Text): Headers {
    if value == [] || Lower(name) in h then h else h[Lower(name) := value]
  }

  function HeaderMap(fs: seq<Field>): Headers {
    if fs == [] then map[]
    else AddField(HeaderMap(fs[..|fs| - 1]), fs[|fs| - 1].name, fs[|fs| - 1].value)
  }

  /** `codec::parse_quoted_string`: offset of the closing quote, or -1. */
  function ClosingQuote(s: Text, i: nat): (r: int)
    ensures r >= 0 ==> i <= r < |s|
    decreases |s| - i
  {
    if i >= |s| then -1
    else if s[i] == 92 then (if i + 1 >= |s| then -1 else ClosingQuote(s, i + 2))
    else if s[i] == 34 then i
    else ClosingQuote(s, i + 1)
  }

  /** The text after the next ';', if there is one. */
  function AfterSemicolon(s: Text): (r: Option<Text>)
    ensures r.Some? ==> |r.value| < |s|
  {
    var end := Find(s, [59]);
    if end < 0 then None else Some(s[end + 1..])
  }

  /** One `attribute=value` and the text after the ';' that ends it, if any. */
  datatype Param = Param(key: Text, value: Text, rest: Option<Text>)

  function ParseParam(s: Text): (r: Option<Param>)
    ensures r.Some? && r.value.rest.Some? ==> |r.value.rest.value| < |s|
  {
    var sep := Find(s, [61]);
    if sep < 0 || sep + 1 == |s| then None
    else if s[sep + 1] == 34 then
      var close := ClosingQuote(s, sep + 2);
      if close < 0 then None
      else Some(Param(Lower(s[..sep]), s[sep + 2..close], AfterSemicolon(s[close..])))
    else
      var semi := Find(s[sep + 1..], [59]);
      var value := Trim(if semi < 0 then s[sep + 1..] else s[sep + 1..sep + 1 + semi]);
      Some(Param(Lower(s[..sep]), value, AfterSemicolon(s[sep + 1..])))
  }

  /** The parameter loop of `content_value_t::parse`; the first value of a parameter is kept. */
  function ParseParams(str: Text, params: Headers): Option<Headers>
    decreases |str|
  {
    var s := TrimLeft(str);
    if s == [] then Some(params)
    else
      match ParseParam(s)
      case None => None
      case Some(Param(key, value, rest)) =>
        var params' := if key in params then params else params[key := value];
        if rest.None? then Some(params') else ParseParams(rest.value, params')
  }

  /** What `get_part_node` makes of the headers of a part. Abnormal is a Content-Type without
      any ';', on which `content_value_t::parse` assigns with length npos and throws. */
  datatype Kind = KLeaf | KMulti(boundary: Text) | KError | KAbnormal

  const CONTENT_TYPE := Ascii("content-type")
  const TRANSFER_ENCODING := Ascii("content-transfer-encoding")
  const MULTIPART := Ascii("multipart")
  const BOUNDARY := Ascii("boundary")

  function ContentKind(v: Text): Kind {
    var semi := Find(v, [59]);
    if semi < 0 then KAbnormal
    else
      var params := ParseParams(v[semi + 1..], map[]);
      var types := Split(v[..semi], 47);
      if params.None? || |types| != 2 then KError
      else if Lower(types[0]) != MULTIPART then KLeaf
      else if BOUNDARY !in params.value then KError
      else KMulti(params.value[BOUNDARY])
  }

  /** A Content-Type field without a parameter, as in "text/plain". */
  predicate BareType(h: Headers) { CONTENT_TYPE in h && 59 !in h[CONTENT_TYPE] }

  function KindOf(h: Headers): Kind {
    if CONTENT_TYPE in h then ContentKind(h[CONTENT_TYPE]) else KLeaf
  }
}
