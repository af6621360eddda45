/** What the multipart writer produces, the resumable parser reads back, however the bytes are
    split into reads. */
module MultipartProof {
  import opened Bytes
  import opened MultipartSyntax
  import opened MultipartParser

  // ---------------------------------------------------------------- well formed messages

  predicate NoCr(s: Text) { CR !in s }

  /** A header field that survives a header block: non-empty trimmed value, no CR, no ':' in the name. */
  predicate WfField(f: Field) {
    NoCr(f.name) && NoCr(f.value) && COLON !in f.name && f.value != [] && Trimmed(f.value)
  }

  predicate WfFields(fs: seq<Field>) { forall i :: 0 <= i < |fs| ==> WfField(fs[i]) }

  /** A part that can stand in a multipart with boundary `b`. */
  predicate WfPart(b64: Text -> Text, p: Part, b: Text)
    decreases p, 1
  {
    && WfFields(p.fields)
    && match p
       case PLeaf(fs, data) =>
         && KindOf(HeaderMap(fs)).KLeaf?
         && Decoded(b64, HeaderMap(fs), data).Some?
         && !Contains(data, Delim(b))
       case PMulti(fs, inner, parts) =>
         && KindOf(HeaderMap(fs)) == KMulti(inner)
         && WfMulti(b64, p)
  }

  predicate WfMulti(b64: Text -> Text, p: Part)
    requires p.PMulti?
    decreases p, 0
  {
    NoCr(p.boundary) && p.parts != [] && forall i :: 0 <= i < |p.parts| ==> WfPart(b64, p.parts[i], p.boundary)
  }

  /** The finished node for a part. */
  function Result(b64: Text -> Text, p: Part): Node
    decreases p
  {
    match p
    case PLeaf(fs, data) =>
      Leaf(HeaderMap(fs), var d := Decoded(b64, HeaderMap(fs), data); if d.Some? then d.value else [])
    case PMulti(fs, b, parts) =>
      Multi(HeaderMap(fs), [], b, Delimiter,
            seq(|parts|, i requires 0 <= i < |parts| => Result(b64, parts[i])), map[], None)
  }

  function Results(b64: Text -> Text, parts: seq<Part>): seq<Node> {
    seq(|parts|, i requires 0 <= i < |parts| => Result(b64, parts[i]))
  }

  // ---------------------------------------------------------------- where the parser stands

  /** A position in the text of a multipart at which the parser can stop. */
  datatype Cursor =
    | AtDash
    | AtHeader(i: nat, j: nat)
    | InNested(i: nat, c: Cursor)
    | AtBody(i: nat)
    | AtDelim(i: nat)

  predicate ValidCursor(p: Part, c: Cursor) {
    && p.PMulti?
    && match c
       case AtDash => true
       case AtHeader(i, j) => i < |p.parts| && j <= |p.parts[i].fields|
       case InNested(i, c') => i < |p.parts| && p.parts[i].PMulti? && ValidCursor(p.parts[i], c')
       case AtBody(i) => i < |p.parts|
       case AtDelim(i) => i < |p.parts|
  }

  /** The node of a part whose header block is read; a multipart child is already finished. */
  function Opened(b64: Text -> Text, p: Part): Node {
    if p.PLeaf? then Leaf(HeaderMap(p.fields), []) else Result(b64, p)
  }

  /** The node tree at a position. */
  function NodeAt(b64: Text -> Text, p: Part, c: Cursor): (n: Node)
    requires ValidCursor(p, c)
    ensures n.Multi?
    decreases c
  {
    var base := Multi(HeaderMap(p.fields), [], p.boundary, DashBoundary, [], map[], None);
    match c
    case AtDash => base
    case AtHeader(i, j) =>
      base.(state := HeaderPart, parts := Results(b64, p.parts[..i]),
            partHeaders := HeaderMap(p.parts[i].fields[..j]))
    case InNested(i, c') =>
      base.(state := HeaderPart, parts := Results(b64, p.parts[..i]),
            cur := Some(NodeAt(b64, p.parts[i], c')))
    case AtBody(i) =>
      base.(state := BodyPart, parts := Results(b64, p.parts[..i]), cur := Some(Opened(b64, p.parts[i])))
    case AtDelim(i) =>
      base.(state := Delimiter, parts := Results(b64, p.parts[..i]), cur := Some(Result(b64, p.parts[i])))
  }

  function BodyText(p: Part): Text { if p.PLeaf? then p.data else [] }

  /** The text still to come from a position. */
  function TextAt(p: Part, c: Cursor): Text
    requires ValidCursor(p, c)
    decreases c
  {
    match c
    case AtDash => Content(p)
    case AtHeader(i, j) => FieldsText(p.parts[i].fields[j..]) + CRLF + Content(p.parts[i]) + After(p, i)
    case InNested(i, c') => TextAt(p.parts[i], c') + After(p, i)
    case AtBody(i) => BodyText(p.parts[i]) + After(p, i)
    case AtDelim(i) => AfterDelim(p, i)
  }

  /** What a call must answer when `text` is still to come, followed by `extra`, and the buffer
      holds the first `k` octets of both: NotEnough with the parser at a later position, or, once
      `text` is complete, Ok with the finished node. */
  predicate Fed(b64: Text -> Text, p: Part, text: Text, extra: Text, k: nat, o: Out, c: Cursor, k': nat)
    requires k <= |text + extra|
  {
    if k >= |text| then o == Out(Ok, Result(b64, p), extra[..k - |text|])
    else
      && ValidCursor(p, c)
      && k' < |TextAt(p, c)| <= |text|
      && o == Out(NotEnough, NodeAt(b64, p, c), TextAt(p, c)[..k'])
      && text[|text| - |TextAt(p, c)|..] == TextAt(p, c)
      && |TextAt(p, c)| - k' == |text| - k
  }

  /** Consuming the front of the text before the call that is analysed. */
  lemma FedLater(b64: Text -> Text, p: Part, front: Text, text: Text, extra: Text, k: nat, o: Out, c: Cursor, k': nat)
    requires |front| <= k <= |front + text + extra|
    requires Fed(b64, p, text, extra, k - |front|, o, c, k')
    ensures Fed(b64, p, front + text, extra, k, o, c, k')
  {
    if k < |front + text| {
      var t := TextAt(p, c);
      assert (front + text)[|front + text| - |t|..] == text[|text| - |t|..];
    }
  }

  /** Stopping where the parser already stands. */
  lemma FedHere(b64: Text -> Text, p: Part, extra: Text, k: nat, c: Cursor)
    requires ValidCursor(p, c) && k < |TextAt(p, c)|
    ensures Fed(b64, p, TextAt(p, c), extra, k,
                Out(NotEnough, NodeAt(b64, p, c), (TextAt(p, c) + extra)[..k]), c, k)
  {
    var t := TextAt(p, c);
    assert (t + extra)[..k] == t[..k] && t[|t| - |t|..] == t;
  }

  // ---------------------------------------------------------------- searching

  /** A pattern that starts with CR is found right after CR-free text. */
  lemma FindAfterNoCr(a: Text, pat: Text, rest: Text)
    requires NoCr(a) && pat != [] && pat[0] == CR
    ensures Find(a + pat + rest, pat) == |a|
  {
    var s := a + pat + rest;
    assert s[|a|..|a| + |pat|] == pat;
    forall j | 0 <= j < |a| ensures !Occurs(s, pat, j) {
      assert s[j] == a[j];
      NotAt(s, pat, j, 0);
    }
    FindIs(s, pat, |a|);
  }

  /** A delimiter is found right after data that does not contain it: a CR occurs in a delimiter
      only at its start, so no match can straddle the end of the data. */
  lemma FindDelim(data: Text, b: Text, rest: Text)
    requires NoCr(b) && !Contains(data, Delim(b))
    ensures Find(data + Delim(b) + rest, Delim(b)) == |data|
  {
    var d := Delim(b);
    var s := data + d + rest;
    assert s[|data|..|data| + |d|] == d;
    forall j | 0 <= j < |data| ensures !Occurs(s, d, j) {
      if j + |d| <= |data| {
        assert s[j..j + |d|] == data[j..j + |d|];
        assert !Occurs(data, d, j);
      } else {
        var m := |data| - j;
        assert d[m] == ([LF, HYPHEN, HYPHEN] + b)[m - 1];
        assert s[j + m] == CR;
        NotAt(s, d, j, m);
      }
    }
    FindIs(s, d, |data|);
  }

  lemma FindColon(f: Field, rest: Text)
    requires WfField(f)
    ensures Find(FieldText(f) + rest, [COLON]) == |f.name|
  {
    var s := FieldText(f) + rest;
    assert s[|f.name|..|f.name| + 1] == [COLON];
    forall j | 0 <= j < |f.name| ensures !Occurs(s, [COLON], j) {
      assert s[j] == f.name[j];
      NotAt(s, [COLON], j, 0);
    }
    FindIs(s, [COLON], |f.name|);
  }

  lemma FindFieldEnd(f: Field, rest: Text)
    requires WfField(f)
    ensures Find(FieldText(f) + rest, CRLF) == |f.name| + 2 + |f.value|
  {
    var line := f.name + [COLON, SP] + f.value;
    assert FieldText(f) + rest == line + CRLF + rest;
    FindAfterNoCr(line, CRLF, rest);
  }

  lemma TrimField(v: Text)
    requires v != [] && Trimmed(v)
    ensures Trim([SP] + v) == v
  {
    assert ([SP] + v)[1..] == v;
    assert TrimLeft(v) == v;
  }

  // ---------------------------------------------------------------- header blocks

  lemma HeaderMapStep(fs: seq<Field>, j: nat)
    requires j < |fs|
    ensures HeaderMap(fs[..j + 1]) == AddField(HeaderMap(fs[..j]), fs[j].name, fs[j].value)
  {
    assert fs[..j + 1][..j] == fs[..j];
  }

  lemma ParseHeaderLine(h: Headers, b: Text, pos: nat, crlf: nat, name: Text, value: Text, rest: Text)
    requires Find(b, CRLF) == crlf && Find(b, [COLON]) == pos < crlf
    requires b[..pos] == name && Trim(b[pos + 1..crlf]) == value && b[crlf + 2..] == rest
    ensures HeaderLine(h, b) == Next(AddField(h, name, value), rest)
  {
    assert !Occurs(b, CRLF, 0);
  }

  lemma FieldSlices(f: Field, rest: Text)
    ensures var b, n, e := FieldText(f) + rest, |f.name|, |f.name| + 2 + |f.value|;
      b[..n] == f.name && b[n + 1..e] == [SP] + f.value && b[e + 2..] == rest
  {
    assert FieldText(f) + rest == f.name + ([COLON] + ([SP] + f.value)) + CRLF + rest;
  }

  lemma SeenField(f: Field, rest: Text, k: nat)
    requires |FieldText(f)| <= k <= |FieldText(f) + rest|
    ensures (FieldText(f) + rest)[..k] == FieldText(f) + rest[..k - |FieldText(f)|]
  {
  }

  /** One complete header line is consumed and recorded. */
  lemma ParseField(h: Headers, f: Field, rest: Text, k: nat)
    requires WfField(f) && |FieldText(f)| <= k <= |FieldText(f) + rest|
    ensures ParseHeader(h, (FieldText(f) + rest)[..k])
         == ParseHeader(AddField(h, f.name, f.value), rest[..k - |FieldText(f)|])
  {
    SeenField(f, rest, k);
    LineOfField(h, f, rest[..k - |FieldText(f)|]);
    hide HeaderLine, FieldText;
  }

  lemma LineOfField(h: Headers, f: Field, seen: Text)
    requires WfField(f)
    ensures HeaderLine(h, FieldText(f) + seen) == Next(AddField(h, f.name, f.value), seen)
  {
    FindFieldEnd(f, seen);
    FindColon(f, seen);
    FieldSlices(f, seen);
    TrimField(f.value);
    hide HeaderLine;
    ParseHeaderLine(h, FieldText(f) + seen, |f.name|, |f.name| + 2 + |f.value|, f.name, f.value, seen);
  }

  /** An incomplete header line is left alone. */
  lemma ParsePartialField(h: Headers, f: Field, rest: Text, k: nat)
    requires WfField(f) && k < |FieldText(f)|
    ensures ParseHeader(h, (FieldText(f) + rest)[..k]) == HeaderOut(NotEnough, h, (FieldText(f) + rest)[..k])
  {
    FindFieldEnd(f, rest);
    FindInPrefix(FieldText(f) + rest, CRLF, k);
  }

  predicate HeaderFed(fs: seq<Field>, j: nat, rest: Text, k: nat, r: HeaderOut, j': nat, k': nat)
    requires j <= |fs| && k <= |FieldsText(fs[j..]) + CRLF + rest|
  {
    var block := FieldsText(fs[j..]) + CRLF;
    if k >= |block| then r == HeaderOut(Ok, HeaderMap(fs), rest[..k - |block|])
    else
      && j <= j' <= |fs|
      && var block' := FieldsText(fs[j'..]) + CRLF;
      && k' < |block'| <= |block|
      && r == HeaderOut(NotEnough, HeaderMap(fs[..j']), block'[..k'])
      && block[|block| - |block'|..] == block' && |block'| - k' == |block| - k
  }

  lemma HeaderEnd(fs: seq<Field>, rest: Text, k: nat)
    requires k <= |CRLF + rest|
    ensures ParseHeader(HeaderMap(fs), (CRLF + rest)[..k])
         == if k >= 2 then HeaderOut(Ok, HeaderMap(fs), rest[..k - 2])
            else HeaderOut(NotEnough, HeaderMap(fs), CRLF[..k])
  {
    var b := (CRLF + rest)[..k];
    if k >= 2 {
      assert b == CRLF + rest[..k - 2];
      assert Occurs(b, CRLF, 0);
    } else {
      assert b == CRLF[..k];
    }
  }

  lemma HeaderFedLater(fs: seq<Field>, j: nat, rest: Text, k: nat, r: HeaderOut, j': nat, k': nat)
    requires j < |fs| && |FieldText(fs[j])| <= k <= |FieldsText(fs[j..]) + CRLF + rest|
    requires k - |FieldText(fs[j])| <= |FieldsText(fs[j + 1..]) + CRLF + rest|
    requires HeaderFed(fs, j + 1, rest, k - |FieldText(fs[j])|, r, j', k')
    ensures HeaderFed(fs, j, rest, k, r, j', k')
  {
    BlockStep(fs, j);
    hide FieldsText, HeaderMap, FieldText;
    if k < |FieldsText(fs[j..]) + CRLF| {
      SuffixLonger(FieldText(fs[j]), FieldsText(fs[j + 1..]) + CRLF, FieldsText(fs[j'..]) + CRLF);
    }
  }

  lemma BlockStep(fs: seq<Field>, j: nat)
    requires j < |fs|
    ensures FieldsText(fs[j..]) + CRLF == FieldText(fs[j]) + (FieldsText(fs[j + 1..]) + CRLF)
  {
    assert fs[j..][1..] == fs[j + 1..];
  }

  lemma SuffixLonger(front: Text, text: Text, end: Text)
    requires |end| <= |text| && text[|text| - |end|..] == end
    ensures (front + text)[|front + text| - |end|..] == end
  {
  }

  /** What the parser answers for a header block from its field `j` on, with `k` octets there. */
  function HeaderAnswer(fs: seq<Field>, j: nat, rest: Text, k: nat): HeaderOut
    requires j <= |fs| && k <= |FieldsText(fs[j..]) + CRLF + rest|
  {
    ParseHeader(HeaderMap(fs[..j]), (FieldsText(fs[j..]) + CRLF + rest)[..k])
  }

  lemma HeaderFedEnd(fs: seq<Field>, rest: Text, k: nat)
    requires k <= |FieldsText(fs[|fs|..]) + CRLF + rest|
    ensures HeaderFed(fs, |fs|, rest, k, HeaderAnswer(fs, |fs|, rest, k), |fs|, k)
  {
    assert FieldsText(fs[|fs|..]) + CRLF + rest == CRLF + rest && fs[..|fs|] == fs;
    assert FieldsText(fs[|fs|..]) + CRLF == CRLF;
    HeaderEnd(fs, rest, k);
  }

  lemma HeaderFedPartial(fs: seq<Field>, j: nat, rest: Text, k: nat)
    requires j < |fs| && WfField(fs[j]) && k < |FieldText(fs[j])|
    ensures k <= |FieldsText(fs[j..]) + CRLF + rest|
    ensures HeaderFed(fs, j, rest, k, HeaderAnswer(fs, j, rest, k), j, k)
  {
    var tail := FieldsText(fs[j + 1..]) + CRLF + rest;
    assert fs[j..][1..] == fs[j + 1..];
    var block := FieldsText(fs[j..]) + CRLF;
    assert block + rest == FieldText(fs[j]) + tail;
    assert (block + rest)[..k] == block[..k];
    ParsePartialField(HeaderMap(fs[..j]), fs[j], tail, k);
    assert block[|block| - |block|..] == block;
  }

  lemma HeaderFieldStep(fs: seq<Field>, j: nat, rest: Text, k: nat)
    requires j < |fs| && WfField(fs[j])
    requires |FieldText(fs[j])| <= k <= |FieldsText(fs[j..]) + CRLF + rest|
    ensures k - |FieldText(fs[j])| <= |FieldsText(fs[j + 1..]) + CRLF + rest|
    ensures HeaderAnswer(fs, j, rest, k) == HeaderAnswer(fs, j + 1, rest, k - |FieldText(fs[j])|)
  {
    var tail := FieldsText(fs[j + 1..]) + CRLF + rest;
    assert FieldsText(fs[j..]) + CRLF + rest == FieldText(fs[j]) + tail by {
      assert fs[j..][1..] == fs[j + 1..];
    }
    ParseField(HeaderMap(fs[..j]), fs[j], tail, k);
    HeaderMapStep(fs, j);
  }

  /** A header block, from its field `j` on, of which the buffer holds the first `k` octets. */
  lemma {:induction false} FeedHeaderBlock(fs: seq<Field>, j: nat, rest: Text, k: nat) returns (j': nat, k': nat)
    requires WfFields(fs) && j <= |fs| && k <= |FieldsText(fs[j..]) + CRLF + rest|
    ensures HeaderFed(fs, j, rest, k, HeaderAnswer(fs, j, rest, k), j', k')
    decreases |fs| - j
  {
    hide HeaderFed, HeaderAnswer, FieldsText, FieldText;
    j', k' := j, k;
    if j == |fs| {
      HeaderFedEnd(fs, rest, k);
    } else if k < |FieldText(fs[j])| {
      HeaderFedPartial(fs, j, rest, k);
    } else {
      HeaderFieldStep(fs, j, rest, k);
      var r := HeaderAnswer(fs, j + 1, rest, k - |FieldText(fs[j])|);
      j', k' := FeedHeaderBlock(fs, j + 1, rest, k - |FieldText(fs[j])|);
      HeaderFedLater(fs, j, rest, k, r, j', k');
    }
  }

  // ---------------------------------------------------------------- stages

  /** The octets after a finished multipart cannot be taken for transport padding. */
  predicate ExtraOk(extra: Text) { extra == [] || !IsLwsp(extra[0]) }

  lemma DelimShort(b64: Text -> Text, n: Node, b: Text)
    requires n.Multi? && |b| < 2
    ensures DelimStage(b64, n, b) == Out(NotEnough, n, b)
  {
  }

  lemma DelimCloses(b64: Text -> Text, n: Node, b: Text)
    requires n.Multi? && n.cur.Some? && ExtraOk(b)
    ensures DelimStage(b64, n, TWO_HYPHEN + b)
         == Out(Ok, n.(parts := n.parts + [n.cur.value], cur := None), b)
  {
    assert (TWO_HYPHEN + b)[2..] == b;
  }

  lemma DelimGoesOn(b64: Text -> Text, n: Node, b: Text)
    requires n.Multi? && n.cur.Some?
    ensures DelimStage(b64, n, CRLF + b)
         == HeaderStage(b64, n.(parts := n.parts + [n.cur.value], cur := None, state := HeaderPart), b)
  {
    FindIs(CRLF + b, CRLF, 0);
    assert (CRLF + b)[0] != TWO_HYPHEN[0];
    assert (CRLF + b)[..0] == [] && (CRLF + b)[2..] == b;
  }

  lemma BodyWaits(b64: Text -> Text, n: Node, b: Text)
    requires n.Multi? && Find(b, Delim(n.boundary)) < 0
    ensures BodyStage(b64, n, b) == Out(NotEnough, n, b)
  {
  }

  lemma BodyCut(b64: Text -> Text, n: Node, data: Text, rest: Text)
    requires n.Multi? && n.cur.Some? && Find(data + Delim(n.boundary) + rest, Delim(n.boundary)) == |data|
    requires Decoded(b64, n.cur.value.headers, data).Some?
    ensures BodyStage(b64, n, data + Delim(n.boundary) + rest)
         == DelimStage(b64, n.(state := Delimiter, cur := Some(n.cur.value.(
              body := Decoded(b64, n.cur.value.headers, data).value))), rest)
  {
    var b, d := data + Delim(n.boundary) + rest, Delim(n.boundary);
    assert b[..|data|] == data && b[|data| + |d|..] == rest;
  }

  lemma DashCut(b64: Text -> Text, n: Node, rest: Text)
    requires n.Multi? && NoCr(n.boundary)
    ensures DashStage(b64, n, Dash(n.boundary) + CRLF + rest) == HeaderStage(b64, n.(state := HeaderPart), rest)
  {
    var d, b := Dash(n.boundary), Dash(n.boundary) + CRLF + rest;
    FindAfterNoCr(d, CRLF, rest);
    assert b[|d|..|d|] == [] && b[|d| + 2..] == rest;
  }

  lemma HeaderOpens(b64: Text -> Text, n: Node, b: Text, h: Headers, rest: Text, kind: Kind)
    requires n.Multi? && n.cur.None? && ParseHeader(n.partHeaders, b) == HeaderOut(Ok, h, rest)
    requires KindOf(h) == kind && (kind.KLeaf? || kind.KMulti?)
    ensures HeaderStage(b64, n, b) == NestedStage(b64, n.(partHeaders := map[],
              cur := Some(if kind.KLeaf? then Leaf(h, []) else NewMulti(h, kind.boundary))), rest)
  {
  }

  lemma HeaderWaits(b64: Text -> Text, n: Node, b: Text, h: Headers, rest: Text)
    requires n.Multi? && n.cur.None? && ParseHeader(n.partHeaders, b) == HeaderOut(NotEnough, h, rest)
    ensures HeaderStage(b64, n, b) == Out(NotEnough, n.(partHeaders := h), rest)
  {
  }

  lemma NestedLeaf(b64: Text -> Text, n: Node, b: Text)
    requires n.Multi? && n.cur.Some? && n.cur.value.Leaf?
    ensures NestedStage(b64, n, b) == BodyStage(b64, n.(state := BodyPart), b)
  {
  }

  lemma NestedChild(b64: Text -> Text, n: Node, b: Text, o: Out)
    requires n.Multi? && n.cur.Some? && n.cur.value.Multi? && o == ParseMulti(b64, n.cur.value, b)
    ensures o.code.Ok? ==> NestedStage(b64, n, b) == BodyStage(b64, n.(cur := Some(o.node), state := BodyPart), o.buf)
    ensures !o.code.Ok? ==> NestedStage(b64, n, b) == Out(o.code, n.(cur := Some(o.node)), o.buf)
  {
  }

  // ---------------------------------------------------------------- nodes and texts along the way

  lemma ResultsSnoc(b64: Text -> Text, parts: seq<Part>, i: nat)
    requires i < |parts|
    ensures Results(b64, parts[..i]) + [Result(b64, parts[i])] == Results(b64, parts[..i + 1])
  {
    assert parts[..i + 1][..i] == parts[..i];
  }

  lemma LastPartDone(b64: Text -> Text, p: Part, i: nat)
    requires p.PMulti? && i + 1 == |p.parts|
    ensures var n := NodeAt(b64, p, AtDelim(i));
      n.Multi? && n.cur.Some? && n.(parts := n.parts + [n.cur.value], cur := None) == Result(b64, p)
  {
    ResultsSnoc(b64, p.parts, i);
    assert p.parts[..i + 1] == p.parts;
  }

  lemma NextPart(b64: Text -> Text, p: Part, i: nat)
    requires p.PMulti? && i + 1 < |p.parts|
    ensures var n := NodeAt(b64, p, AtDelim(i));
      && n.Multi? && n.cur.Some?
      && n.(parts := n.parts + [n.cur.value], cur := None, state := HeaderPart) == NodeAt(b64, p, AtHeader(i + 1, 0))
  {
    ResultsSnoc(b64, p.parts, i);
    assert p.parts[i + 1].fields[..0] == [];
  }

  /** No part is a multipart without parts. */
  predicate Filled(p: Part) {
    p.PMulti? && forall i :: 0 <= i < |p.parts| && p.parts[i].PMulti? ==> p.parts[i].parts != []
  }

  lemma WfFilled(b64: Text -> Text, p: Part)
    requires p.PMulti? && WfMulti(b64, p)
    ensures Filled(p)
  {
    forall i | 0 <= i < |p.parts| && p.parts[i].PMulti? ensures p.parts[i].parts != [] {
      assert WfPart(b64, p.parts[i], p.boundary);
      assert WfMulti(b64, p.parts[i]);
    }
  }

  lemma NextText(p: Part, i: nat)
    requires Filled(p) && i + 1 < |p.parts|
    ensures TextAt(p, AtDelim(i)) == CRLF + TextAt(p, AtHeader(i + 1, 0))
  {
    var q := p.parts[i + 1];
    assert q.fields[0..] == q.fields;
    assert PartText(q) == FieldsText(q.fields) + CRLF + Content(q);
    assert AfterDelim(p, i) == CRLF + PartText(q) + After(p, i + 1);
  }

  function Seen(p: Part, c: Cursor, extra: Text, k: nat): Text
    requires ValidCursor(p, c) && k <= |TextAt(p, c) + extra|
  {
    (TextAt(p, c) + extra)[..k]
  }

  /** Dropping a front of the remaining text that the buffer holds completely. */
  lemma SeenFront(front: Text, text: Text, extra: Text, k: nat)
    requires |front| <= k <= |front + text + extra|
    ensures (front + text + extra)[..k] == front + (text + extra)[..k - |front|]
  {
  }

  /** The buffer at one position is a consumed front and the buffer at a later position. */
  lemma SeenStep(p: Part, from: Cursor, front: Text, to: Cursor, extra: Text, k: nat)
    requires ValidCursor(p, from) && ValidCursor(p, to) && TextAt(p, from) == front + TextAt(p, to)
    requires |front| <= k <= |TextAt(p, from) + extra|
    ensures k - |front| <= |TextAt(p, to) + extra|
    ensures Seen(p, from, extra, k) == front + Seen(p, to, extra, k - |front|)
  {
    hide TextAt;
    SeenFront(front, TextAt(p, to), extra, k);
  }

  /** Moving from one position to a later one, whose text the buffer has reached. */
  lemma FedStep(b64: Text -> Text, p: Part, from: Cursor, front: Text, to: Cursor, extra: Text, k: nat, o: Out, c: Cursor, k': nat)
    requires ValidCursor(p, from) && ValidCursor(p, to) && TextAt(p, from) == front + TextAt(p, to)
    requires |front| <= k <= |TextAt(p, from) + extra|
    requires Fed(b64, p, TextAt(p, to), extra, k - |front|, o, c, k')
    ensures Fed(b64, p, TextAt(p, from), extra, k, o, c, k')
  {
    FedLater(b64, p, front, TextAt(p, to), extra, k, o, c, k');
  }

  lemma DelimToHeader(b64: Text -> Text, p: Part, i: nat, extra: Text, k: nat)
    requires p.PMulti? && Filled(p) && i + 1 < |p.parts| && 2 <= k <= |TextAt(p, AtDelim(i)) + extra|
    requires k - 2 <= |TextAt(p, AtHeader(i + 1, 0)) + extra|
    ensures DelimStage(b64, NodeAt(b64, p, AtDelim(i)), Seen(p, AtDelim(i), extra, k))
         == HeaderStage(b64, NodeAt(b64, p, AtHeader(i + 1, 0)), Seen(p, AtHeader(i + 1, 0), extra, k - 2))
  {
    hide DelimStage, HeaderStage, NodeAt, TextAt, Seen, Filled;
    NextPart(b64, p, i);
    NextText(p, i);
    SeenStep(p, AtDelim(i), CRLF, AtHeader(i + 1, 0), extra, k);
    DelimGoesOn(b64, NodeAt(b64, p, AtDelim(i)), Seen(p, AtHeader(i + 1, 0), extra, k - 2));
  }

  lemma LastDelim(b64: Text -> Text, p: Part, i: nat, extra: Text, k: nat)
    requires p.PMulti? && i + 1 == |p.parts| && ExtraOk(extra)
    requires 2 <= k <= |TextAt(p, AtDelim(i)) + extra|
    ensures TextAt(p, AtDelim(i)) == TWO_HYPHEN
    ensures DelimStage(b64, NodeAt(b64, p, AtDelim(i)), Seen(p, AtDelim(i), extra, k))
         == Out(Ok, Result(b64, p), extra[..k - 2])
  {
    LastPartDone(b64, p, i);
    assert TextAt(p, AtDelim(i)) == TWO_HYPHEN;
    assert Seen(p, AtDelim(i), extra, k) == TWO_HYPHEN + extra[..k - 2];
    DelimCloses(b64, NodeAt(b64, p, AtDelim(i)), extra[..k - 2]);
  }

  /** The delimiter after a part is found exactly where the writer put it. */
  lemma BodyToDelim(b64: Text -> Text, p: Part, i: nat, extra: Text, k: nat)
    requires p.PMulti? && WfMulti(b64, p) && i < |p.parts| && k <= |TextAt(p, AtBody(i)) + extra|
    ensures TextAt(p, AtBody(i)) == BodyText(p.parts[i]) + Delim(p.boundary) + TextAt(p, AtDelim(i))
    ensures var front := BodyText(p.parts[i]) + Delim(p.boundary);
      var o := BodyStage(b64, NodeAt(b64, p, AtBody(i)), Seen(p, AtBody(i), extra, k));
      if k < |front| then o == Out(NotEnough, NodeAt(b64, p, AtBody(i)), Seen(p, AtBody(i), extra, k))
      else o == DelimStage(b64, NodeAt(b64, p, AtDelim(i)), Seen(p, AtDelim(i), extra, k - |front|))
  {
    hide DelimStage, BodyStage, NodeAt, TextAt, Result, WfPart, WfMulti, Decoded, BodyText, Delim, Seen;
    var front := BodyText(p.parts[i]) + Delim(p.boundary);
    BodyTextAt(p, i);
    OpenedDecodes(b64, p, i);
    DelimFoundAt(b64, p, i, extra, k);
    if k >= |front| { SeenStep(p, AtBody(i), front, AtDelim(i), extra, k); }
    var n := NodeAt(b64, p, AtBody(i));
    if k < |front| {
      BodyWaits(b64, n, Seen(p, AtBody(i), extra, k));
    } else {
      BodyCut(b64, n, BodyText(p.parts[i]), Seen(p, AtDelim(i), extra, k - |front|));
    }
  }

  lemma BodyTextAt(p: Part, i: nat)
    requires p.PMulti? && i < |p.parts|
    ensures TextAt(p, AtBody(i)) == BodyText(p.parts[i]) + Delim(p.boundary) + TextAt(p, AtDelim(i))
  {
    var a, b, c := BodyText(p.parts[i]), Delim(p.boundary), AfterDelim(p, i);
    assert a + (b + c) == a + b + c;
  }

  lemma BodyHasNoDelim(b64: Text -> Text, p: Part, i: nat)
    requires p.PMulti? && WfMulti(b64, p) && i < |p.parts|
    ensures NoCr(p.boundary) && !Contains(BodyText(p.parts[i]), Delim(p.boundary))
  {
    assert WfPart(b64, p.parts[i], p.boundary);
  }

  lemma DelimFoundAt(b64: Text -> Text, p: Part, i: nat, extra: Text, k: nat)
    requires p.PMulti? && WfMulti(b64, p) && i < |p.parts| && k <= |TextAt(p, AtBody(i)) + extra|
    ensures Find(Seen(p, AtBody(i), extra, k), Delim(p.boundary))
         == if k < |BodyText(p.parts[i]) + Delim(p.boundary)| then -1 else |BodyText(p.parts[i])|
  {
    BodyTextAt(p, i);
    BodyHasNoDelim(b64, p, i);
    hide TextAt, Delim, WfMulti, BodyText;
    var body, d, after := BodyText(p.parts[i]), Delim(p.boundary), TextAt(p, AtDelim(i)) + extra;
    assert TextAt(p, AtBody(i)) + extra == body + d + after;
    FindDelim(body, p.boundary, after);
    FindInPrefix(body + d + after, d, k);
  }

  lemma OpenedDecodes(b64: Text -> Text, p: Part, i: nat)
    requires p.PMulti? && WfMulti(b64, p) && i < |p.parts|
    ensures var n := NodeAt(b64, p, AtBody(i));
      && n.Multi? && n.cur.Some? && n.boundary == p.boundary
      && Decoded(b64, n.cur.value.headers, BodyText(p.parts[i])).Some?
      && n.(state := Delimiter, cur := Some(n.cur.value.(
           body := Decoded(b64, n.cur.value.headers, BodyText(p.parts[i])).value))) == NodeAt(b64, p, AtDelim(i))
  {
    assert WfPart(b64, p.parts[i], p.boundary);
  }

  lemma {:induction false} FeedDelim(b64: Text -> Text, p: Part, i: nat, extra: Text, k: nat)
    returns (c: Cursor, k': nat)
    requires p.PMulti? && WfMulti(b64, p) && i < |p.parts| && ExtraOk(extra)
    requires k <= |TextAt(p, AtDelim(i)) + extra|
    ensures Fed(b64, p, TextAt(p, AtDelim(i)), extra, k,
                DelimStage(b64, NodeAt(b64, p, AtDelim(i)), Seen(p, AtDelim(i), extra, k)), c, k')
    decreases p, |p.parts| - i, 1
  {
    hide DelimStage, HeaderStage, BodyStage, NestedStage, DashStage, ParseMulti, NodeAt, Result, WfPart, WfMulti;
    c, k' := AtDelim(i), k;
    if k < 2 {
      FedHere(b64, p, extra, k, AtDelim(i));
      DelimShort(b64, NodeAt(b64, p, AtDelim(i)), Seen(p, AtDelim(i), extra, k));
    } else if i + 1 == |p.parts| {
      LastDelim(b64, p, i, extra, k);
    } else {
      WfFilled(b64, p);
      NextText(p, i);
      DelimToHeader(b64, p, i, extra, k);
      c, k' := FeedHeader(b64, p, i + 1, 0, extra, k - 2);
      var o := HeaderStage(b64, NodeAt(b64, p, AtHeader(i + 1, 0)), Seen(p, AtHeader(i + 1, 0), extra, k - 2));
      FedStep(b64, p, AtDelim(i), CRLF, AtHeader(i + 1, 0), extra, k, o, c, k');
    }
  }

  lemma {:induction false} FeedBody(b64: Text -> Text, p: Part, i: nat, extra: Text, k: nat)
    returns (c: Cursor, k': nat)
    requires p.PMulti? && WfMulti(b64, p) && i < |p.parts| && ExtraOk(extra)
    requires k <= |TextAt(p, AtBody(i)) + extra|
    ensures Fed(b64, p, TextAt(p, AtBody(i)), extra, k,
                BodyStage(b64, NodeAt(b64, p, AtBody(i)), Seen(p, AtBody(i), extra, k)), c, k')
    decreases p, |p.parts| - i, 2
  {
    hide DelimStage, HeaderStage, BodyStage, NestedStage, DashStage, ParseMulti, NodeAt, Result, WfPart, WfMulti;
    var front := BodyText(p.parts[i]) + Delim(p.boundary);
    BodyToDelim(b64, p, i, extra, k);
    c, k' := AtBody(i), k;
    if k < |front| {
      FedHere(b64, p, extra, k, AtBody(i));
    } else {
      c, k' := FeedDelim(b64, p, i, extra, k - |front|);
      var o := DelimStage(b64, NodeAt(b64, p, AtDelim(i)), Seen(p, AtDelim(i), extra, k - |front|));
      FedStep(b64, p, AtBody(i), front, AtDelim(i), extra, k, o, c, k');
    }
  }

  lemma {:induction false} FeedNested(b64: Text -> Text, p: Part, i: nat, inner: Cursor, extra: Text, k: nat)
    returns (c: Cursor, k': nat)
    requires p.PMulti? && WfMulti(b64, p) && ValidCursor(p, InNested(i, inner)) && ExtraOk(extra)
    requires k <= |TextAt(p, InNested(i, inner)) + extra|
    ensures Fed(b64, p, TextAt(p, InNested(i, inner)), extra, k,
                NestedStage(b64, NodeAt(b64, p, InNested(i, inner)), Seen(p, InNested(i, inner), extra, k)), c, k')
    decreases p, |p.parts| - i, 3, 0
  {
    hide BodyStage, NestedStage, ParseMulti, NodeAt, Result, TextAt, After, WfPart;
    var q := p.parts[i];
    var front, more := TextAt(q, inner), After(p, i) + extra;
    NestedTexts(p, i, inner, extra, k);
    NestedWf(b64, p, i);
    c, k' := FeedMulti(b64, q, inner, more, k);
    hide Seen, WfMulti;
    var o := ParseMulti(b64, NodeAt(b64, q, inner), Seen(q, inner, more, k));
    if k < |front| {
      NestedWaits(b64, p, i, inner, extra, k, o, c, k');
      c := InNested(i, c);
    } else {
      c, k' := FeedBody(b64, p, i, extra, k - |front|);
      NestedDone(b64, p, i, inner, extra, k, c, k');
    }
  }

  lemma NestedWf(b64: Text -> Text, p: Part, i: nat)
    requires p.PMulti? && WfMulti(b64, p) && i < |p.parts| && p.parts[i].PMulti?
    ensures WfMulti(b64, p.parts[i])
  {
    assert WfPart(b64, p.parts[i], p.boundary);
  }

  lemma NestedWaits(b64: Text -> Text, p: Part, i: nat, inner: Cursor, extra: Text, k: nat, o: Out, c: Cursor, k': nat)
    requires ValidCursor(p, InNested(i, inner)) && k < |TextAt(p.parts[i], inner)|
    requires k <= |TextAt(p, InNested(i, inner)) + extra|
    requires o == ParseMulti(b64, NodeAt(b64, p.parts[i], inner), Seen(p, InNested(i, inner), extra, k))
    requires Fed(b64, p.parts[i], TextAt(p.parts[i], inner), After(p, i) + extra, k, o, c, k')
    ensures Fed(b64, p, TextAt(p, InNested(i, inner)), extra, k,
                NestedStage(b64, NodeAt(b64, p, InNested(i, inner)), Seen(p, InNested(i, inner), extra, k)),
                InNested(i, c), k')
  {
    hide DelimStage, HeaderStage, BodyStage, NestedStage, DashStage, ParseMulti, NodeAt, Result;
    NodeInNested(b64, p, i, inner);
    NestedChild(b64, NodeAt(b64, p, InNested(i, inner)), Seen(p, InNested(i, inner), extra, k), o);
    FedInside(b64, p, i, inner, extra, k, o, c, k');
  }

  lemma NestedDone(b64: Text -> Text, p: Part, i: nat, inner: Cursor, extra: Text, k: nat, c: Cursor, k': nat)
    requires ValidCursor(p, InNested(i, inner))
    requires |TextAt(p.parts[i], inner)| <= k <= |TextAt(p, InNested(i, inner)) + extra|
    requires k <= |TextAt(p.parts[i], inner) + (After(p, i) + extra)|
    requires TextAt(p, InNested(i, inner)) == TextAt(p.parts[i], inner) + TextAt(p, AtBody(i))
    requires ParseMulti(b64, NodeAt(b64, p.parts[i], inner), Seen(p.parts[i], inner, After(p, i) + extra, k))
          == Out(Ok, Result(b64, p.parts[i]), (After(p, i) + extra)[..k - |TextAt(p.parts[i], inner)|])
    requires Fed(b64, p, TextAt(p, AtBody(i)), extra, k - |TextAt(p.parts[i], inner)|,
                 BodyStage(b64, NodeAt(b64, p, AtBody(i)), Seen(p, AtBody(i), extra, k - |TextAt(p.parts[i], inner)|)), c, k')
    ensures Fed(b64, p, TextAt(p, InNested(i, inner)), extra, k,
                NestedStage(b64, NodeAt(b64, p, InNested(i, inner)), Seen(p, InNested(i, inner), extra, k)), c, k')
  {
    hide DelimStage, HeaderStage, BodyStage, NestedStage, DashStage, ParseMulti, NodeAt, Result, WfPart, WfMulti;
    var front := TextAt(p.parts[i], inner);
    NestedToBody(b64, p, i, inner, extra, k);
    FedStep(b64, p, InNested(i, inner), front, AtBody(i), extra, k,
            BodyStage(b64, NodeAt(b64, p, AtBody(i)), Seen(p, AtBody(i), extra, k - |front|)), c, k');
  }

  lemma NestedTexts(p: Part, i: nat, inner: Cursor, extra: Text, k: nat)
    requires ValidCursor(p, InNested(i, inner)) && k <= |TextAt(p, InNested(i, inner)) + extra|
    ensures TextAt(p, InNested(i, inner)) == TextAt(p.parts[i], inner) + TextAt(p, AtBody(i))
    ensures k <= |TextAt(p.parts[i], inner) + (After(p, i) + extra)|
    ensures Seen(p.parts[i], inner, After(p, i) + extra, k) == Seen(p, InNested(i, inner), extra, k)
    ensures ExtraOk(After(p, i) + extra)
  {
    var t, after := TextAt(p.parts[i], inner), After(p, i);
    assert TextAt(p, AtBody(i)) == after;
    assert t + (after + extra) == t + after + extra;
    assert (after + extra)[0] == CR;
  }

  lemma NodeInNested(b64: Text -> Text, p: Part, i: nat, inner: Cursor)
    requires ValidCursor(p, InNested(i, inner))
    ensures var n := NodeAt(b64, p, InNested(i, inner));
      && n.Multi? && n.cur == Some(NodeAt(b64, p.parts[i], inner)) && n.cur.value.Multi?
      && n.(cur := Some(Result(b64, p.parts[i])), state := BodyPart) == NodeAt(b64, p, AtBody(i))
  {
  }

  lemma NestedToBody(b64: Text -> Text, p: Part, i: nat, inner: Cursor, extra: Text, k: nat)
    requires ValidCursor(p, InNested(i, inner))
    requires |TextAt(p.parts[i], inner)| <= k <= |TextAt(p, InNested(i, inner)) + extra|
    requires k <= |TextAt(p.parts[i], inner) + (After(p, i) + extra)|
    requires ParseMulti(b64, NodeAt(b64, p.parts[i], inner), Seen(p.parts[i], inner, After(p, i) + extra, k))
          == Out(Ok, Result(b64, p.parts[i]), (After(p, i) + extra)[..k - |TextAt(p.parts[i], inner)|])
    ensures TextAt(p, InNested(i, inner)) == TextAt(p.parts[i], inner) + TextAt(p, AtBody(i))
    ensures NestedStage(b64, NodeAt(b64, p, InNested(i, inner)), Seen(p, InNested(i, inner), extra, k))
         == BodyStage(b64, NodeAt(b64, p, AtBody(i)), Seen(p, AtBody(i), extra, k - |TextAt(p.parts[i], inner)|))
  {
    hide DelimStage, HeaderStage, BodyStage, NestedStage, DashStage, ParseMulti, NodeAt, Result;
    var t, after := TextAt(p.parts[i], inner), After(p, i);
    assert TextAt(p, AtBody(i)) == after;
    assert t + (after + extra) == t + after + extra;
    NodeInNested(b64, p, i, inner);
    NestedChild(b64, NodeAt(b64, p, InNested(i, inner)), (t + after + extra)[..k],
                Out(Ok, Result(b64, p.parts[i]), (after + extra)[..k - |t|]));
  }

  lemma NodeMovesInside(b64: Text -> Text, p: Part, i: nat, inner: Cursor, c: Cursor)
    requires ValidCursor(p, InNested(i, inner)) && ValidCursor(p, InNested(i, c))
    ensures NodeAt(b64, p, InNested(i, inner)).Multi?
    ensures NodeAt(b64, p, InNested(i, inner)).(cur := Some(NodeAt(b64, p.parts[i], c)))
         == NodeAt(b64, p, InNested(i, c))
  {
  }

  lemma SuffixInside(t: Text, t': Text, after: Text, k': nat)
    requires |t'| <= |t| && t[|t| - |t'|..] == t' && k' <= |t'|
    ensures (t + after)[|t + after| - |t' + after|..] == t' + after
    ensures (t' + after)[..k'] == t'[..k']
  {
  }

  /** A child that asks for more leaves its parent at the corresponding nested position. */
  lemma FedInside(b64: Text -> Text, p: Part, i: nat, inner: Cursor, extra: Text, k: nat, o: Out, c: Cursor, k': nat)
    requires ValidCursor(p, InNested(i, inner)) && k < |TextAt(p.parts[i], inner)|
    requires k <= |TextAt(p, InNested(i, inner)) + extra|
    requires Fed(b64, p.parts[i], TextAt(p.parts[i], inner), After(p, i) + extra, k, o, c, k')
    ensures NodeAt(b64, p, InNested(i, inner)).Multi? && o.code.NotEnough?
    ensures Fed(b64, p, TextAt(p, InNested(i, inner)), extra, k,
                Out(NotEnough, NodeAt(b64, p, InNested(i, inner)).(cur := Some(o.node)), o.buf), InNested(i, c), k')
  {
    hide DelimStage, HeaderStage, BodyStage, NestedStage, DashStage, ParseMulti, NodeAt, Result;
    NodeMovesInside(b64, p, i, inner, c);
    SuffixInside(TextAt(p.parts[i], inner), TextAt(p.parts[i], c), After(p, i), k');
  }

  lemma HeaderText(p: Part, i: nat, j: nat)
    requires ValidCursor(p, AtHeader(i, j))
    ensures TextAt(p, AtHeader(i, j))
         == FieldsText(p.parts[i].fields[j..]) + CRLF + (Content(p.parts[i]) + After(p, i))
  {
    var a, b, c := FieldsText(p.parts[i].fields[j..]) + CRLF, Content(p.parts[i]), After(p, i);
    assert a + b + c == a + (b + c);
  }

  lemma NodeAfterHeader(b64: Text -> Text, p: Part, i: nat, j: nat)
    requires ValidCursor(p, AtHeader(i, j))
    ensures var n := NodeAt(b64, p, AtHeader(i, j));
      && n.Multi? && n.cur.None? && n.partHeaders == HeaderMap(p.parts[i].fields[..j])
      && (p.parts[i].PLeaf? ==>
            n.(partHeaders := map[], cur := Some(Leaf(HeaderMap(p.parts[i].fields), [])), state := BodyPart)
            == NodeAt(b64, p, AtBody(i)))
      && (p.parts[i].PMulti? ==>
            n.(partHeaders := map[], cur := Some(NewMulti(HeaderMap(p.parts[i].fields), p.parts[i].boundary)))
            == NodeAt(b64, p, InNested(i, AtDash)))
  {
    if p.parts[i].PMulti? {
      assert NodeAt(b64, p.parts[i], AtDash) == NewMulti(HeaderMap(p.parts[i].fields), p.parts[i].boundary);
    }
  }

  /** The text from a header position, with what follows: the block first, then the part. */
  lemma HeaderSeen(p: Part, i: nat, j: nat, extra: Text, k: nat)
    requires ValidCursor(p, AtHeader(i, j)) && k <= |TextAt(p, AtHeader(i, j)) + extra|
    ensures var block := FieldsText(p.parts[i].fields[j..]) + CRLF;
      var rest := Content(p.parts[i]) + After(p, i) + extra;
      k <= |block + rest| && Seen(p, AtHeader(i, j), extra, k) == (block + rest)[..k]
  {
    HeaderText(p, i, j);
    var block, text := FieldsText(p.parts[i].fields[j..]) + CRLF, Content(p.parts[i]) + After(p, i);
    assert block + text + extra == block + (text + extra);
  }

  /** A complete header block opens the part it announces. */
  lemma HeaderToPart(b64: Text -> Text, p: Part, i: nat, j: nat, b: Text, rest: Text)
    requires p.PMulti? && WfMulti(b64, p) && ValidCursor(p, AtHeader(i, j))
    requires ParseHeader(HeaderMap(p.parts[i].fields[..j]), b) == HeaderOut(Ok, HeaderMap(p.parts[i].fields), rest)
    ensures HeaderStage(b64, NodeAt(b64, p, AtHeader(i, j)), b) ==
      if p.parts[i].PLeaf? then BodyStage(b64, NodeAt(b64, p, AtBody(i)), rest)
      else NestedStage(b64, NodeAt(b64, p, InNested(i, AtDash)), rest)
  {
    var q, n := p.parts[i], NodeAt(b64, p, AtHeader(i, j));
    assert WfPart(b64, q, p.boundary);
    NodeAfterHeader(b64, p, i, j);
    HeaderOpens(b64, n, b, HeaderMap(q.fields), rest, KindOf(HeaderMap(q.fields)));
    if q.PLeaf? {
      NestedLeaf(b64, n.(partHeaders := map[], cur := Some(Leaf(HeaderMap(q.fields), []))), rest);
    }
  }

  lemma PartTexts(p: Part, i: nat, j: nat)
    requires ValidCursor(p, AtHeader(i, j))
    ensures var front := FieldsText(p.parts[i].fields[j..]) + CRLF;
      if p.parts[i].PLeaf? then TextAt(p, AtBody(i)) == Content(p.parts[i]) + After(p, i)
      else TextAt(p, InNested(i, AtDash)) == Content(p.parts[i]) + After(p, i)
  {
  }

  lemma HeaderStays(b64: Text -> Text, p: Part, i: nat, j: nat, extra: Text, k: nat, r: HeaderOut, j': nat, k': nat)
    requires ValidCursor(p, AtHeader(i, j)) && k < |FieldsText(p.parts[i].fields[j..]) + CRLF|
    requires k <= |TextAt(p, AtHeader(i, j)) + extra|
    requires HeaderFed(p.parts[i].fields, j, Content(p.parts[i]) + After(p, i) + extra, k, r, j', k')
    ensures NodeAt(b64, p, AtHeader(i, j)).Multi? && r.code.NotEnough?
    ensures Fed(b64, p, TextAt(p, AtHeader(i, j)), extra, k,
                Out(NotEnough, NodeAt(b64, p, AtHeader(i, j)).(partHeaders := r.headers), r.buf), AtHeader(i, j'), k')
  {
    var q, text := p.parts[i], Content(p.parts[i]) + After(p, i);
    HeaderText(p, i, j);
    HeaderText(p, i, j');
    SuffixInside(FieldsText(q.fields[j..]) + CRLF, FieldsText(q.fields[j'..]) + CRLF, text, k');
  }

  lemma {:induction false} FeedHeader(b64: Text -> Text, p: Part, i: nat, j: nat, extra: Text, k: nat)
    returns (c: Cursor, k': nat)
    requires p.PMulti? && WfMulti(b64, p) && ValidCursor(p, AtHeader(i, j)) && ExtraOk(extra)
    requires k <= |TextAt(p, AtHeader(i, j)) + extra|
    ensures Fed(b64, p, TextAt(p, AtHeader(i, j)), extra, k,
                HeaderStage(b64, NodeAt(b64, p, AtHeader(i, j)), Seen(p, AtHeader(i, j), extra, k)), c, k')
    decreases p, |p.parts| - i, 4
  {
    hide DelimStage, HeaderStage, BodyStage, NestedStage, DashStage, ParseMulti, NodeAt, Result;
    var q, rest := p.parts[i], Content(p.parts[i]) + After(p, i) + extra;
    var front := FieldsText(q.fields[j..]) + CRLF;
    assert WfPart(b64, q, p.boundary);
    HeaderSeen(p, i, j, extra, k);
    var j';
    j', k' := FeedHeaderBlock(q.fields, j, rest, k);
    var r := HeaderAnswer(q.fields, j, rest, k);
    c := AtHeader(i, j');
    if k < |front| {
      HeaderStays(b64, p, i, j, extra, k, r, j', k');
      NodeAfterHeader(b64, p, i, j);
      HeaderWaits(b64, NodeAt(b64, p, AtHeader(i, j)), Seen(p, AtHeader(i, j), extra, k), r.headers, r.buf);
    } else {
      HeaderToPart(b64, p, i, j, Seen(p, AtHeader(i, j), extra, k), rest[..k - |front|]);
      c, k' := FeedPart(b64, p, i, j, extra, k);
    }
  }

  lemma {:induction false} FeedPart(b64: Text -> Text, p: Part, i: nat, j: nat, extra: Text, k: nat)
    returns (c: Cursor, k': nat)
    requires p.PMulti? && WfMulti(b64, p) && ValidCursor(p, AtHeader(i, j)) && ExtraOk(extra)
    requires |FieldsText(p.parts[i].fields[j..]) + CRLF| <= k <= |TextAt(p, AtHeader(i, j)) + extra|
    requires k <= |FieldsText(p.parts[i].fields[j..]) + CRLF + (Content(p.parts[i]) + After(p, i) + extra)|
    ensures var b := (Content(p.parts[i]) + After(p, i) + extra)[..k - |FieldsText(p.parts[i].fields[j..]) + CRLF|];
      Fed(b64, p, TextAt(p, AtHeader(i, j)), extra, k,
          if p.parts[i].PLeaf? then BodyStage(b64, NodeAt(b64, p, AtBody(i)), b)
          else NestedStage(b64, NodeAt(b64, p, InNested(i, AtDash)), b), c, k')
    decreases p, |p.parts| - i, 3, 1
  {
    hide BodyStage, NestedStage, NodeAt, TextAt, Content, After, FieldsText, WfMulti, Fed;
    var front := FieldsText(p.parts[i].fields[j..]) + CRLF;
    HeaderText(p, i, j);
    PartTexts(p, i, j);
    if p.parts[i].PLeaf? {
      c, k' := FeedBody(b64, p, i, extra, k - |front|);
      FedStep(b64, p, AtHeader(i, j), front, AtBody(i), extra, k,
              BodyStage(b64, NodeAt(b64, p, AtBody(i)), Seen(p, AtBody(i), extra, k - |front|)), c, k');
    } else {
      NodeInNested(b64, p, i, AtDash);
      c, k' := FeedNested(b64, p, i, AtDash, extra, k - |front|);
      FedStep(b64, p, AtHeader(i, j), front, InNested(i, AtDash), extra, k,
              NestedStage(b64, NodeAt(b64, p, InNested(i, AtDash)),
                          Seen(p, InNested(i, AtDash), extra, k - |front|)), c, k');
    }
  }

  lemma DashToHeader(b64: Text -> Text, p: Part, extra: Text, k: nat)
    requires Filled(p) && p.parts != [] && NoCr(p.boundary) && k <= |TextAt(p, AtDash) + extra|
    ensures TextAt(p, AtDash) == Dash(p.boundary) + CRLF + TextAt(p, AtHeader(0, 0))
    ensures var front := Dash(p.boundary) + CRLF;
      var o := DashStage(b64, NodeAt(b64, p, AtDash), Seen(p, AtDash, extra, k));
      if k < |front| then o == Out(NotEnough, NodeAt(b64, p, AtDash), Seen(p, AtDash, extra, k))
      else o == HeaderStage(b64, NodeAt(b64, p, AtHeader(0, 0)), Seen(p, AtHeader(0, 0), extra, k - |front|))
  {
    var dash, text, q := Dash(p.boundary), TextAt(p, AtHeader(0, 0)), p.parts[0];
    FirstText(p);
    FirstNode(b64, p);
    assert dash + CRLF + text + extra == dash + CRLF + (text + extra);
    FindAfterNoCr(dash, CRLF, text + extra);
    FindInPrefix(dash + CRLF + (text + extra), CRLF, k);
    if k >= |dash + CRLF| {
      SeenFront(dash + CRLF, text, extra, k);
      DashCut(b64, NodeAt(b64, p, AtDash), (text + extra)[..k - |dash + CRLF|]);
    }
  }

  lemma FirstText(p: Part)
    requires Filled(p) && p.parts != []
    ensures TextAt(p, AtDash) == Dash(p.boundary) + CRLF + TextAt(p, AtHeader(0, 0))
  {
    var q := p.parts[0];
    assert q.fields[0..] == q.fields;
    assert PartText(q) == FieldsText(q.fields) + CRLF + Content(q);
    assert Content(p) == Dash(p.boundary) + CRLF + (PartText(q) + After(p, 0));
  }

  lemma FirstNode(b64: Text -> Text, p: Part)
    requires p.PMulti? && p.parts != []
    ensures var n := NodeAt(b64, p, AtDash);
      n.Multi? && n.boundary == p.boundary && n.(state := HeaderPart) == NodeAt(b64, p, AtHeader(0, 0))
  {
    assert p.parts[..0] == [] && p.parts[0].fields[..0] == [];
  }

  lemma {:induction false} FeedDash(b64: Text -> Text, p: Part, extra: Text, k: nat) returns (c: Cursor, k': nat)
    requires p.PMulti? && WfMulti(b64, p) && ExtraOk(extra)
    requires k <= |TextAt(p, AtDash) + extra|
    ensures Fed(b64, p, TextAt(p, AtDash), extra, k,
                DashStage(b64, NodeAt(b64, p, AtDash), Seen(p, AtDash, extra, k)), c, k')
    decreases p, |p.parts|, 5
  {
    hide DelimStage, HeaderStage, BodyStage, NestedStage, DashStage, ParseMulti, NodeAt, Result;
    var front := Dash(p.boundary) + CRLF;
    WfFilled(b64, p);
    DashToHeader(b64, p, extra, k);
    c, k' := AtDash, k;
    if k < |front| {
      FedHere(b64, p, extra, k, AtDash);
    } else {
      c, k' := FeedHeader(b64, p, 0, 0, extra, k - |front|);
      FedStep(b64, p, AtDash, front, AtHeader(0, 0), extra, k,
              HeaderStage(b64, NodeAt(b64, p, AtHeader(0, 0)), Seen(p, AtHeader(0, 0), extra, k - |front|)), c, k');
    }
  }

  /** `parse` resumes at the stage the position calls for. */
  lemma Resumes(b64: Text -> Text, p: Part, at: Cursor, b: Text)
    requires ValidCursor(p, at)
    ensures var n := NodeAt(b64, p, at);
      n.Multi? && ParseMulti(b64, n, b) ==
        match at
        case AtDash => DashStage(b64, n, b)
        case AtHeader(_, _) => HeaderStage(b64, n, b)
        case InNested(_, _) => (if n.cur.Some? then NestedStage(b64, n, b) else ParseMulti(b64, n, b))
        case AtBody(_) => BodyStage(b64, n, b)
        case AtDelim(_) => DelimStage(b64, n, b)
    ensures at.InNested? ==> NodeAt(b64, p, at).cur.Some?
  {
  }

  /** From any position and with any part of the remaining text in the buffer, a call either
      finishes the tree or stops at a later position with the rest of the buffer unread. */
  lemma {:induction false} FeedMulti(b64: Text -> Text, p: Part, at: Cursor, extra: Text, k: nat)
    returns (c: Cursor, k': nat)
    requires p.PMulti? && WfMulti(b64, p) && ValidCursor(p, at) && ExtraOk(extra)
    requires k <= |TextAt(p, at) + extra|
    ensures Fed(b64, p, TextAt(p, at), extra, k, ParseMulti(b64, NodeAt(b64, p, at), Seen(p, at, extra, k)), c, k')
    decreases p, |p.parts|, 6
  {
    Resumes(b64, p, at, Seen(p, at, extra, k));
    match at
    case AtDash => c, k' := FeedDash(b64, p, extra, k);
    case AtHeader(i, j) => c, k' := FeedHeader(b64, p, i, j, extra, k);
    case InNested(i, inner) => c, k' := FeedNested(b64, p, i, inner, extra, k);
    case AtBody(i) => c, k' := FeedBody(b64, p, i, extra, k);
    case AtDelim(i) => c, k' := FeedDelim(b64, p, i, extra, k);
  }
}
