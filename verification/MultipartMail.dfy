/** Messages as a user builds them: quoted-printable and 7bit text in nested multiparts with
    generated boundaries. They come back from the parser unchanged, however they are read. */
module MultipartMail {
  import opened Bytes
  import opened MultipartSyntax
  import opened MultipartParser
  import opened MultipartProof
  import opened MultipartStream
  import QuotedPrintable

  datatype Mail =
    | Note(text: Text)      // text/plain in ISO-8859-1, quoted-printable
    | Ascii7(text: Text)    // text/plain in US-ASCII, 7bit
    | Group(boundary: Text, children: seq<Mail>)

  const TYPE_NAME := Ascii("Content-Type")
  const ENCODING_NAME := Ascii("Content-Transfer-Encoding")
  const TEXT := Ascii("text")
  const PLAIN := Ascii("plain")
  const MIXED := Ascii("mixed")
  const CHARSET := Ascii("charset")
  const LATIN1 := Ascii("iso-8859-1")
  const US_ASCII := Ascii("us-ascii")
  const QP := Ascii("quoted-printable")
  const BIT7 := Ascii("7bit")

  // ---------------------------------------------------------------- building and reading back

  function TextFields(charset: Text, encoding: Text): seq<Field> {
    [Field(TYPE_NAME, TEXT + [47] + PLAIN + [59] + ([SP] + CHARSET + [61] + charset)),
     Field(ENCODING_NAME, encoding)]
  }

  /** The `multipart` constructor. */
  function GroupFields(b: Text): seq<Field> {
    [Field(TYPE_NAME, MULTIPART + [47] + MIXED + [59] + ([SP] + BOUNDARY + [61, 34] + b + [34]))]
  }

  function Build(m: Mail): (p: Part)
    ensures m.Group? ==> p.PMulti? && p.boundary == m.boundary && |p.parts| == |m.children|
    ensures m.Group? ==> forall i :: 0 <= i < |m.children| ==> p.parts[i] == Build(m.children[i])
    decreases m
  {
    match m
    case Note(t) => PLeaf(TextFields(LATIN1, QP), QuotedPrintable.Encode(t))
    case Ascii7(t) => PLeaf(TextFields(US_ASCII, BIT7), t)
    case Group(b, ms) => PMulti(GroupFields(b), b, seq(|ms|, i requires 0 <= i < |ms| => Build(ms[i])))
  }

  function ReadBack(n: Node): Mail
    decreases n
  {
    match n
    case Leaf(h, body) =>
      if TRANSFER_ENCODING in h && h[TRANSFER_ENCODING] == QP then Note(body) else Ascii7(body)
    case Multi(_, _, b, _, parts, _, _) =>
      Group(b, seq(|parts|, i requires 0 <= i < |parts| => ReadBack(parts[i])))
  }

  /** The shape of `generate_boundary`: it contains "=_" and nothing that would need quoting. */
  predicate GeneratedBoundary(b: Text) {
    Contains(b, [61, 95]) && NoCr(b) && 34 !in b && 92 !in b
  }

  /** No group is empty and no 7bit text contains the delimiter of the group it is in. */
  predicate GoodMail(m: Mail, parent: Text)
    decreases m
  {
    match m
    case Note(_) => true
    case Ascii7(t) => !Contains(t, Delim(parent))
    case Group(b, ms) =>
      GeneratedBoundary(b) && ms != [] && forall i :: 0 <= i < |ms| ==> GoodMail(ms[i], b)
  }

  // ---------------------------------------------------------------- header values

  lemma FindByte(a: Text, b: byte, rest: Text)
    requires b !in a
    ensures Find(a + [b] + rest, [b]) == |a|
  {
    var s := a + [b] + rest;
    assert s[|a|..|a| + 1] == [b];
    forall j | 0 <= j < |a| ensures !Occurs(s, [b], j) {
      assert s[j] == a[j];
      NotAt(s, [b], j, 0);
    }
    FindIs(s, [b], |a|);
  }

  lemma FindNoByte(s: Text, b: byte)
    requires b !in s
    ensures Find(s, [b]) < 0
  {
    forall j | 0 <= j < |s| ensures !Occurs(s, [b], j) { NotAt(s, [b], j, 0); }
  }

  lemma TwoTypes(main: Text, sub: Text)
    requires 47 !in main && 47 !in sub
    ensures Split(main + [47] + sub, 47) == [main, sub]
  {
    var s := main + [47] + sub;
    FindByte(main, 47, sub);
    FindNoByte(sub, 47);
    assert s[..|main|] == main && s[|main| + 1..] == sub;
    assert Split(sub, 47) == [sub];
  }

  lemma OneParam(s: Text, key: Text, value: Text)
    requires s != [] && !IsSpace(s[0]) && ParseParam(s) == Some(Param(key, value, None))
    ensures ParseParams([SP] + s, map[]) == Some(map[key := value])
  {
    hide ParseParam;
    assert ([SP] + s)[1..] == s && TrimLeft(s) == s;
  }

  lemma PlainParam(attr: Text, value: Text)
    requires attr != [] && !IsSpace(attr[0]) && 61 !in attr
    requires value != [] && value[0] != 34 && 59 !in value
    ensures ParseParams([SP] + attr + [61] + value, map[]) == Some(map[Lower(attr) := Trim(value)])
  {
    var s := attr + [61] + value;
    FindByte(attr, 61, value);
    assert s[|attr| + 1..] == value && s[..|attr|] == attr;
    FindNoByte(value, 59);
    assert [SP] + attr + [61] + value == [SP] + s;
    OneParam(s, Lower(attr), Trim(value));
  }

  lemma {:induction false} ClosingQuoteAt(s: Text, i: nat, end: nat)
    requires i <= end < |s| && s[end] == 34
    requires forall j :: i <= j < end ==> s[j] != 34 && s[j] != 92
    ensures ClosingQuote(s, i) == end
    decreases end - i
  {
    if i < end { ClosingQuoteAt(s, i + 1, end); }
  }

  lemma QuotedParam(attr: Text, value: Text)
    requires attr != [] && !IsSpace(attr[0]) && 61 !in attr
    requires 34 !in value && 92 !in value
    ensures ParseParams([SP] + attr + [61, 34] + value + [34], map[]) == Some(map[Lower(attr) := value])
  {
    var s := attr + [61] + ([34] + value + [34]);
    FindByte(attr, 61, [34] + value + [34]);
    var end := |attr| + 2 + |value|;
    assert s[..|attr|] == attr && s[|attr| + 2..end] == value && s[end..] == [34];
    forall j | |attr| + 2 <= j < end ensures s[j] != 34 && s[j] != 92 {
      assert s[j] == value[j - |attr| - 2];
    }
    ClosingQuoteAt(s, |attr| + 2, end);
    FindNoByte([34], 59);
    assert [SP] + attr + [61, 34] + value + [34] == [SP] + s;
    OneParam(s, Lower(attr), value);
  }

  lemma TypeOf(main: Text, sub: Text, params: Text)
    requires 59 !in main && 59 !in sub && 47 !in main && 47 !in sub
    ensures var v := main + [47] + sub + [59] + params;
      && Find(v, [59]) == |main| + 1 + |sub|
      && v[..|main| + 1 + |sub|] == main + [47] + sub && v[|main| + 1 + |sub| + 1..] == params
      && Split(main + [47] + sub, 47) == [main, sub]
  {
    FindByte(main + [47] + sub, 59, params);
    TwoTypes(main, sub);
  }

  /** The Content-Type that the text constructor writes is read as a leaf. */
  lemma TextKind(charset: Text)
    requires charset != [] && charset[0] != 34 && 59 !in charset
    ensures ContentKind(TEXT + [47] + PLAIN + [59] + ([SP] + CHARSET + [61] + charset)) == KLeaf
  {
    hide ParseParams, Split, Find;
    TypeOf(TEXT, PLAIN, [SP] + CHARSET + [61] + charset);
    PlainParam(CHARSET, charset);
    assert |Lower(TEXT)| == 4 && |MULTIPART| == 9;
  }

  /** The Content-Type that the multipart constructor writes is read with the same boundary. */
  lemma GroupKind(b: Text)
    requires 34 !in b && 92 !in b
    ensures ContentKind(MULTIPART + [47] + MIXED + [59] + ([SP] + BOUNDARY + [61, 34] + b + [34])) == KMulti(b)
  {
    assert Lower(MULTIPART) == MULTIPART && Lower(BOUNDARY) == BOUNDARY;
    hide ParseParams, Split, Find;
    TypeOf(MULTIPART, MIXED, [SP] + BOUNDARY + [61, 34] + b + [34]);
    QuotedParam(BOUNDARY, b);
  }

  lemma Names()
    ensures Lower(TYPE_NAME) == CONTENT_TYPE && Lower(ENCODING_NAME) == TRANSFER_ENCODING
    ensures CONTENT_TYPE != TRANSFER_ENCODING
    ensures NoCr(TYPE_NAME) && NoCr(ENCODING_NAME) && COLON !in TYPE_NAME && COLON !in ENCODING_NAME
  {
    assert |CONTENT_TYPE| == 12 && |TRANSFER_ENCODING| == 25;
  }

  lemma OneField(f: Field)
    requires f.value != []
    ensures HeaderMap([f]) == map[Lower(f.name) := f.value]
  {
    assert [f][..0] == [];
  }

  lemma TwoFields(f: Field, g: Field)
    requires f.value != [] && g.value != [] && Lower(f.name) != Lower(g.name)
    ensures HeaderMap([f, g]) == map[Lower(f.name) := f.value, Lower(g.name) := g.value]
  {
    assert [f, g][..1] == [f];
    OneField(f);
  }

  lemma TextHeaders(charset: Text, encoding: Text)
    requires charset != [] && NoCr(charset) && charset[0] != 34 && 59 !in charset && Trimmed(charset)
    requires encoding != [] && NoCr(encoding) && Trimmed(encoding)
    ensures WfFields(TextFields(charset, encoding))
    ensures KindOf(HeaderMap(TextFields(charset, encoding))) == KLeaf
    ensures TRANSFER_ENCODING in HeaderMap(TextFields(charset, encoding))
    ensures HeaderMap(TextFields(charset, encoding))[TRANSFER_ENCODING] == encoding
  {
    var v := TEXT + [47] + PLAIN + [59] + ([SP] + CHARSET + [61] + charset);
    Names();
    TextValue(charset);
    TextKind(charset);
    TwoFields(Field(TYPE_NAME, v), Field(ENCODING_NAME, encoding));
    hide ContentKind, HeaderMap;
  }

  lemma TextValue(charset: Text)
    requires charset != [] && NoCr(charset) && Trimmed(charset)
    ensures var v := TEXT + [47] + PLAIN + [59] + ([SP] + CHARSET + [61] + charset);
      v != [] && NoCr(v) && Trimmed(v)
  {
    var v := TEXT + [47] + PLAIN + [59] + ([SP] + CHARSET + [61] + charset);
    assert v[0] == 116 && v[|v| - 1] == charset[|charset| - 1];
  }

  lemma GroupValue(b: Text)
    requires NoCr(b)
    ensures var v := MULTIPART + [47] + MIXED + [59] + ([SP] + BOUNDARY + [61, 34] + b + [34]);
      v != [] && NoCr(v) && Trimmed(v)
  {
    var v := MULTIPART + [47] + MIXED + [59] + ([SP] + BOUNDARY + [61, 34] + b + [34]);
    assert v[0] == 109 && v[|v| - 1] == 34;
  }

  lemma GroupHeaders(b: Text)
    requires NoCr(b) && 34 !in b && 92 !in b
    ensures WfFields(GroupFields(b)) && KindOf(HeaderMap(GroupFields(b))) == KMulti(b)
  {
    var v := MULTIPART + [47] + MIXED + [59] + ([SP] + BOUNDARY + [61, 34] + b + [34]);
    Names();
    GroupValue(b);
    GroupKind(b);
    OneField(Field(TYPE_NAME, v));
    hide ContentKind, HeaderMap;
  }

  lemma Constants()
    ensures NoCr(LATIN1) && LATIN1[0] == 105 && 59 !in LATIN1 && Trimmed(LATIN1)
    ensures NoCr(US_ASCII) && US_ASCII[0] == 117 && 59 !in US_ASCII && Trimmed(US_ASCII)
    ensures NoCr(QP) && Trimmed(QP) && Lower(QP) == QP && NoCr(BIT7) && Trimmed(BIT7)
    ensures Lower(BIT7) != Ascii("base64") && Lower(BIT7) != QP && QP != Ascii("base64") && BIT7 != QP
  {
    assert |BIT7| == 4 && |QP| == 16 && |Ascii("base64")| == 6;
  }

  // ---------------------------------------------------------------- leaves

  /** A generated delimiter contains "=_", so quoted-printable data never contains it. */
  lemma EncodedAvoidsDelim(t: Text, b: Text)
    requires Contains(b, [61, 95])
    ensures !Contains(QuotedPrintable.Encode(t), Delim(b))
  {
    hide QuotedPrintable.Encode;
    var s, d := QuotedPrintable.Encode(t), Delim(b);
    var off :| 0 <= off <= |b| && Occurs(b, [61, 95], off);
    assert b[off..off + 2][0] == b[off] == 61 && b[off..off + 2][1] == b[off + 1] == 95;
    assert d[off + 4] == 61 && d[off + 5] == 95;
    forall i | 0 <= i <= |s| ensures !Occurs(s, d, i) {
      var q := i + off + 4;
      QuotedPrintable.NoBoundaryInside(t, q);
      if q + 2 <= |s| {
        assert s[q..q + 2] == [s[q], s[q + 1]];
        NotAt(s, d, i, if s[q] != 61 then off + 4 else off + 5);
      }
    }
  }

  lemma NoteGood(b64: Text -> Text, t: Text, b: Text)
    requires Contains(b, [61, 95])
    ensures WfPart(b64, Build(Note(t)), b) && ReadBack(Result(b64, Build(Note(t)))) == Note(t)
  {
    Constants();
    TextHeaders(LATIN1, QP);
    QuotedPrintable.RoundTrip(t);
    EncodedAvoidsDelim(t, b);
    assert QuotedPrintable.Encode(t) == [] ==> t == [];
  }

  lemma Ascii7Good(b64: Text -> Text, t: Text, b: Text)
    requires !Contains(t, Delim(b))
    ensures WfPart(b64, Build(Ascii7(t)), b) && ReadBack(Result(b64, Build(Ascii7(t)))) == Ascii7(t)
  {
    Constants();
    TextHeaders(US_ASCII, BIT7);
  }

  /** Built messages are well formed, and their finished nodes read back as the message. */
  lemma {:induction false} MailGood(b64: Text -> Text, m: Mail, parent: Text)
    requires GoodMail(m, parent) && Contains(parent, [61, 95])
    ensures WfPart(b64, Build(m), parent) && ReadBack(Result(b64, Build(m))) == m
    decreases m, 1
  {
    match m
    case Note(t) => NoteGood(b64, t, parent);
    case Ascii7(t) => Ascii7Good(b64, t, parent);
    case Group(b, ms) => GroupGood(b64, m, parent);
  }

  lemma {:induction false} GroupGood(b64: Text -> Text, m: Mail, parent: Text)
    requires m.Group? && GoodMail(m, parent)
    ensures WfMulti(b64, Build(m)) && WfPart(b64, Build(m), parent) && ReadBack(Result(b64, Build(m))) == m
    decreases m, 0
  {
    var p, n := Build(m), Result(b64, Build(m));
    GroupHeaders(m.boundary);
    forall i | 0 <= i < |m.children|
      ensures WfPart(b64, p.parts[i], p.boundary) && ReadBack(n.parts[i]) == m.children[i]
    {
      MailGood(b64, m.children[i], m.boundary);
    }
    assert ReadBack(n).children == m.children;
  }

  /** Writing a message and parsing it back, in any pieces, gives the same message: NotEnough
      until the last octet of the close delimiter, then Ok. */
  lemma MailRoundTrip(b64: Text -> Text, m: Mail, pieces: seq<Text>)
    requires m.Group? && GoodMail(m, [])
    ensures var o := FeedAll(b64, NewParser(HeaderMap(Build(m).fields), m.boundary), [], pieces);
      && (Flatten(pieces) == Content(Build(m)) ==> o.code.Ok? && ReadBack(o.parser.root) == m && o.buf == [])
      && (Flatten(pieces) < Content(Build(m)) ==> o.code.NotEnough?)
  {
    GroupGood(b64, m, []);
    StreamingRoundTrip(b64, Build(m), pieces);
  }

  /** A form part has no Content-Transfer-Encoding field, and its value is then lost: the parsed
      body equals the data if and only if that field is present or the data is empty. */
  lemma BodyKeptExactly(b64: Text -> Text, h: Headers, data: Text)
    requires TRANSFER_ENCODING in h ==> Lower(h[TRANSFER_ENCODING]) == BIT7
    ensures Decoded(b64, h, data) == Some(data) <==> TRANSFER_ENCODING in h || data == []
  {
    Constants();
  }

  // ---------------------------------------------------------------- types without parameters

  lemma BareKind(h: Headers)
    ensures KindOf(h) == KAbnormal <==> BareType(h)
  {
    if CONTENT_TYPE in h {
      var v := h[CONTENT_TYPE];
      var semi := Find(v, [59]);
      if 59 !in v {
        FindNoByte(v, 59);
      } else {
        var k :| 0 <= k < |v| && v[k] == 59;
        assert v[k..k + 1] == [59];
        assert Occurs(v, [59], k);
      }
    }
  }

  /** The call ends abnormally before it has opened the part whose header block it read. */
  predicate BreaksHere(n: Node, o: Out)
    requires n.Multi? && o.node.Multi?
  {
    o.code.Abnormal? && o.node.cur.None? && |o.node.parts| == |n.parts|
  }

  /** At every part of every nesting and with anything behind it: once the header block of the part
      is complete the parser breaks there if and only if the part has a Content-Type field without
      a ';'. */
  lemma BreaksOnBareType(b64: Text -> Text, n: Node, buf: Text)
    requires n.Multi? && n.cur.None? && ParseHeader(n.partHeaders, buf).code.Ok?
    ensures BreaksHere(n, HeaderStage(b64, n, buf)) <==> BareType(ParseHeader(n.partHeaders, buf).headers)
  {
    hide ParseHeader, KindOf, NestedStage, BareType;
    BareKind(ParseHeader(n.partHeaders, buf).headers);
  }

  const APPLICATION := Ascii("application")
  const OCTET_STREAM := Ascii("octet-stream")
  const BASE64 := Ascii("base64")

  /** The headers of `application(data)`, which has no name and so no parameter. */
  function ApplicationFields(): seq<Field> {
    [Field(TYPE_NAME, APPLICATION + [47] + OCTET_STREAM), Field(ENCODING_NAME, BASE64)]
  }

  lemma ApplicationHeaders()
    ensures WfFields(ApplicationFields()) && BareType(HeaderMap(ApplicationFields()))
  {
    var v := APPLICATION + [47] + OCTET_STREAM;
    Names();
    assert |APPLICATION| == 11 && |OCTET_STREAM| == 12 && |BASE64| == 6;
    assert v[0] == 97 && v[|v| - 1] == 109 && NoCr(v) && 59 !in v;
    assert BASE64[0] == 98 && BASE64[5] == 52 && NoCr(BASE64);
    TwoFields(Field(TYPE_NAME, v), Field(ENCODING_NAME, BASE64));
    hide HeaderMap;
  }

  lemma BlockRead(fs: seq<Field>, rest: Text)
    requires WfFields(fs)
    ensures ParseHeader(map[], FieldsText(fs) + CRLF + rest) == HeaderOut(Ok, HeaderMap(fs), rest)
  {
    var all := FieldsText(fs) + CRLF + rest;
    var j, k := FeedHeaderBlock(fs, 0, rest, |all|);
    assert fs[0..] == fs && fs[..0] == [] && all[..|all|] == all;
  }

  /** A message whose first part is such an attachment is not parsed: with the header block of the
      part in the buffer, and anything behind it, the parser breaks. */
  lemma {:induction false} AttachmentBreaks(b64: Text -> Text, p: Part, extra: Text)
    requires p.PMulti? && p.parts != [] && NoCr(p.boundary)
    requires p.parts[0].PLeaf? && p.parts[0].fields == ApplicationFields()
    ensures ParseTop(b64, NewParser(HeaderMap(p.fields), p.boundary), Content(p) + extra).code.Abnormal?
  {
    hide FieldsText, After, ParseHeader, KindOf, BareType;
    ApplicationHeaders();
    var fs := ApplicationFields();
    var rest := p.parts[0].data + After(p, 0) + extra;
    var block := FieldsText(fs) + CRLF + rest;
    OpeningText(p, extra);
    BlockRead(fs, rest);
    BareKind(HeaderMap(fs));
    BlockReached(b64, HeaderMap(p.fields), p.boundary, block);
  }

  lemma OpeningText(p: Part, extra: Text)
    requires p.PMulti? && p.parts != [] && p.parts[0].PLeaf?
    ensures Content(p) + extra
      == Dash(p.boundary) + CRLF + (FieldsText(p.parts[0].fields) + CRLF + (p.parts[0].data + After(p, 0) + extra))
  {
    hide FieldsText, After;
    var f, d, a := FieldsText(p.parts[0].fields), p.parts[0].data, After(p, 0);
    assert PartText(p.parts[0]) == f + CRLF + d by { assert Content(p.parts[0]) == d; }
    assert Content(p) == Dash(p.boundary) + CRLF + (f + CRLF + d + a);
    assert f + CRLF + d + a + extra == f + CRLF + (d + a + extra);
  }

  /** The opening line of a multipart leads to the first header block. */
  lemma BlockReached(b64: Text -> Text, h: Headers, b: Text, block: Text)
    requires NoCr(b) && ParseHeader(map[], block).code.Ok? && BareType(ParseHeader(map[], block).headers)
    ensures ParseTop(b64, NewParser(h, b), Dash(b) + CRLF + block).code.Abnormal?
  {
    hide ParseHeader, KindOf, BareType;
    BareKind(ParseHeader(map[], block).headers);
    var buf, n := Dash(b) + CRLF + block, NewMulti(h, b);
    FindAfterNoCr(Dash(b), CRLF, block);
    assert buf[..|Dash(b)|] == Dash(b) && buf[|Dash(b)| + 2..] == block && buf[|Dash(b)|..|Dash(b)|] == [];
    assert DashStage(b64, n, buf) == HeaderStage(b64, n.(state := HeaderPart), block);
  }

  // ---------------------------------------------------------------- form parts

  const DISPOSITION_NAME := Ascii("Content-Disposition")
  const UTF_8 := Ascii("utf-8")

  /** The headers of `add_text_part`: no Content-Transfer-Encoding. */
  function FormFields(name: Text): seq<Field> {
    [Field(DISPOSITION_NAME, Ascii("form-data; name=") + [34] + name + [34]),
     Field(TYPE_NAME, TEXT + [47] + PLAIN + [59] + ([SP] + CHARSET + [61] + UTF_8))]
  }

  lemma FormHeaders(name: Text)
    requires NoCr(name)
    ensures WfFields(FormFields(name)) && KindOf(HeaderMap(FormFields(name))) == KLeaf
    ensures TRANSFER_ENCODING !in HeaderMap(FormFields(name))
  {
    var d := Ascii("form-data; name=") + [34] + name + [34];
    var v := TEXT + [47] + PLAIN + [59] + ([SP] + CHARSET + [61] + UTF_8);
    Names();
    FormNames();
    TextValue(UTF_8);
    TextKind(UTF_8);
    assert d[0] == 102 && d[|d| - 1] == 34 && NoCr(d);
    TwoFields(Field(DISPOSITION_NAME, d), Field(TYPE_NAME, v));
    hide ContentKind, HeaderMap;
  }

  lemma FormNames()
    ensures NoCr(DISPOSITION_NAME) && COLON !in DISPOSITION_NAME
    ensures Lower(DISPOSITION_NAME) != CONTENT_TYPE && Lower(DISPOSITION_NAME) != TRANSFER_ENCODING
    ensures NoCr(UTF_8) && UTF_8 != [] && UTF_8[0] == 117 && 59 !in UTF_8 && Trimmed(UTF_8)
    ensures NoCr(Ascii("form-data; name="))
  {
    assert |DISPOSITION_NAME| == 19 && |CONTENT_TYPE| == 12 && |TRANSFER_ENCODING| == 25 && |UTF_8| == 5;
  }

  /** The form part as the writer holds it. */
  function FormPart(name: Text, value: Text): Part { PLeaf(FormFields(name), value) }

  /** For every name and value: a form part is read, in any pieces, as a leaf with an empty body. */
  lemma FormValueLost(b64: Text -> Text, fs: seq<Field>, b: Text, name: Text, value: Text, pieces: seq<Text>)
    requires NoCr(b) && NoCr(name) && !Contains(value, Delim(b))
    requires Flatten(pieces) == Content(PMulti(fs, b, [FormPart(name, value)]))
    ensures var o := FeedAll(b64, NewParser(HeaderMap(fs), b), [], pieces);
      o.code.Ok? && o.parser.root.Multi? && o.parser.root.parts == [Leaf(HeaderMap(FormFields(name)), [])]
  {
    var part := FormPart(name, value);
    var p := PMulti(fs, b, [part]);
    FormHeaders(name);
    FormResult(b64, name, value, b);
    hide HeaderMap, KindOf, FormFields, Content, FeedAll;
    assert WfMulti(b64, p);
    StreamingRoundTrip(b64, p, pieces);
    assert Result(b64, p).parts == [Result(b64, part)];
  }

  lemma FormResult(b64: Text -> Text, name: Text, value: Text, b: Text)
    requires NoCr(name) && !Contains(value, Delim(b))
    ensures WfPart(b64, FormPart(name, value), b)
    ensures Result(b64, FormPart(name, value)) == Leaf(HeaderMap(FormFields(name)), [])
  {
    FormHeaders(name);
    hide HeaderMap, KindOf, FormFields, WfFields;
  }
}
