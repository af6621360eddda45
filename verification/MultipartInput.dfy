/** What the multipart parser makes of input that the writer never produces (src/mime/mime.cc):
    padding behind boundaries, names in any case, repeated fields and parameters, and text that is
    not a multipart at all. */
module MultipartInput {
  import opened Bytes
  import opened MultipartSyntax
  import opened MultipartParser
  import opened MultipartProof
  import opened MultipartStream
  import opened MultipartMail
  import QuotedPrintable

  // ---------------------------------------------------------------- opening lines and padding

  /** The dash-boundary line, with nothing but blanks behind the boundary. */
  predicate OpeningLine(line: Text, b: Text) { StartsWith(line, Dash(b)) && AllLwsp(line[|Dash(b)|..]) }

  lemma LineCut(line: Text, rest: Text)
    requires NoCr(line)
    ensures Find(line + CRLF + rest, CRLF) == |line|
    ensures (line + CRLF + rest)[..|line|] == line && (line + CRLF + rest)[|line| + 2..] == rest
  {
    FindAfterNoCr(line, CRLF, rest);
  }

  /** A whole line that starts with the boundary: taken if and only if the rest of it is blank. */
  lemma DashPadding(b64: Text -> Text, n: Node, pad: Text, rest: Text)
    requires n.Multi? && NoCr(n.boundary) && NoCr(pad)
    ensures AllLwsp(pad) ==>
      DashStage(b64, n, Dash(n.boundary) + pad + CRLF + rest) == DashStage(b64, n, Dash(n.boundary) + CRLF + rest)
    ensures !AllLwsp(pad) ==> DashStage(b64, n, Dash(n.boundary) + pad + CRLF + rest).code.Error?
  {
    hide HeaderStage;
    var d := Dash(n.boundary);
    LineCut(d + pad, rest);
    var buf := d + pad + CRLF + rest;
    assert buf[|d|..|d + pad|] == pad && d <= buf;
    DashCut(b64, n, rest);
  }

  lemma NotDash(line: Text, b: Text, rest: Text)
    requires NoCr(line) && NoCr(b)
    ensures StartsWith(line + CRLF + rest, Dash(b)) <==> StartsWith(line, Dash(b))
  {
    var buf := line + CRLF + rest;
    assert buf[..|line|] == line;
    if StartsWith(line, Dash(b)) {
      assert buf[..|Dash(b)|] == line[..|Dash(b)|];
    } else {
      assert buf[|line|..|line| + 2] == CRLF;
      LeadIsNoDash(line, b, buf);
    }
  }

  /** A first line that is not the dash-boundary line stops the parser of a nested multipart. */
  lemma BadOpening(b64: Text -> Text, n: Node, line: Text, rest: Text)
    requires n.Multi? && NoCr(n.boundary) && NoCr(line) && !OpeningLine(line, n.boundary)
    ensures DashStage(b64, n, line + CRLF + rest).code.Error?
  {
    var d := Dash(n.boundary);
    NotDash(line, n.boundary, rest);
    LineCut(line, rest);
    if StartsWith(line, d) {
      assert line == d + line[|d|..];
      DashPadding(b64, n, line[|d|..], rest);
    }
  }

  /** A preamble of a second line, which RFC 2046 allows, is refused: behind one line that does not
      begin with the boundary only the dash-boundary line is taken. */
  lemma SecondLineRefused(b64: Text -> Text, h: Headers, b: Text, first: Text, second: Text, rest: Text)
    requires NoCr(b) && NoCr(first) && NoCr(second)
    requires !StartsWith(first, Dash(b)) && !OpeningLine(second, b)
    ensures ParseTop(b64, NewParser(h, b), first + CRLF + (second + CRLF + rest)).code.Error?
  {
    hide ParseMulti, DashStage;
    var behind := second + CRLF + rest;
    LineCut(first, behind);
    NotDash(first, b, behind);
    BadOpening(b64, NewMulti(h, b), second, rest);
    ParseStarts(b64, NewMulti(h, b), behind);
  }

  lemma ParseStarts(b64: Text -> Text, n: Node, buf: Text)
    requires n.Multi? && n.state.DashBoundary?
    ensures ParseMulti(b64, n, buf) == DashStage(b64, n, buf)
  {
  }

  /** Behind a delimiter: blanks up to the end of the line make no difference, anything else is
      refused. */
  lemma DelimPadding(b64: Text -> Text, n: Node, pad: Text, rest: Text)
    requires n.Multi? && n.cur.Some? && NoCr(pad) && !StartsWith(pad, TWO_HYPHEN)
    ensures AllLwsp(pad) ==> DelimStage(b64, n, pad + CRLF + rest) == DelimStage(b64, n, CRLF + rest)
    ensures !AllLwsp(pad) ==> DelimStage(b64, n, pad + CRLF + rest).code.Error?
  {
    hide HeaderStage;
    var buf := pad + CRLF + rest;
    LineCut(pad, rest);
    DelimGoesOn(b64, n, rest);
    assert !StartsWith(buf, TWO_HYPHEN) by {
      if |pad| >= 2 { assert buf[..2] == pad[..2]; } else { assert buf[|pad|] == CR; }
    }
  }

  lemma {:induction false} BlanksSkipped(pad: Text, rest: Text)
    requires AllLwsp(pad)
    ensures SkipLwsp(pad + rest) == SkipLwsp(rest)
  {
    if pad == [] {
      assert pad + rest == rest;
    } else {
      assert (pad + rest)[0] == pad[0] && (pad + rest)[1..] == pad[1..] + rest;
      BlanksSkipped(pad[1..], rest);
    }
  }

  /** Blanks behind the close delimiter make no difference. */
  lemma ClosePadding(b64: Text -> Text, n: Node, pad: Text, rest: Text)
    requires n.Multi? && n.cur.Some? && AllLwsp(pad)
    ensures DelimStage(b64, n, TWO_HYPHEN + pad + rest) == DelimStage(b64, n, TWO_HYPHEN + rest)
  {
    hide HeaderStage;
    BlanksSkipped(pad, rest);
    assert TWO_HYPHEN + pad + rest == TWO_HYPHEN + (pad + rest);
    assert (TWO_HYPHEN + (pad + rest))[2..] == pad + rest && (TWO_HYPHEN + rest)[2..] == rest;
  }

  // ---------------------------------------------------------------- header lines

  lemma FirstColon(a: Text, rest: Text)
    requires COLON !in a
    ensures Find(a + [COLON] + rest, [COLON]) == |a|
  {
    FindByte(a, COLON, rest);
  }

  /** A line `name:value`, blanks around the value or not, records the trimmed value. */
  lemma FieldTaken(h: Headers, name: Text, value: Text, rest: Text)
    requires NoCr(name) && NoCr(value) && COLON !in name
    ensures ParseHeader(h, name + [COLON] + value + CRLF + rest) == ParseHeader(AddField(h, name, Trim(value)), rest)
  {
    var line := name + [COLON] + value;
    var buf := line + CRLF + rest;
    LineCut(line, rest);
    assert buf == name + [COLON] + (value + CRLF + rest);
    FirstColon(name, value + CRLF + rest);
    assert buf[..|name|] == name && buf[|name| + 1..|line|] == value;
    ParseHeaderLine(h, buf, |name|, |line|, name, Trim(value), rest);
  }

  /** A line without a ':' is an error if there is none behind it in the buffer either. If there is
      one, it is taken for the end of the name, and the value before it is copied with a negative
      length. */
  lemma LineWithoutColon(h: Headers, line: Text, rest: Text)
    requires NoCr(line) && line != [] && COLON !in line
    ensures ParseHeader(h, line + CRLF + rest).code == if COLON in rest then Abnormal else Error
  {
    var buf := line + CRLF + rest;
    LineCut(line, rest);
    assert !StartsWith(buf, CRLF) by { assert buf[0] == line[0]; }
    if COLON in rest {
      var pos := Find(buf, [COLON]);
      var k :| 0 <= k < |rest| && rest[k] == COLON;
      assert buf[|line| + 2 + k..|line| + 2 + k + 1] == [COLON];
      assert Occurs(buf, [COLON], |line| + 2 + k);
      assert buf[pos..pos + 1] == [buf[pos]];
      assert forall j :: 0 <= j < |line| ==> buf[j] == line[j];
    } else {
      assert COLON !in buf;
      FindNoByte(buf, COLON);
    }
  }

  /** Field i is the first of its name that has a value. */
  predicate FirstOf(fs: seq<Field>, i: nat, key: Text)
    requires i < |fs|
  {
    && Lower(fs[i].name) == key && fs[i].value != []
    && forall j :: 0 <= j < i ==> Lower(fs[j].name) != key || fs[j].value == []
  }

  predicate Named(f: Field, key: Text) { Lower(f.name) == key && f.value != [] }

  lemma {:induction false} NoneNamed(fs: seq<Field>, key: Text)
    requires forall i :: 0 <= i < |fs| ==> !Named(fs[i], key)
    ensures key !in HeaderMap(fs)
  {
    hide Lower;
    if fs != [] {
      assert !Named(fs[|fs| - 1], key);
      NoneNamed(fs[..|fs| - 1], key);
    }
  }

  lemma {:induction false} FirstCounts(fs: seq<Field>, i: nat, key: Text)
    requires i < |fs| && FirstOf(fs, i, key)
    ensures key in HeaderMap(fs) && HeaderMap(fs)[key] == fs[i].value
  {
    hide Lower;
    var n := |fs| - 1;
    HeaderMapStep(fs, n);
    assert fs[..n + 1] == fs;
    if i < n {
      assert FirstOf(fs[..n], i, key);
      FirstCounts(fs[..n], i, key);
    } else {
      NoneNamed(fs[..n], key);
    }
  }

  lemma {:induction false} SomeFirst(fs: seq<Field>, n: nat, key: Text) returns (i: nat)
    requires n < |fs| && Named(fs[n], key)
    ensures i <= n && FirstOf(fs, i, key)
  {
    hide Lower;
    if j :| 0 <= j < n && Named(fs[j], key) { i := SomeFirst(fs, j, key); } else { i := n; }
  }

  /** The headers of a block: of the fields with a value, compared without case, the first counts. */
  lemma HeaderMapMeans(fs: seq<Field>, key: Text)
    ensures key in HeaderMap(fs) <==> exists i :: 0 <= i < |fs| && FirstOf(fs, i, key)
    ensures forall i :: 0 <= i < |fs| && FirstOf(fs, i, key) ==> key in HeaderMap(fs) && HeaderMap(fs)[key] == fs[i].value
  {
    hide HeaderMap, Lower;
    forall i | 0 <= i < |fs| && FirstOf(fs, i, key) ensures key in HeaderMap(fs) && HeaderMap(fs)[key] == fs[i].value {
      FirstCounts(fs, i, key);
    }
    if key in HeaderMap(fs) {
      if forall i :: 0 <= i < |fs| ==> !Named(fs[i], key) {
        NoneNamed(fs, key);
      } else {
        var n :| 0 <= n < |fs| && Named(fs[n], key);
        var i := SomeFirst(fs, n, key);
      }
    }
  }

  // ---------------------------------------------------------------- content types

  /** A parameter of a Content-Type, its value quoted or not. */
  datatype Attribute = Attribute(name: Text, value: Text, quoted: bool)

  function AttributeText(p: Attribute): Text {
    p.name + [61] + if p.quoted then [34] + p.value + [34] else p.value
  }

  /** The text behind the first ';': a blank and the attribute, for each of them. */
  function Attributes(ps: seq<Attribute>): Text
    requires ps != []
  {
    var first := [SP] + AttributeText(ps[0]);
    if |ps| == 1 then first else first + [59] + Attributes(ps[1..])
  }

  /** No quote but behind a backslash, and no backslash without something behind it. */
  predicate Quotable(v: Text) {
    v == [] || (if v[0] == 92 then |v| >= 2 && Quotable(v[2..]) else v[0] != 34 && Quotable(v[1..]))
  }

  predicate AttributeName(name: Text) { name != [] && !IsSpace(name[0]) && 61 !in name }

  predicate Writable(p: Attribute) {
    AttributeName(p.name) && if p.quoted then Quotable(p.value) else p.value != [] && p.value[0] != 34 && 59 !in p.value
  }

  /** What is recorded: a quoted value as it stands, backslashes included, another one trimmed. */
  function Kept(p: Attribute): Text { if p.quoted then p.value else Trim(p.value) }

  function Noted(params: Headers, ps: seq<Attribute>): Headers
    decreases |ps|
  {
    if ps == [] then params
    else
      var key := Lower(ps[0].name);
      Noted(if key in params then params else params[key := Kept(ps[0])], ps[1..])
  }

  lemma {:induction false} ClosingBehind(front: Text, v: Text, rest: Text)
    requires Quotable(v)
    ensures ClosingQuote(front + v + [34] + rest, |front|) == |front + v|
    ensures ClosingQuote(front + v, |front|) < 0
    decreases |v|
  {
    var s, t := front + v + [34] + rest, front + v;
    if v != [] {
      var n := if v[0] == 92 then 2 else 1;
      assert s[|front|] == v[0] && t[|front|] == v[0];
      assert v == v[..n] + v[n..];
      assert s == (front + v[..n]) + v[n..] + [34] + rest && t == (front + v[..n]) + v[n..];
      ClosingBehind(front + v[..n], v[n..], rest);
    } else {
      assert s[|front|] == 34;
    }
  }

  function More(more: Option<Text>): Text { if more.Some? then [59] + more.value else [] }

  lemma ParamQuoted(s: Text, n: nat, end: nat)
    requires Find(s, [61]) == n && n + 2 <= |s| && s[n + 1] == 34 && ClosingQuote(s, n + 2) == end
    ensures ParseParam(s) == Some(Param(Lower(s[..n]), s[n + 2..end], AfterSemicolon(s[end..])))
  {
  }

  lemma BehindQuote(more: Option<Text>)
    ensures AfterSemicolon([34] + More(more)) == more
  {
    var t := [34] + More(more);
    if more.Some? {
      assert t == [34] + [59] + more.value;
      FindByte([34], 59, more.value);
      assert t[2..] == more.value;
    } else {
      assert t == [34];
      FindNoByte([34], 59);
    }
  }

  lemma QuotedSlices(name: Text, v: Text, rest: Text)
    ensures var s := name + [61, 34] + v + [34] + rest;
      && s == name + [61] + ([34] + v + [34] + rest)
      && s[|name| + 1] == 34 && s[..|name|] == name && s[|name| + 2..|name| + 2 + |v|] == v
      && s[|name| + 2 + |v|..] == [34] + rest
  {
  }

  lemma QuotedRead(p: Attribute, more: Option<Text>)
    requires Writable(p) && p.quoted
    ensures ParseParam(AttributeText(p) + More(more)) == Some(Param(Lower(p.name), Kept(p), more))
  {
    hide Lower, ClosingQuote, Quotable, ParseParam, Find, AfterSemicolon, More;
    var s, n := p.name + [61, 34] + p.value + [34] + More(more), |p.name|;
    assert AttributeText(p) + More(more) == s;
    QuotedSlices(p.name, p.value, More(more));
    FindByte(p.name, 61, [34] + p.value + [34] + More(more));
    ClosingBehind(p.name + [61, 34], p.value, More(more));
    ParamQuoted(s, n, n + 2 + |p.value|);
    BehindQuote(more);
  }

  lemma ParamPlain(s: Text, n: nat)
    requires Find(s, [61]) == n && n + 1 < |s| && s[n + 1] != 34
    ensures var semi := Find(s[n + 1..], [59]);
      ParseParam(s) == Some(Param(Lower(s[..n]), Trim(if semi < 0 then s[n + 1..] else s[n + 1..n + 1 + semi]),
                                  AfterSemicolon(s[n + 1..])))
  {
  }

  lemma BehindValue(v: Text, more: Option<Text>)
    requires 59 !in v
    ensures AfterSemicolon(v + More(more)) == more && Find(v + More(more), [59]) == (if more.Some? then |v| else -1)
    ensures more.None? ==> v + More(more) == v
  {
    var t := v + More(more);
    if more.Some? {
      assert t == v + [59] + more.value;
      FindByte(v, 59, more.value);
      assert t[|v| + 1..] == more.value;
    } else {
      assert t == v;
      FindNoByte(v, 59);
    }
  }

  lemma PlainRead(p: Attribute, more: Option<Text>)
    requires Writable(p) && !p.quoted
    ensures ParseParam(AttributeText(p) + More(more)) == Some(Param(Lower(p.name), Kept(p), more))
  {
    hide Lower, Trim, ParseParam, Find, AfterSemicolon, More;
    var s, n := AttributeText(p) + More(more), |p.name|;
    assert s == p.name + [61] + (p.value + More(more));
    FindByte(p.name, 61, p.value + More(more));
    assert s[..n] == p.name && s[n + 1..] == p.value + More(more) && s[n + 1] == p.value[0];
    BehindValue(p.value, more);
    ParamPlain(s, n);
    if more.Some? { assert s[n + 1..n + 1 + |p.value|] == p.value; }
  }

  lemma ParamsStep(s: Text, params: Headers, key: Text, value: Text, more: Option<Text>)
    requires s != [] && !IsSpace(s[0]) && ParseParam(s) == Some(Param(key, value, more))
    ensures var params' := if key in params then params else params[key := value];
      ParseParams([SP] + s, params) == if more.None? then Some(params') else ParseParams(more.value, params')
  {
    hide ParseParam;
    assert ([SP] + s)[1..] == s && TrimLeft(s) == s && TrimLeft([SP] + s) == s;
  }

  lemma {:induction false} AttributesRead(ps: seq<Attribute>, params: Headers)
    requires ps != [] && forall p :: p in ps ==> Writable(p)
    ensures ParseParams(Attributes(ps), params) == Some(Noted(params, ps))
    decreases |ps|
  {
    hide ParseParam, ParseParams, Lower, Kept, Quotable;
    var p := ps[0];
    assert p in ps;
    var more: Option<Text> := if |ps| == 1 then None else Some(Attributes(ps[1..]));
    var s := AttributeText(p) + More(more);
    if p.quoted { QuotedRead(p, more); } else { PlainRead(p, more); }
    assert Attributes(ps) == [SP] + s && s[0] == p.name[0];
    ParamsStep(s, params, Lower(p.name), Kept(p), more);
    if |ps| > 1 {
      assert forall q :: q in ps[1..] ==> q in ps;
      var key := Lower(p.name);
      AttributesRead(ps[1..], if key in params then params else params[key := Kept(p)]);
    }
  }

  predicate FirstNamed(ps: seq<Attribute>, i: nat, key: Text)
    requires i < |ps|
  {
    Lower(ps[i].name) == key && forall j :: 0 <= j < i ==> Lower(ps[j].name) != key
  }

  /** The first attribute of a name, compared without case, counts. */
  lemma {:induction false} NotedMeans(params: Headers, ps: seq<Attribute>, key: Text)
    ensures key in params ==> key in Noted(params, ps) && Noted(params, ps)[key] == params[key]
    ensures key !in params ==>
      (key in Noted(params, ps) <==> exists i :: 0 <= i < |ps| && Lower(ps[i].name) == key)
    ensures forall i :: key !in params && 0 <= i < |ps| && FirstNamed(ps, i, key) ==>
                          key in Noted(params, ps) && Noted(params, ps)[key] == Kept(ps[i])
    decreases |ps|
  {
    hide Lower;
    if ps != [] {
      var k := Lower(ps[0].name);
      var next := if k in params then params else params[k := Kept(ps[0])];
      NotedMeans(next, ps[1..], key);
      assert forall i :: 0 <= i < |ps| - 1 ==> ps[1..][i] == ps[i + 1];
      if key !in params {
        if k != key {
          assert key in Noted(next, ps[1..]) <==> exists i :: 0 <= i < |ps[1..]| && Lower(ps[1..][i].name) == key;
          if exists i :: 0 <= i < |ps| && Lower(ps[i].name) == key {
            var i :| 0 <= i < |ps| && Lower(ps[i].name) == key;
            assert Lower(ps[1..][i - 1].name) == key;
          }
        }
        forall i | 0 <= i < |ps| && FirstNamed(ps, i, key)
          ensures key in Noted(params, ps) && Noted(params, ps)[key] == Kept(ps[i])
        {
          if i > 0 {
            assert k != key;
            assert ps[1..][i - 1] == ps[i];
            forall j | 0 <= j < i - 1 ensures Lower(ps[1..][j].name) != key { assert ps[1..][j] == ps[j + 1]; }
            assert FirstNamed(ps[1..], i - 1, key);
          }
        }
      }
    }
  }

  /** For a Content-Type with a type, a subtype and attributes, in any case: "multipart" with a
      boundary opens a multipart with that boundary, "multipart" without one is an error, and
      anything else is a leaf. */
  lemma KindByType(main: Text, sub: Text, ps: seq<Attribute>)
    requires 59 !in main && 59 !in sub && 47 !in main && 47 !in sub
    requires ps != [] && forall p :: p in ps ==> Writable(p)
    ensures var k := ContentKind(main + [47] + sub + [59] + Attributes(ps));
      if Lower(main) != MULTIPART then k == KLeaf
      else if BOUNDARY !in Noted(map[], ps) then k == KError
      else k == KMulti(Noted(map[], ps)[BOUNDARY])
  {
    hide ParseParams, Split, Find, Attributes, Noted, Lower;
    TypeOf(main, sub, Attributes(ps));
    AttributesRead(ps, map[]);
  }

  /** A value in front of the ';' that is not `type/subtype` is an error. */
  lemma BadTypeIsError(value: Text, params: Text)
    requires 59 !in value
    requires 47 !in value || exists i, j :: 0 <= i < j < |value| && value[i] == value[j] == 47
    ensures ContentKind(value + [59] + params) == KError
  {
    hide ParseParams, Split;
    FindByte(value, 59, params);
    var v := value + [59] + params;
    assert v[..|value|] == value;
    if 47 !in value {
      NoSep(value, 47);
    } else {
      var i, j :| 0 <= i < j < |value| && value[i] == value[j] == 47;
      TwoSlashes(value, i, j);
    }
  }

  lemma TwoSlashes(value: Text, i: nat, j: nat)
    requires i < j < |value| && value[i] == value[j] == 47
    ensures |Split(value, 47)| >= 3
  {
    var p := FirstSlash(value, i);
    var rest := value[p + 1..];
    var q := FirstSlash(rest, j - p - 1);
    assert Split(rest, 47) == [rest[..q]] + Split(rest[q + 1..], 47);
    assert Split(value, 47) == [value[..p]] + Split(rest, 47);
  }

  lemma FirstSlash(value: Text, i: nat) returns (p: nat)
    requires i < |value| && value[i] == 47
    ensures Find(value, [47]) == p <= i
  {
    assert value[i..i + 1] == [47];
    assert Occurs(value, [47], i);
    p := Find(value, [47]);
  }

  lemma NoEquals(name: Text)
    requires AttributeName(name)
    ensures ParseParam(name).None? && ParseParam(name + [61]).None?
  {
    FindNoByte(name, 61);
    assert name + [61] + [] == name + [61];
    FindByte(name, 61, []);
  }

  lemma NoClosingQuote(name: Text, v: Text)
    requires AttributeName(name) && Quotable(v)
    ensures ParseParam(name + [61, 34] + v).None?
  {
    hide ClosingQuote;
    var s := name + [61, 34] + v;
    assert s == name + [61] + ([34] + v);
    FindByte(name, 61, [34] + v);
    ClosingBehind(name + [61, 34], v, []);
    assert s[|name| + 1] == 34;
  }

  /** A parameter without '=', without a value, or with a quote that is not closed is an error. */
  lemma BadParameterIsError(value: Text, name: Text, v: Text)
    requires 59 !in value && AttributeName(name) && Quotable(v)
    ensures ContentKind(value + [59] + ([SP] + name)) == KError
    ensures ContentKind(value + [59] + ([SP] + name + [61])) == KError
    ensures ContentKind(value + [59] + ([SP] + name + [61, 34] + v)) == KError
  {
    hide ParseParam, ContentKind, Quotable;
    NoEquals(name);
    NoClosingQuote(name, v);
    NoParams(value, name);
    NoParams(value, name + [61]);
    NoParams(value, name + [61, 34] + v);
    assert [SP] + name + [61] == [SP] + (name + [61]) && [SP] + name + [61, 34] + v == [SP] + (name + [61, 34] + v);
  }

  lemma NoParams(value: Text, s: Text)
    requires 59 !in value && s != [] && !IsSpace(s[0]) && ParseParam(s).None?
    ensures ContentKind(value + [59] + ([SP] + s)) == KError
  {
    hide Split, ParseParam;
    FindByte(value, 59, [SP] + s);
    var v := value + [59] + ([SP] + s);
    assert v[..|value|] == value && v[|value| + 1..] == [SP] + s;
    assert ([SP] + s)[1..] == s && TrimLeft(s) == s && TrimLeft([SP] + s) == s;
  }

  // ---------------------------------------------------------------- encodings

  predicate EncodingIs(h: Headers, name: Text) { TRANSFER_ENCODING in h && Lower(h[TRANSFER_ENCODING]) == name }

  /** What base64 or quoted-printable encoded comes back as it was, whatever the case in which the
      encoding is named. */
  lemma EncodedBodyKept(b64: Text -> Text, h: Headers, encoded: Text, x: Text)
    requires x != [] && encoded != []
    ensures EncodingIs(h, BASE64) && b64(encoded) == x ==> Decoded(b64, h, encoded) == Some(x)
    ensures EncodingIs(h, QP) && encoded == QuotedPrintable.Encode(x) ==> Decoded(b64, h, encoded) == Some(x)
  {
    Constants();
    assert |BASE64| == 6 && |QP| == 16;
    QuotedPrintable.RoundTrip(x);
  }

  /** A part whose data decodes to nothing stops the parser. */
  lemma EmptyBodyRefused(b64: Text -> Text, n: Node, data: Text, rest: Text)
    requires n.Multi? && n.cur.Some? && NoCr(n.boundary) && !Contains(data, Delim(n.boundary)) && data != []
    requires EncodingIs(n.cur.value.headers, BASE64) && b64(data) == []
    ensures BodyStage(b64, n, data + Delim(n.boundary) + rest).code.Error?
  {
    FindDelim(data, n.boundary, rest);
    assert (data + Delim(n.boundary) + rest)[..|data|] == data;
  }

  /** Headers that announce no part stop the parser where the block ends. */
  lemma BadTypeRefused(b64: Text -> Text, n: Node, buf: Text)
    requires n.Multi? && n.cur.None? && ParseHeader(n.partHeaders, buf).code.Ok?
    requires KindOf(ParseHeader(n.partHeaders, buf).headers).KError?
    ensures HeaderStage(b64, n, buf).code.Error?
  {
  }

  /** An error in a header block is the answer of the whole call. */
  lemma BadBlockRefused(b64: Text -> Text, n: Node, buf: Text)
    requires n.Multi? && n.cur.None?
    ensures var h := ParseHeader(n.partHeaders, buf).code; !h.Ok? ==> HeaderStage(b64, n, buf).code == h
  {
  }
}
