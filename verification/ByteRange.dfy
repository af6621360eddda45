/** Byte ranges of a file (src/httplib/httplib.cc:941-1164; sections 14.16, 14.35 and 19.2 of
    RFC 2616). What is handed to the connection is the history `out`. */
module ByteRange {
  import opened Bytes

  const LLONG_MAX := 0x7fff_ffff_ffff_ffff
  const COMMA: byte := 44
  const MINUS: byte := 45

  // ---------------------------------------------------------------- numbers

  predicate IsDigit(b: byte) { 48 <= b <= 57 }

  predicate AllDigits(s: seq<byte>) { forall i :: 0 <= i < |s| ==> IsDigit(s[i]) }

  function Value(s: seq<byte>): nat
    requires AllDigits(s)
  {
    if s == [] then 0 else Value(s[..|s| - 1]) * 10 + (s[|s| - 1] - 48)
  }

  /** `std::to_string` of a number that is not negative. */
  function Dec(n: nat): (s: seq<byte>)
    ensures s != [] && AllDigits(s)
  {
    if n < 10 then [48 + n] else Dec(n / 10) + [48 + n % 10]
  }

  /** `__byte_pos`: -1 for anything that is not a whole number in range. */
  function BytePos(s: seq<byte>): int {
    var negative := s != [] && s[0] == MINUS;
    var digits := if negative then s[1..] else s;
    if digits == [] || !AllDigits(digits) then -1
    else
      var v: int := Value(digits);
      if negative && v <= LLONG_MAX + 1 then -v
      else if !negative && v <= LLONG_MAX then v
      else -1
  }

  lemma DecValue(n: nat)
    ensures Value(Dec(n)) == n
  {
    if n >= 10 {
      DecValue(n / 10);
      var s := Dec(n / 10) + [48 + n % 10];
      assert s[..|s| - 1] == Dec(n / 10);
    }
  }

  /** Leading zeros are accepted. */
  lemma DigitsRead(d: seq<byte>)
    requires d != [] && AllDigits(d)
    ensures BytePos(d) == if Value(d) <= LLONG_MAX then Value(d) else -1
  {
    assert IsDigit(d[0]);
  }

  // ---------------------------------------------------------------- reading the header

  datatype Range = Range(first: int, last: int) {
    function Length(): int { last - first + 1 }
  }

  predicate Within(r: Range, filesize: int) { 0 <= r.first <= r.last < filesize }

  datatype Answer = Whole | NotSatisfiable | Partial(ranges: seq<Range>)

  /** `parse_byte_range_spec`. */
  function SpecRange(spec: seq<byte>, filesize: int): (r: Option<Range>)
    ensures r.Some? && filesize > 0 ==> Within(r.value, filesize)
  {
    var parts := Split(spec, MINUS);
    if |parts| != 2 then None
    else
      var first := BytePos(Trim(parts[0]));
      if first < 0 || first >= filesize then None
      else if parts[1] == [] then Some(Range(first, filesize - 1))
      else
        var last := BytePos(Trim(parts[1]));
        if last < 0 || last < first then None
        else Some(Range(first, if last >= filesize then filesize - 1 else last))
  }

  /** `parse_suffix_byte_range_spec`. */
  function SuffixRange(spec: seq<byte>, filesize: int): (r: Option<Range>)
    ensures r.Some? && filesize > 0 ==> Within(r.value, filesize)
  {
    var n := BytePos(spec);
    if n <= 0 then None else Some(Range(filesize - Min(n, filesize), filesize - 1))
  }

  /** One element of the list. */
  function OneRange(raw: seq<byte>, filesize: int): (r: Option<Range>)
    ensures r.Some? && filesize > 0 ==> Within(r.value, filesize)
  {
    var spec := Trim(raw);
    if |spec| < 2 then None
    else if spec[0] == MINUS then
      if IsDigit(spec[1]) then SuffixRange(spec[1..], filesize) else None
    else SpecRange(spec, filesize)
  }

  function AllRanges(specs: seq<seq<byte>>, filesize: int): (r: Option<seq<Range>>)
    ensures r.Some? ==> |r.value| == |specs|
    ensures r.Some? && filesize > 0 ==> forall i :: 0 <= i < |r.value| ==> Within(r.value[i], filesize)
  {
    if specs == [] then Some([])
    else
      var head, tail := OneRange(specs[0], filesize), AllRanges(specs[1..], filesize);
      if head.Some? && tail.Some? then Some([head.value] + tail.value) else None
  }

  function Unit(): seq<byte> { Ascii("bytes=") }

  function ParseRanges(header: seq<byte>, filesize: int): (a: Answer)
    ensures a.Partial? && filesize > 0 ==>
      a.ranges != [] && forall i :: 0 <= i < |a.ranges| ==> Within(a.ranges[i], filesize)
  {
    if !StartsWith(header, Unit()) || header == Unit() then Whole
    else match AllRanges(Split(header[6..], COMMA), filesize)
      case Some(ranges) => Partial(ranges)
      case None => NotSatisfiable
  }

  lemma RangesSnoc(specs: seq<seq<byte>>, x: seq<byte>, filesize: int)
    ensures AllRanges(specs + [x], filesize) ==
      if AllRanges(specs, filesize).Some? && OneRange(x, filesize).Some?
      then Some(AllRanges(specs, filesize).value + [OneRange(x, filesize).value]) else None
  {
    hide OneRange;
    if specs == [] {
      var one := [x];
      assert specs + [x] == one && one[1..] == specs;
      assert AllRanges(one[1..], filesize) == Some([]);
      if OneRange(x, filesize).Some? {
        assert [OneRange(x, filesize).value] + [] == [] + [OneRange(x, filesize).value];
      }
    } else {
      assert (specs + [x])[1..] == specs[1..] + [x];
      RangesSnoc(specs[1..], x, filesize);
      var h, t, r := OneRange(specs[0], filesize), AllRanges(specs[1..], filesize), OneRange(x, filesize);
      if h.Some? && t.Some? && r.Some? { assert [h.value] + (t.value + [r.value]) == [h.value] + t.value + [r.value]; }
    }
  }

  lemma RangesFail(specs: seq<seq<byte>>, k: nat, filesize: int)
    requires k < |specs| && OneRange(specs[k], filesize).None?
    ensures AllRanges(specs, filesize).None?
  {
    if k > 0 { RangesFail(specs[1..], k - 1, filesize); }
  }

  /** `parse_byte_ranges`. */
  method ParseByteRanges(header: seq<byte>, filesize: int) returns (a: Answer)
    ensures a == ParseRanges(header, filesize)
  {
    if !StartsWith(header, Unit()) { return Whole; }
    var range := header[6..];
    if range == [] { return Whole; }
    var specs := Split(range, COMMA);
    var ranges: seq<Range> := [];
    for i := 0 to |specs|
      invariant AllRanges(specs[..i], filesize) == Some(ranges)
    {
      var r := OneRange(specs[i], filesize);
      if r.None? {
        RangesFail(specs, i, filesize);
        return NotSatisfiable;
      }
      RangesSnoc(specs[..i], specs[i], filesize);
      assert specs[..i + 1] == specs[..i] + [specs[i]];
      ranges := ranges + [r.value];
    }
    assert specs[..|specs|] == specs;
    return Partial(ranges);
  }

  // ---------------------------------------------------------------- what was asked for

  /** The three forms of section 14.35.1 of RFC 2616. */
  datatype Spec = Between(first: nat, last: nat) | From(first: nat) | Suffix(length: nat)

  predicate InLimits(s: Spec) {
    match s
    case Between(a, b) => a <= LLONG_MAX && b <= LLONG_MAX
    case From(a) => a <= LLONG_MAX
    case Suffix(n) => n <= LLONG_MAX
  }

  /** A request as it may be written: digits, leading zeros included, with white space around the
      element and, except behind the '-' of a suffix, around its numbers. */
  datatype Written =
    | BetweenText(w0: seq<byte>, first: seq<byte>, w1: seq<byte>, w2: seq<byte>, last: seq<byte>, w3: seq<byte>)
    | FromText(w0: seq<byte>, first: seq<byte>, w1: seq<byte>, w2: seq<byte>)
    | SuffixText(w0: seq<byte>, length: seq<byte>, w1: seq<byte>)

  predicate Blank(w: seq<byte>) { forall i :: 0 <= i < |w| ==> IsSpace(w[i]) }

  predicate Number(d: seq<byte>) { d != [] && AllDigits(d) }

  predicate Legible(t: Written) {
    match t
    case BetweenText(w0, a, w1, w2, b, w3) => Blank(w0) && Number(a) && Blank(w1) && Blank(w2) && Number(b) && Blank(w3)
    case FromText(w0, a, w1, w2) => Blank(w0) && Number(a) && Blank(w1) && Blank(w2)
    case SuffixText(w0, n, w1) => Blank(w0) && Number(n) && Blank(w1)
  }

  function SpecOf(t: Written): Spec
    requires Legible(t)
  {
    match t
    case BetweenText(_, a, _, _, b, _) => Between(Value(a), Value(b))
    case FromText(_, a, _, _) => From(Value(a))
    case SuffixText(_, n, _) => Suffix(Value(n))
  }

  /** The element without the white space around it. */
  function Core(t: Written): seq<byte> {
    match t
    case BetweenText(_, a, w1, w2, b, _) => a + w1 + [MINUS] + (w2 + b)
    case FromText(_, a, w1, _) => a + w1 + [MINUS]
    case SuffixText(_, n, _) => [MINUS] + n
  }

  function TextOf(t: Written): seq<byte> {
    match t
    case BetweenText(w0, _, _, _, _, w3) => w0 + Core(t) + w3
    case FromText(w0, _, _, w2) => w0 + Core(t) + w2
    case SuffixText(w0, _, w1) => w0 + Core(t) + w1
  }

  /** The usual spelling. */
  function Canonical(s: Spec): Written {
    match s
    case Between(a, b) => BetweenText([], Dec(a), [], [], Dec(b), [])
    case From(a) => FromText([], Dec(a), [], [])
    case Suffix(n) => SuffixText([], Dec(n), [])
  }

  lemma CanonicalMeans(s: Spec)
    ensures Legible(Canonical(s)) && SpecOf(Canonical(s)) == s
  {
    match s
    case Between(a, b) => DecValue(a); DecValue(b);
    case From(a) => DecValue(a);
    case Suffix(n) => DecValue(n);
  }

  predicate Satisfiable(s: Spec, filesize: nat) {
    match s
    case Between(a, b) => a <= b && a < filesize
    case From(a) => a < filesize
    case Suffix(n) => n > 0
  }

  predicate Accepted(s: Spec, filesize: nat) { Satisfiable(s, filesize) && InLimits(s) }

  /** A byte position that the request selects. */
  predicate Selects(s: Spec, filesize: nat, i: int) {
    && 0 <= i < filesize
    && match s
       case Between(a, b) => a <= i <= b
       case From(a) => a <= i
       case Suffix(n) => filesize - n <= i
  }

  ghost predicate Picks(s: Spec, r: Range, filesize: nat) {
    forall i :: Selects(s, filesize, i) <==> r.first <= i <= r.last
  }

  lemma DigitsApart(s: seq<byte>)
    requires AllDigits(s)
    ensures MINUS !in s && COMMA !in s
  {
  }

  lemma TrimLeftBlank(w: seq<byte>, s: seq<byte>)
    requires Blank(w)
    ensures TrimLeft(w + s) == TrimLeft(s)
  {
    if w == [] {
      assert w + s == s;
    } else {
      assert (w + s)[0] == w[0] && (w + s)[1..] == w[1..] + s;
      TrimLeftBlank(w[1..], s);
    }
  }

  lemma TrimRightBlank(s: seq<byte>, w: seq<byte>)
    requires Blank(w)
    ensures TrimRight(s + w) == TrimRight(s)
  {
    if w == [] {
      assert s + w == s;
    } else {
      var t := s + w;
      assert t[|t| - 1] == w[|w| - 1] && t[..|t| - 1] == s + w[..|w| - 1];
      TrimRightBlank(s, w[..|w| - 1]);
    }
  }

  lemma TrimCore(w: seq<byte>, s: seq<byte>, v: seq<byte>)
    requires Blank(w) && Blank(v) && s != [] && !IsSpace(s[0]) && !IsSpace(s[|s| - 1])
    ensures Trim(w + s + v) == s
  {
    assert w + s + v == w + (s + v);
    TrimLeftBlank(w, s + v);
    assert TrimLeft(s + v) == s + v by { assert (s + v)[0] == s[0]; }
    TrimRightBlank(s, v);
  }

  lemma BlankApart(w: seq<byte>)
    requires Blank(w)
    ensures MINUS !in w && COMMA !in w
  {
  }

  lemma CoreTrims(t: Written)
    requires Legible(t)
    ensures Trim(TextOf(t)) == Core(t) && |Core(t)| >= 2 && (Core(t)[0] == MINUS <==> t.SuffixText?)
  {
    var core := Core(t);
    match t
    case BetweenText(w0, a, _, _, b, w3) =>
      assert core[0] == a[0] && core[|core| - 1] == b[|b| - 1];
      TrimCore(w0, core, w3);
    case FromText(w0, a, _, w2) =>
      assert core[0] == a[0] && core[|core| - 1] == MINUS;
      TrimCore(w0, core, w2);
    case SuffixText(w0, n, w1) =>
      assert core[0] == MINUS && core[|core| - 1] == n[|n| - 1];
      TrimCore(w0, core, w1);
  }

  lemma NumberTrims(w: seq<byte>, d: seq<byte>, v: seq<byte>)
    requires Blank(w) && Number(d) && Blank(v)
    ensures MINUS !in w + d + v
    ensures BytePos(Trim(w + d + v)) == if Value(d) <= LLONG_MAX then Value(d) else -1
  {
    hide BytePos, Trim;
    BlankApart(w);
    BlankApart(v);
    DigitsApart(d);
    assert IsDigit(d[0]) && IsDigit(d[|d| - 1]);
    TrimCore(w, d, v);
    DigitsRead(d);
  }

  lemma BetweenReads(t: Written, filesize: nat)
    requires t.BetweenText? && Legible(t)
    ensures OneRange(TextOf(t), filesize) == SpecRange(Core(t), filesize)
    ensures Split(Core(t), MINUS) == [t.first + t.w1, t.w2 + t.last] && t.w2 + t.last != []
    ensures BytePos(Trim(t.first + t.w1)) == (if Value(t.first) <= LLONG_MAX then Value(t.first) else -1)
    ensures BytePos(Trim(t.w2 + t.last)) == (if Value(t.last) <= LLONG_MAX then Value(t.last) else -1)
  {
    hide SpecRange, BytePos, Trim, Split;
    CoreTrims(t);
    NumberTrims([], t.first, t.w1);
    NumberTrims(t.w2, t.last, []);
    assert [] + t.first + t.w1 == t.first + t.w1 && t.w2 + t.last + [] == t.w2 + t.last;
    SplitHead(t.first + t.w1, MINUS, t.w2 + t.last);
    NoSep(t.w2 + t.last, MINUS);
  }

  lemma FromReads(t: Written, filesize: nat)
    requires t.FromText? && Legible(t)
    ensures OneRange(TextOf(t), filesize) == SpecRange(Core(t), filesize)
    ensures Split(Core(t), MINUS) == [t.first + t.w1, []]
    ensures BytePos(Trim(t.first + t.w1)) == if Value(t.first) <= LLONG_MAX then Value(t.first) else -1
  {
    hide SpecRange, BytePos, Trim, Split;
    CoreTrims(t);
    NumberTrims([], t.first, t.w1);
    assert [] + t.first + t.w1 == t.first + t.w1;
    SplitHead(t.first + t.w1, MINUS, []);
    assert t.first + t.w1 + [MINUS] + [] == Core(t);
    NoSep([], MINUS);
  }

  lemma SuffixReads(t: Written, filesize: nat)
    requires t.SuffixText? && Legible(t)
    ensures OneRange(TextOf(t), filesize) == SuffixRange(t.length, filesize)
    ensures BytePos(t.length) == if Value(t.length) <= LLONG_MAX then Value(t.length) else -1
  {
    hide BytePos, Trim;
    CoreTrims(t);
    DigitsRead(t.length);
    assert Core(t)[1..] == t.length && Core(t)[1] == t.length[0];
  }

  /** However it is spelled, a request is accepted if and only if it can be satisfied and its numbers
      are below 2^63, and then answered with exactly the bytes of the file it selects. */
  lemma {:induction false} SpecResolved(t: Written, filesize: nat)
    requires filesize > 0 && Legible(t)
    ensures OneRange(TextOf(t), filesize).Some? <==> Accepted(SpecOf(t), filesize)
    ensures Accepted(SpecOf(t), filesize) ==> Picks(SpecOf(t), OneRange(TextOf(t), filesize).value, filesize)
  {
    hide OneRange, Split, Trim, BytePos, TextOf, Core;
    match t
    case BetweenText(_, _, _, _, _, _) => BetweenReads(t, filesize);
    case FromText(_, _, _, _) => FromReads(t, filesize);
    case SuffixText(_, _, _) => SuffixReads(t, filesize);
  }

  function Texts(ts: seq<Written>): seq<seq<byte>> {
    if ts == [] then [] else [TextOf(ts[0])] + Texts(ts[1..])
  }

  predicate AllLegible(ts: seq<Written>) { forall k :: 0 <= k < |ts| ==> Legible(ts[k]) }

  function Specs(ts: seq<Written>): seq<Spec>
    requires AllLegible(ts)
  {
    seq(|ts|, k requires 0 <= k < |ts| => SpecOf(ts[k]))
  }

  function Listed(texts: seq<seq<byte>>): seq<byte>
    requires texts != []
  {
    if |texts| == 1 then texts[0] else texts[0] + [COMMA] + Listed(texts[1..])
  }

  lemma SplitListed(texts: seq<seq<byte>>)
    requires texts != [] && forall t :: t in texts ==> COMMA !in t
    ensures Split(Listed(texts), COMMA) == texts
  {
    if |texts| == 1 {
      NoSep(texts[0], COMMA);
    } else {
      SplitHead(texts[0], COMMA, Listed(texts[1..]));
      SplitListed(texts[1..]);
    }
  }

  lemma OneNoComma(t: Written)
    requires Legible(t)
    ensures COMMA !in TextOf(t)
  {
    match t
    case BetweenText(w0, a, w1, w2, b, w3) =>
      BlankApart(w0); DigitsApart(a); BlankApart(w1); BlankApart(w2); DigitsApart(b); BlankApart(w3);
    case FromText(w0, a, w1, w2) =>
      BlankApart(w0); DigitsApart(a); BlankApart(w1); BlankApart(w2);
    case SuffixText(w0, n, w1) =>
      BlankApart(w0); DigitsApart(n); BlankApart(w1);
  }

  lemma NoComma(ts: seq<Written>)
    requires AllLegible(ts)
    ensures forall x :: x in Texts(ts) ==> COMMA !in x
  {
    hide Legible, TextOf;
    if ts != [] {
      NoComma(ts[1..]);
      OneNoComma(ts[0]);
    }
  }

  predicate AllAccepted(ss: seq<Spec>, filesize: nat) {
    forall k :: 0 <= k < |ss| ==> Accepted(ss[k], filesize)
  }

  /** Range k is the selection of request k. */
  ghost predicate Selected(ss: seq<Spec>, ranges: seq<Range>, filesize: nat) {
    |ranges| == |ss| && forall k :: 0 <= k < |ss| ==> Picks(ss[k], ranges[k], filesize)
  }

  lemma {:induction false} AllResolved(ts: seq<Written>, filesize: nat)
    requires filesize > 0 && AllLegible(ts)
    ensures AllRanges(Texts(ts), filesize).Some? <==> AllAccepted(Specs(ts), filesize)
    ensures AllAccepted(Specs(ts), filesize) ==> Selected(Specs(ts), AllRanges(Texts(ts), filesize).value, filesize)
  {
    hide OneRange, TextOf, Accepted, Picks, Legible, SpecOf;
    if ts != [] {
      SpecResolved(ts[0], filesize);
      AllResolved(ts[1..], filesize);
      assert Texts(ts)[1..] == Texts(ts[1..]);
      var ss, rest := Specs(ts), Specs(ts[1..]);
      assert forall k :: 0 <= k < |rest| ==> rest[k] == ss[k + 1];
      if AllAccepted(rest, filesize) && Accepted(ss[0], filesize) {
        forall k | 0 <= k < |ss| ensures Accepted(ss[k], filesize) {
          if k > 0 { assert ss[k] == rest[k - 1]; }
        }
      } else if Accepted(ss[0], filesize) {
        var k :| 0 <= k < |rest| && !Accepted(rest[k], filesize);
        assert !Accepted(ss[k + 1], filesize);
      }
    }
  }

  /** For every list of requests in a Range header, however spelled, and every file that is not
      empty, the answer is 206 with the selected bytes of each request in order if each of them can
      be satisfied and has its numbers below 2^63, and 416 otherwise. */
  lemma RangesResolved(ts: seq<Written>, filesize: nat)
    requires ts != [] && filesize > 0 && AllLegible(ts)
    ensures var a := ParseRanges(Unit() + Listed(Texts(ts)), filesize);
      if AllAccepted(Specs(ts), filesize) then a.Partial? && Selected(Specs(ts), a.ranges, filesize)
      else a == NotSatisfiable
  {
    hide AllRanges, Split, Selected, AllAccepted, Texts, AllLegible, Specs;
    SomeTexts(ts);
    var texts := Texts(ts);
    NoComma(ts);
    SplitListed(texts);
    AllResolved(ts, filesize);
    assert (Unit() + Listed(texts))[6..] == Listed(texts);
  }

  lemma SomeTexts(ts: seq<Written>)
    requires ts != [] && AllLegible(ts)
    ensures Texts(ts) != [] && Listed(Texts(ts)) != []
  {
    var texts := Texts(ts);
    assert Legible(ts[0]) && texts[0] == TextOf(ts[0]) && |Core(ts[0])| > 0;
  }

  // ---------------------------------------------------------------- nothing else is accepted

  lemma TrimLeftParts(s: seq<byte>) returns (w: seq<byte>)
    ensures Blank(w) && s == w + TrimLeft(s)
  {
    w := [];
    if s != [] && IsSpace(s[0]) {
      var v := TrimLeftParts(s[1..]);
      w := [s[0]] + v;
      assert s == [s[0]] + s[1..];
    }
  }

  lemma TrimRightParts(s: seq<byte>) returns (w: seq<byte>)
    ensures Blank(w) && s == TrimRight(s) + w
  {
    w := [];
    if s != [] && IsSpace(s[|s| - 1]) {
      var v := TrimRightParts(s[..|s| - 1]);
      w := v + [s[|s| - 1]];
      assert s == s[..|s| - 1] + [s[|s| - 1]];
    }
  }

  lemma TrimParts(s: seq<byte>) returns (w: seq<byte>, v: seq<byte>)
    ensures Blank(w) && Blank(v) && s == w + Trim(s) + v
  {
    w := TrimLeftParts(s);
    v := TrimRightParts(TrimLeft(s));
    assert w + (Trim(s) + v) == w + Trim(s) + v;
  }

  lemma SplitJoins(s: seq<byte>, sep: byte)
    ensures sep == COMMA ==> Listed(Split(s, sep)) == s
    ensures |Split(s, sep)| == 2 ==>
      s == Split(s, sep)[0] + [sep] + Split(s, sep)[1] && sep !in Split(s, sep)[0] && sep !in Split(s, sep)[1]
    ensures |Split(s, sep)| == 1 ==> Split(s, sep) == [s] && sep !in s
    decreases |s|
  {
    var p := Find(s, [sep]);
    if p < 0 {
      forall k | 0 <= k < |s| ensures s[k] != sep { assert !Occurs(s, [sep], k); assert s[k..k + 1] == [s[k]]; }
    } else {
      assert s[p..p + 1] == [sep];
      assert s == s[..p] + [sep] + s[p + 1..];
      forall k | 0 <= k < p ensures s[..p][k] != sep { assert !Occurs(s, [sep], k); assert s[k..k + 1] == [s[k]]; }
      SplitJoins(s[p + 1..], sep);
    }
  }

  lemma PositionIsNumber(s: seq<byte>)
    requires BytePos(s) >= 0 && MINUS !in s
    ensures Number(s)
  {
  }

  lemma {:induction false} SpecIsWritten(raw: seq<byte>, filesize: nat) returns (t: Written)
    requires |Trim(raw)| >= 2 && Trim(raw)[0] != MINUS && SpecRange(Trim(raw), filesize).Some?
    ensures Legible(t) && TextOf(t) == raw
  {
    hide Trim, Split, BytePos;
    var spec := Trim(raw);
    var parts := Split(spec, MINUS);
    var w0, w3 := TrimParts(raw);
    SplitJoins(spec, MINUS);
    var u, w1 := TrimParts(parts[0]);
    var a := Trim(parts[0]);
    assert MINUS !in a by { InsideOf(parts[0], u, a, w1); }
    PositionIsNumber(a);
    assert u == [] by { NoBlankFront(raw, spec, parts[0], u, a, w1); }
    assert parts[0] == a + w1;
    if parts[1] == [] {
      t := FromText(w0, a, w1, w3);
      assert spec == a + w1 + [MINUS];
    } else {
      var w2, v := TrimParts(parts[1]);
      var b := Trim(parts[1]);
      assert MINUS !in b by { InsideOf(parts[1], w2, b, v); }
      PositionIsNumber(b);
      t := BetweenText(w0, a, w1, w2, b, v + w3);
      assert spec == a + w1 + [MINUS] + (w2 + b + v);
      assert raw == w0 + (a + w1 + [MINUS] + (w2 + b)) + (v + w3);
    }
  }

  lemma InsideOf(s: seq<byte>, u: seq<byte>, a: seq<byte>, v: seq<byte>)
    requires s == u + a + v && MINUS !in s
    ensures MINUS !in a
  {
    forall k | 0 <= k < |a| ensures a[k] != MINUS { assert s[|u| + k] == a[k]; }
  }

  lemma TrimmedFront(s: seq<byte>)
    ensures TrimLeft(s) != [] ==> !IsSpace(TrimLeft(s)[0])
    ensures TrimRight(s) <= s
  {
    if s != [] && IsSpace(s[0]) { TrimmedFront(s[1..]); }
    if s != [] && IsSpace(s[|s| - 1]) { TrimmedFront(s[..|s| - 1]); }
  }

  lemma TrimHead(s: seq<byte>)
    requires Trim(s) != []
    ensures !IsSpace(Trim(s)[0])
  {
    TrimmedFront(s);
    TrimmedFront(TrimLeft(s));
  }

  lemma NoBlankFront(raw: seq<byte>, spec: seq<byte>, part: seq<byte>, u: seq<byte>, a: seq<byte>, w: seq<byte>)
    requires spec == Trim(raw) && |spec| > 0 && part == u + a + w && part <= spec && a != [] && Blank(u)
    ensures u == []
  {
    assert u != [] ==> part[0] == u[0];
    assert spec[0] == part[0];
    TrimHead(raw);
  }

  /** Only legible elements are accepted. */
  lemma OnlyWritten(raw: seq<byte>, filesize: nat) returns (t: Written)
    requires filesize > 0 && OneRange(raw, filesize).Some?
    ensures Legible(t) && TextOf(t) == raw && Accepted(SpecOf(t), filesize)
  {
    hide Trim, Split, BytePos, SpecRange, Legible, SpecOf, TextOf;
    var spec := Trim(raw);
    if spec[0] == MINUS {
      var w0, w1 := TrimParts(raw);
      t := SuffixText(w0, spec[1..], w1);
      SuffixIsWritten(raw, spec, w0, w1, filesize);
    } else {
      t := SpecIsWritten(raw, filesize);
    }
    SpecResolved(t, filesize);
  }

  lemma SuffixIsWritten(raw: seq<byte>, spec: seq<byte>, w0: seq<byte>, w1: seq<byte>, filesize: nat)
    requires raw == w0 + spec + w1 && Blank(w0) && Blank(w1)
    requires |spec| >= 2 && spec[0] == MINUS && IsDigit(spec[1]) && SuffixRange(spec[1..], filesize).Some?
    ensures Legible(SuffixText(w0, spec[1..], w1)) && TextOf(SuffixText(w0, spec[1..], w1)) == raw
  {
    assert spec == [MINUS] + spec[1..];
  }

  lemma {:induction false} AllWritten(texts: seq<seq<byte>>, filesize: nat) returns (ts: seq<Written>)
    requires filesize > 0 && AllRanges(texts, filesize).Some?
    ensures AllLegible(ts) && Texts(ts) == texts
  {
    hide OneRange, Legible, TextOf;
    ts := [];
    if texts != [] {
      var t := OnlyWritten(texts[0], filesize);
      var rest := AllWritten(texts[1..], filesize);
      ts := [t] + rest;
      assert ts[1..] == rest;
    }
  }

  /** A header is answered with 206 only if it is a list of legible requests all of which can be
      satisfied; what the unit does not fit, and an empty list, is answered with the whole file. */
  lemma OnlyRequestsAnswered(header: seq<byte>, filesize: nat)
    requires filesize > 0
    ensures ParseRanges(header, filesize).Whole? <==> !StartsWith(header, Unit()) || header == Unit()
    ensures ParseRanges(header, filesize).Partial? ==> exists ts: seq<Written> ::
      AllLegible(ts) && ts != [] && header == Unit() + Listed(Texts(ts)) && AllAccepted(Specs(ts), filesize)
  {
    hide AllRanges, Split, AllAccepted, Texts, AllLegible, Specs;
    if ParseRanges(header, filesize).Partial? {
      var texts := Split(header[6..], COMMA);
      var ts := AllWritten(texts, filesize);
      SplitJoins(header[6..], COMMA);
      TextPerRequest(ts);
      AllResolved(ts, filesize);
      assert header == Unit() + header[6..];
    }
  }

  lemma TextPerRequest(ts: seq<Written>)
    ensures |Texts(ts)| == |ts|
  {
  }

  // ---------------------------------------------------------------- the response

  function ContentRange(r: Range, filesize: nat): seq<byte>
    requires Within(r, filesize)
  {
    Ascii("bytes ") + Dec(r.first) + [MINUS] + Dec(r.last) + Ascii("/") + Dec(filesize)
  }

  const SLASH: byte := 47

  /** Reading a Content-Range value: first and last position and the size of the whole. */
  function ReadContentRange(t: seq<byte>): Option<(nat, nat, nat)> {
    if !StartsWith(t, Ascii("bytes ")) then None
    else
      var halves := Split(t[6..], SLASH);
      var ends := Split(halves[0], MINUS);
      if |halves| == 2 && |ends| == 2 && Number(ends[0]) && Number(ends[1]) && Number(halves[1])
      then Some((Value(ends[0]), Value(ends[1]), Value(halves[1]))) else None
  }

  /** What a Content-Range says is the range and the size of the file. */
  lemma ContentRangeMeans(r: Range, filesize: nat)
    requires Within(r, filesize)
    ensures ReadContentRange(ContentRange(r, filesize)) == Some((r.first, r.last, filesize))
  {
    hide Split, Dec, Value;
    var t, a, b, n := ContentRange(r, filesize), Dec(r.first), Dec(r.last), Dec(filesize);
    assert t[6..] == (a + [MINUS] + b) + [SLASH] + n;
    NoSlash(a, b, n);
    SplitHead(a + [MINUS] + b, SLASH, n);
    NoSep(n, SLASH);
    DigitsApart(a);
    DigitsApart(b);
    SplitHead(a, MINUS, b);
    NoSep(b, MINUS);
    DecValue(r.first);
    DecValue(r.last);
    DecValue(filesize);
  }

  lemma NoSlash(a: seq<byte>, b: seq<byte>, n: seq<byte>)
    requires AllDigits(a) && AllDigits(b) && AllDigits(n)
    ensures SLASH !in a + [MINUS] + b && SLASH !in n
  {
  }

  function HeaderLine(field: seq<byte>, value: seq<byte>): seq<byte> { field + Ascii(": ") + value + CRLF }

  function ContentType(): seq<byte> { Ascii("Content-Type") }

  function ContentRangeField(): seq<byte> { Ascii("Content-Range") }

  predicate AllWithin(ranges: seq<Range>, filesize: nat) {
    forall i :: 0 <= i < |ranges| ==> Within(ranges[i], filesize)
  }

  /** One part of the multipart/byteranges body (section 19.2 of RFC 2616). */
  function PartText(r: Range, file: seq<byte>, mimeType: seq<byte>, boundary: seq<byte>): seq<byte>
    requires Within(r, |file|)
  {
    Ascii("--") + boundary + CRLF
    + HeaderLine(ContentType(), mimeType)
    + HeaderLine(ContentRangeField(), ContentRange(r, |file|))
    + CRLF + file[r.first..r.last + 1] + CRLF
  }

  function PartTexts(ranges: seq<Range>, file: seq<byte>, mimeType: seq<byte>, boundary: seq<byte>): seq<byte>
    requires AllWithin(ranges, |file|)
  {
    if ranges == [] then [] else PartText(ranges[0], file, mimeType, boundary) + PartTexts(ranges[1..], file, mimeType, boundary)
  }

  function Body(ranges: seq<Range>, file: seq<byte>, mimeType: seq<byte>, boundary: seq<byte>): seq<byte>
    requires AllWithin(ranges, |file|)
  {
    PartTexts(ranges, file, mimeType, boundary) + Ascii("--") + boundary + Ascii("--") + CRLF
  }

  lemma PartsSnoc(ranges: seq<Range>, r: Range, file: seq<byte>, mimeType: seq<byte>, boundary: seq<byte>)
    requires AllWithin(ranges, |file|) && Within(r, |file|)
    ensures AllWithin(ranges + [r], |file|)
    ensures PartTexts(ranges + [r], file, mimeType, boundary)
      == PartTexts(ranges, file, mimeType, boundary) + PartText(r, file, mimeType, boundary)
  {
    hide PartText;
    if ranges == [] {
      assert [r][1..] == [] && ranges + [r] == [r];
    } else {
      assert (ranges + [r])[1..] == ranges[1..] + [r];
      PartsSnoc(ranges[1..], r, file, mimeType, boundary);
    }
  }

  lemma NextPart(ranges: seq<Range>, i: nat, file: seq<byte>, mimeType: seq<byte>, boundary: seq<byte>)
    requires AllWithin(ranges, |file|) && i < |ranges|
    ensures AllWithin(ranges[..i], |file|) && AllWithin(ranges[..i + 1], |file|)
    ensures PartTexts(ranges[..i + 1], file, mimeType, boundary)
      == PartTexts(ranges[..i], file, mimeType, boundary) + PartText(ranges[i], file, mimeType, boundary)
  {
    PartsSnoc(ranges[..i], ranges[i], file, mimeType, boundary);
    assert ranges[..i + 1] == ranges[..i] + [ranges[i]];
  }

  lemma PartLength(r: Range, file: seq<byte>, mimeType: seq<byte>, boundary: seq<byte>)
    requires Within(r, |file|)
    ensures |PartText(r, file, mimeType, boundary)| ==
      2 + |boundary| + 2 + (|ContentType()| + 2 + |mimeType| + 2)
      + (|ContentRangeField()| + 2 + |ContentRange(r, |file|)| + 2) + 2 + (r.Length() + 2)
  {
    hide ContentRange, ContentType, ContentRangeField;
  }

  /** The Content-Length of `build_multipart_header` is the number of octets of the body. */
  method MultipartLength(ranges: seq<Range>, file: seq<byte>, mimeType: seq<byte>, boundary: seq<byte>) returns (len: nat)
    requires AllWithin(ranges, |file|)
    ensures len == |Body(ranges, file, mimeType, boundary)|
  {
    hide ContentRange, PartText, PartTexts;
    var crlf, sep := |CRLF|, |Ascii(": ")|;
    len := 0;
    NoParts(file, mimeType, boundary);
    assert ranges[..0] == [];
    for i := 0 to |ranges|
      invariant AllWithin(ranges[..i], |file|) && len == |PartTexts(ranges[..i], file, mimeType, boundary)|
    {
      NextPart(ranges, i, file, mimeType, boundary);
      PartLength(ranges[i], file, mimeType, boundary);
      len := len + 2 + |boundary| + crlf;
      len := len + |ContentType()| + sep + |mimeType| + crlf;
      len := len + |ContentRangeField()| + sep + |ContentRange(ranges[i], |file|)| + crlf;
      len := len + crlf;
      len := len + ranges[i].Length() + crlf;
    }
    assert ranges[..|ranges|] == ranges;
    len := len + 2 + |boundary| + 2 + crlf;
  }

  lemma NoParts(file: seq<byte>, mimeType: seq<byte>, boundary: seq<byte>)
    ensures AllWithin([], |file|) && PartTexts([], file, mimeType, boundary) == []
  {
  }

  lemma PartPieces(out: seq<byte>, r: Range, file: seq<byte>, mimeType: seq<byte>, boundary: seq<byte>)
    requires Within(r, |file|)
    ensures out
      + (Ascii("--") + boundary + CRLF + HeaderLine(ContentType(), mimeType)
         + HeaderLine(ContentRangeField(), ContentRange(r, |file|)) + CRLF)
      + file[r.first..r.last + 1] + CRLF
      == out + PartText(r, file, mimeType, boundary)
  {
    hide ContentRange, ContentType, ContentRangeField, HeaderLine;
  }

  /** The sends of `send_range_response` for several ranges, in order; the CRLF behind a range goes
      out with the text that follows it. */
  method SendRanges(ranges: seq<Range>, file: seq<byte>, mimeType: seq<byte>, boundary: seq<byte>) returns (out: seq<byte>)
    requires AllWithin(ranges, |file|)
    ensures out == Body(ranges, file, mimeType, boundary)
  {
    hide ContentRange, PartText, PartTexts, HeaderLine;
    var buf: seq<byte> := [];
    out := [];
    NoParts(file, mimeType, boundary);
    assert ranges[..0] == [];
    for i := 0 to |ranges|
      invariant AllWithin(ranges[..i], |file|)
      invariant out + buf == PartTexts(ranges[..i], file, mimeType, boundary)
    {
      var r := ranges[i];
      NextPart(ranges, i, file, mimeType, boundary);
      PartPieces(out + buf, r, file, mimeType, boundary);
      var head := Ascii("--") + boundary + CRLF + HeaderLine(ContentType(), mimeType)
        + HeaderLine(ContentRangeField(), ContentRange(r, |file|)) + CRLF;
      assert out + (buf + head) == out + buf + head;
      buf := buf + head;
      out := out + buf;
      out := out + file[r.first..r.last + 1];
      buf := CRLF;
    }
    assert ranges[..|ranges|] == ranges;
    var last := Ascii("--") + boundary + Ascii("--") + CRLF;
    assert out + (buf + last) == out + buf + Ascii("--") + boundary + Ascii("--") + CRLF;
    buf := buf + last;
    out := out + buf;
  }

  /** `send_range_response`: one range is sent as it is, several as multipart/byteranges. */
  method SendRangeResponse(ranges: seq<Range>, file: seq<byte>, mimeType: seq<byte>, boundary: seq<byte>)
    returns (contentRange: Option<seq<byte>>, contentLength: seq<byte>, out: seq<byte>)
    requires ranges != [] && AllWithin(ranges, |file|)
    ensures AllDigits(contentLength) && Value(contentLength) == |out|
    ensures |ranges| == 1 ==>
      && out == file[ranges[0].first..ranges[0].last + 1]
      && contentRange.Some? && ReadContentRange(contentRange.value) == Some((ranges[0].first, ranges[0].last, |file|))
    ensures |ranges| > 1 ==> contentRange.None? && out == Body(ranges, file, mimeType, boundary)
  {
    hide Body, ContentRange, ReadContentRange;
    if |ranges| == 1 {
      var r := ranges[0];
      ContentRangeMeans(r, |file|);
      DecValue(r.Length());
      contentRange, contentLength, out := Some(ContentRange(r, |file|)), Dec(r.Length()), file[r.first..r.last + 1];
    } else {
      var len := MultipartLength(ranges, file, mimeType, boundary);
      DecValue(len);
      contentRange, contentLength := None, Dec(len);
      out := SendRanges(ranges, file, mimeType, boundary);
    }
  }
}
