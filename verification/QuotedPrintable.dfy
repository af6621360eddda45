/** The quoted-printable codec (src/mime/qp.cc and the hex helpers of include/angel/mime.h),
    after section 6.7 of RFC 2045. */
module QuotedPrintable {
  import opened Bytes

  const EQUALS: byte := 61
  const MAX_LINE := 76
  const SOFT_BREAK: seq<byte> := [61, 13, 10]

  /** `is_QPchar`. */
  predicate IsQpChar(c: byte) { 33 <= c <= 60 || 62 <= c <= 126 || c == SP || c == HT }

  function HexDigit(n: int): byte
    requires 0 <= n < 16
  {
    if n < 10 then 48 + n else 55 + n
  }

  /** `ishexnumber`. */
  predicate IsHex(c: byte) { 48 <= c <= 57 || 65 <= c <= 70 || 97 <= c <= 102 }

  /** `codec::to_hex_value` on a hex digit. */
  function HexValue(c: byte): (v: int)
    requires IsHex(c)
    ensures 0 <= v < 16
  {
    if c <= 57 then c - 48 else if c <= 70 then c - 55 else c - 87
  }

  /** `codec::to_hex_pair` with '='. */
  function HexPair(c: byte): seq<byte> { [EQUALS, HexDigit(c / 16), HexDigit(c % 16)] }

  /** `codec::from_hex_pair`. */
  function FromHexPair(c1: byte, c2: byte): byte
    requires IsHex(c1) && IsHex(c2)
  {
    16 * HexValue(c1) + HexValue(c2)
  }

  lemma HexRoundTrip(c: byte)
    ensures IsHex(HexDigit(c / 16)) && IsHex(HexDigit(c % 16))
    ensures FromHexPair(HexDigit(c / 16), HexDigit(c % 16)) == c
  {
  }

  // ---------------------------------------------------------------- encoding

  /** What the encoder appends in one turn of its loop. */
  datatype Atom = Lit(c: byte) | Hexed(c: byte) | Soft

  function AtomText(a: Atom): seq<byte> {
    match a
    case Lit(c) => [c]
    case Hexed(c) => HexPair(c)
    case Soft => SOFT_BREAK
  }

  function Render(atoms: seq<Atom>): seq<byte> {
    if atoms == [] then [] else AtomText(atoms[0]) + Render(atoms[1..])
  }

  /** One turn of the loop at a character, with `count` characters already on the line. */
  function Turn(c: byte, count: nat): Atom {
    if count + 1 <= MAX_LINE - 1 && IsQpChar(c) then Lit(c)
    else if count + 3 <= MAX_LINE - 1 then Hexed(c)
    else Soft
  }

  function Advance(a: Atom, count: nat): nat {
    match a case Lit(_) => count + 1 case Hexed(_) => count + 3 case Soft => 0
  }

  /** The turns of the loop from index `i`. A soft break repeats the same index, which is the
      `i--` of the source. */
  function Atoms(data: seq<byte>, i: nat, count: nat): seq<Atom>
    requires i <= |data|
    decreases |data| - i, count
  {
    if i == |data| then []
    else
      var a := Turn(data[i], count);
      [a] + Atoms(data, if a.Soft? then i else i + 1, Advance(a, count))
  }

  function Column(atoms: seq<Atom>, col: nat): nat {
    if atoms == [] then col else Column(atoms[1..], Advance(atoms[0], col))
  }

  predicate IsBlank(c: byte) { c == SP || c == HT }

  /** A space or tab that would end the output is written as a hex pair. */
  function FixEnd(atoms: seq<Atom>): seq<Atom> {
    if atoms != [] && atoms[|atoms| - 1].Lit? && IsBlank(atoms[|atoms| - 1].c) then
      atoms[..|atoms| - 1]
        + (if Column(atoms, 0) - 1 + 3 > MAX_LINE then [Soft] else [])
        + [Hexed(atoms[|atoms| - 1].c)]
    else atoms
  }

  function Encode(data: seq<byte>): seq<byte> { Render(FixEnd(Atoms(data, 0, 0))) }

  // ---------------------------------------------------------------- decoding

  /** `QP::decode`, malformed escapes included. */
  function Decode(s: seq<byte>): seq<byte> {
    if s == [] then []
    else if s[0] != EQUALS then [s[0]] + Decode(s[1..])
    else if |s| < 2 then []
    else if !IsHex(s[1]) && s[1] != CR then [EQUALS, s[1]] + Decode(s[2..])
    else if |s| < 3 then [EQUALS, s[1]]
    else if IsHex(s[1]) && IsHex(s[2]) then [FromHexPair(s[1], s[2])] + Decode(s[3..])
    else if s[1] == CR && s[2] == LF then Decode(s[3..])
    else [EQUALS, s[1]] + Decode(s[3..])
  }

  // ---------------------------------------------------------------- properties

  lemma RenderAppend(a: seq<Atom>, b: seq<Atom>)
    ensures Render(a + b) == Render(a) + Render(b)
  {
    if a == [] {
      assert a + b == b;
    } else {
      assert (a + b)[1..] == a[1..] + b;
      RenderAppend(a[1..], b);
    }
  }

  lemma RenderOne(a: Atom)
    ensures Render([a]) == AtomText(a)
  {
    assert [a][1..] == [];
  }

  lemma ColumnAppend(a: seq<Atom>, b: seq<Atom>, col: nat)
    ensures Column(a + b, col) == Column(b, Column(a, col))
    decreases |a|
  {
    if a == [] {
      assert a + b == b;
    } else {
      assert (a + b)[1..] == a[1..] + b;
      ColumnAppend(a[1..], b, Advance(a[0], col));
    }
  }

  function DataOf(atoms: seq<Atom>): seq<byte> {
    if atoms == [] then []
    else (if atoms[0].Soft? then [] else [atoms[0].c]) + DataOf(atoms[1..])
  }

  lemma DataOfAppend(a: seq<Atom>, b: seq<Atom>)
    ensures DataOf(a + b) == DataOf(a) + DataOf(b)
  {
    if a == [] {
      assert a + b == b;
    } else {
      assert (a + b)[1..] == a[1..] + b;
      DataOfAppend(a[1..], b);
    }
  }

  predicate Plain(atoms: seq<Atom>) { forall i :: 0 <= i < |atoms| && atoms[i].Lit? ==> IsQpChar(atoms[i].c) }

  /** The current line, of `col` characters so far, and every later one stay within the limit. */
  predicate Fits(atoms: seq<Atom>, col: nat) {
    if atoms == [] then col <= MAX_LINE
    else (atoms[0].Soft? ==> col + 1 <= MAX_LINE) && Fits(atoms[1..], Advance(atoms[0], col))
  }

  lemma {:induction false} AtomsFit(data: seq<byte>, i: nat, count: nat)
    requires i <= |data| && count <= MAX_LINE - 1
    ensures Fits(Atoms(data, i, count), count)
    ensures Column(Atoms(data, i, count), count) <= MAX_LINE - 1
    decreases |data| - i, count
  {
    if i < |data| {
      var a := Turn(data[i], count);
      AtomsFit(data, if a.Soft? then i else i + 1, Advance(a, count));
    }
  }

  lemma {:induction false} AtomsSound(data: seq<byte>, i: nat, count: nat)
    requires i <= |data| && count <= MAX_LINE - 1
    ensures var a := Atoms(data, i, count);
      DataOf(a) == data[i..] && Plain(a) && (i < |data| ==> a != [] && !a[|a| - 1].Soft?)
    decreases |data| - i, count
  {
    if i < |data| {
      var a := Turn(data[i], count);
      AtomsSound(data, if a.Soft? then i else i + 1, Advance(a, count));
    }
  }

  lemma FitsAppend(a: seq<Atom>, b: seq<Atom>, col: nat)
    ensures Fits(a + b, col) ==> Fits(b, Column(a, col))
    ensures Fits(a, col) && Fits(b, Column(a, col)) ==> Fits(a + b, col)
    decreases |a|
  {
    if a == [] {
      assert a + b == b;
    } else {
      assert (a + b)[1..] == a[1..] + b;
      FitsAppend(a[1..], b, Advance(a[0], col));
    }
  }

  lemma FitsPrefix(a: seq<Atom>, b: Atom, col: nat)
    requires Fits(a + [b], col)
    ensures Fits(a, col)
    decreases |a|
  {
    if a != [] {
      assert (a + [b])[1..] == a[1..] + [b];
      FitsPrefix(a[1..], b, Advance(a[0], col));
    }
  }

  lemma FitsHexed(c: byte, col: nat)
    requires col + 3 <= MAX_LINE
    ensures Fits([Hexed(c)], col)
  {
    assert [Hexed(c)][1..] == [];
  }

  lemma FixEndKeepsData(init: seq<Atom>, mid: seq<Atom>, c: byte)
    requires mid == [] || mid == [Soft]
    ensures DataOf(init + (mid + [Hexed(c)])) == DataOf(init + [Lit(c)])
  {
    DataOfAppend(init, [Lit(c)]);
    DataOfAppend(init, mid + [Hexed(c)]);
    DataOfAppend(mid, [Hexed(c)]);
    assert [Hexed(c)][1..] == [] && [Lit(c)][1..] == [];
    if mid == [Soft] { assert mid[1..] == []; }
  }

  lemma FixEndFits(init: seq<Atom>, mid: seq<Atom>, c: byte)
    requires Fits(init + [Lit(c)], 0) && Column(init, 0) <= MAX_LINE - 2
    requires if Column(init, 0) + 3 > MAX_LINE then mid == [Soft] else mid == []
    ensures Fits(init + (mid + [Hexed(c)]), 0)
  {
    FitsPrefix(init, Lit(c), 0);
    FitsHexed(c, if mid == [] then Column(init, 0) else 0);
    if mid == [] { assert mid + [Hexed(c)] == [Hexed(c)]; }
    else { assert (mid + [Hexed(c)])[1..] == [Hexed(c)]; }
    FitsAppend(init, mid + [Hexed(c)], 0);
  }

  /** The final correction keeps the data and the line limit, and ends the output visibly. */
  lemma FixEndSound(atoms: seq<Atom>)
    requires Plain(atoms) && Fits(atoms, 0) && Column(atoms, 0) <= MAX_LINE - 1
    requires atoms != [] ==> !atoms[|atoms| - 1].Soft?
    ensures var f := FixEnd(atoms);
      && DataOf(f) == DataOf(atoms) && Plain(f) && Fits(f, 0)
      && (f == [] || f[|f| - 1].Hexed? || (f[|f| - 1].Lit? && !IsBlank(f[|f| - 1].c)))
  {
    if FixEnd(atoms) != atoms {
      var init, c := atoms[..|atoms| - 1], atoms[|atoms| - 1].c;
      var mid := if Column(atoms, 0) - 1 + 3 > MAX_LINE then [Soft] else [];
      assert atoms == init + [Lit(c)];
      ColumnAppend(init, [Lit(c)], 0);
      ColumnOne(Lit(c), Column(init, 0));
      assert FixEnd(atoms) == init + (mid + [Hexed(c)]);
      FixEndFits(init, mid, c);
      FixEndKeepsData(init, mid, c);
    }
  }

  lemma {:induction false} DecodeRender(atoms: seq<Atom>)
    requires Plain(atoms)
    ensures Decode(Render(atoms)) == DataOf(atoms)
  {
    if atoms != [] {
      DecodeRender(atoms[1..]);
      var rest := Render(atoms[1..]);
      match atoms[0]
      case Lit(c) => assert ([c] + rest)[1..] == rest;
      case Hexed(c) => HexRoundTrip(c); assert (HexPair(c) + rest)[3..] == rest;
      case Soft => assert (SOFT_BREAK + rest)[3..] == rest;
    }
  }

  /** Every byte string survives encoding and decoding. */
  lemma RoundTrip(data: seq<byte>)
    ensures Decode(Encode(data)) == data
  {
    AtomsSound(data, 0, 0);
    AtomsFit(data, 0, 0);
    FixEndSound(Atoms(data, 0, 0));
    DecodeRender(FixEnd(Atoms(data, 0, 0)));
  }

  /** A line is broken only where at most three octets of it are left. */
  predicate BrokenLate(atoms: seq<Atom>, col: nat) {
    atoms == [] || ((atoms[0].Soft? ==> col >= MAX_LINE - 3) && BrokenLate(atoms[1..], Advance(atoms[0], col)))
  }

  lemma {:induction false} NoEarlyBreak(data: seq<byte>, i: nat, count: nat)
    requires i <= |data|
    ensures BrokenLate(Atoms(data, i, count), count)
    decreases |data| - i, count
  {
    if i < |data| {
      var a := Turn(data[i], count);
      NoEarlyBreak(data, if a.Soft? then i else i + 1, Advance(a, count));
      AtomsStep(data, i, count);
    }
  }

  predicate UpperHex(c: byte) { 48 <= c <= 57 || 65 <= c <= 70 }

  /** Printable octets, blanks, '=' with two upper case hex digits, and soft line breaks (section 6.7
      of RFC 2045). */
  predicate WellEscaped(s: seq<byte>) {
    if s == [] then true
    else if s[0] != EQUALS then IsQpChar(s[0]) && WellEscaped(s[1..])
    else
      && |s| >= 3 && (s[1..3] == CRLF || (UpperHex(s[1]) && UpperHex(s[2])))
      && WellEscaped(s[3..])
  }

  lemma {:induction false} RenderEscapes(atoms: seq<Atom>)
    requires Plain(atoms)
    ensures WellEscaped(Render(atoms))
  {
    if atoms != [] {
      RenderEscapes(atoms[1..]);
      var rest := Render(atoms[1..]);
      match atoms[0]
      case Lit(c) => assert ([c] + rest)[1..] == rest;
      case Hexed(c) => assert (HexPair(c) + rest)[3..] == rest;
      case Soft => assert (SOFT_BREAK + rest)[3..] == rest && (SOFT_BREAK + rest)[1..3] == CRLF;
    }
  }

  /** The encoder writes nothing but the grammar of the encoding, hex digits in upper case. */
  lemma OnlyEscapes(data: seq<byte>)
    ensures WellEscaped(Encode(data))
  {
    AtomsSound(data, 0, 0);
    AtomsFit(data, 0, 0);
    FixEndSound(Atoms(data, 0, 0));
    RenderEscapes(FixEnd(Atoms(data, 0, 0)));
  }

  lemma {:induction false} AllLiteral(data: seq<byte>, i: nat)
    requires i <= |data| <= MAX_LINE - 1 && forall k :: 0 <= k < |data| ==> IsQpChar(data[k])
    ensures Render(Atoms(data, i, i)) == data[i..]
    ensures i < |data| ==> var a := Atoms(data, i, i); a != [] && a[|a| - 1] == Lit(data[|data| - 1])
    decreases |data| - i
  {
    if i < |data| {
      AllLiteral(data, i + 1);
      assert Atoms(data, i, i) == [Lit(data[i])] + Atoms(data, i + 1, i + 1);
      assert ([Lit(data[i])] + Atoms(data, i + 1, i + 1))[1..] == Atoms(data, i + 1, i + 1);
      assert data[i..] == [data[i]] + data[i + 1..];
    }
  }

  /** A short line of printable octets stays as it is. */
  lemma PrintableUnchanged(data: seq<byte>)
    requires |data| <= MAX_LINE - 1 && forall k :: 0 <= k < |data| ==> IsQpChar(data[k])
    requires data != [] ==> !IsBlank(data[|data| - 1])
    ensures Encode(data) == data
  {
    AllLiteral(data, 0);
    if data == [] { assert Atoms(data, 0, 0) == []; }
  }

  /** Malformed escapes: what follows '=' and is neither a hex digit nor CR is kept with it, half an
      escape is kept as far as its first octet, and a lone '=' at the end is dropped. */
  lemma MalformedKept(c: byte, d: byte, rest: seq<byte>)
    ensures !IsHex(c) && c != CR ==> Decode([EQUALS, c] + rest) == [EQUALS, c] + Decode(rest)
    ensures (IsHex(c) && !IsHex(d)) || (c == CR && d != LF) ==> Decode([EQUALS, c, d] + rest) == [EQUALS, c] + Decode(rest)
    ensures IsHex(c) || c == CR ==> Decode([EQUALS, c]) == [EQUALS, c]
    ensures Decode([EQUALS]) == []
  {
    assert ([EQUALS, c] + rest)[2..] == rest && ([EQUALS, c, d] + rest)[3..] == rest;
    assert [EQUALS, c][2..] == [];
  }

  predicate LineOk(line: seq<byte>) {
    |line| <= MAX_LINE && (line != [] ==> !IsBlank(line[|line| - 1]))
  }

  /** Reading on from `line`, every CRLF-separated line of `s` is within the limit and does not
      end in a space or tab. */
  predicate Folded(s: seq<byte>, line: seq<byte>)
    decreases |s|
  {
    if s == [] then LineOk(line)
    else if StartsWith(s, CRLF) then LineOk(line) && Folded(s[2..], [])
    else Folded(s[1..], line + [s[0]])
  }

  lemma FoldChar(c: byte, rest: seq<byte>, line: seq<byte>)
    requires c != CR
    ensures Folded([c] + rest, line) == Folded(rest, line + [c])
  {
    assert ([c] + rest)[1..] == rest;
  }

  lemma FoldBreak(rest: seq<byte>, line: seq<byte>)
    ensures Folded(SOFT_BREAK + rest, line) == (|line| + 1 <= MAX_LINE && Folded(rest, []))
  {
    assert SOFT_BREAK + rest == [EQUALS] + (CRLF + rest);
    FoldChar(EQUALS, CRLF + rest, line);
    assert (CRLF + rest)[2..] == rest;
  }

  lemma {:induction false} RenderFolds(atoms: seq<Atom>, line: seq<byte>)
    requires Plain(atoms) && Fits(atoms, |line|)
    requires if atoms == [] then line == [] || !IsBlank(line[|line| - 1])
             else var z := atoms[|atoms| - 1]; z.Hexed? || (z.Lit? && !IsBlank(z.c))
    ensures Folded(Render(atoms), line)
    decreases |atoms|
  {
    if atoms != [] {
      var rest := Render(atoms[1..]);
      match atoms[0]
      case Lit(c) =>
        RenderFolds(atoms[1..], line + [c]);
        FoldChar(c, rest, line);
      case Hexed(c) =>
        HexRoundTrip(c);
        var d1, d2 := HexDigit(c / 16), HexDigit(c % 16);
        RenderFolds(atoms[1..], line + [EQUALS] + [d1] + [d2]);
        assert HexPair(c) + rest == [EQUALS] + ([d1] + ([d2] + rest));
        FoldChar(EQUALS, [d1] + ([d2] + rest), line);
        FoldChar(d1, [d2] + rest, line + [EQUALS]);
        FoldChar(d2, rest, line + [EQUALS] + [d1]);
      case Soft =>
        RenderFolds(atoms[1..], []);
        FoldBreak(rest, line);
    }
  }

  /** Every output line has at most 76 characters and never ends in a space or tab. */
  lemma LinesFolded(data: seq<byte>)
    ensures Folded(Encode(data), [])
  {
    AtomsSound(data, 0, 0);
    AtomsFit(data, 0, 0);
    FixEndSound(Atoms(data, 0, 0));
    RenderFolds(FixEnd(Atoms(data, 0, 0)), []);
  }

  predicate EscapeAt(s: seq<byte>, i: nat) { i + 1 < |s| && (IsHex(s[i + 1]) || s[i + 1] == CR) }

  predicate AllEscaped(s: seq<byte>) {
    forall i :: 0 <= i < |s| && s[i] == EQUALS ==> EscapeAt(s, i)
  }

  lemma {:induction false} EqualsFollowed(atoms: seq<Atom>)
    requires Plain(atoms)
    ensures AllEscaped(Render(atoms))
  {
    if atoms != [] {
      EqualsFollowed(atoms[1..]);
      var s, rest, t := Render(atoms), Render(atoms[1..]), AtomText(atoms[0]);
      if !atoms[0].Soft? { HexRoundTrip(atoms[0].c); }
      assert s == t + rest && t[|t| - 1] != EQUALS;
      forall i | 0 <= i < |s| && s[i] == EQUALS ensures EscapeAt(s, i) {
        if i >= |t| {
          assert s[i] == rest[i - |t|];
          assert EscapeAt(rest, i - |t|);
        } else if i + 1 < |t| {
          assert s[i + 1] == t[i + 1];
        }
      }
    }
  }

  /** "=_" cannot occur in the output, so neither can a generated boundary. */
  lemma NoBoundaryInside(data: seq<byte>, i: int)
    ensures !Occurs(Encode(data), [EQUALS, 95], i)
  {
    hide Render, Column, Atoms, FixEnd, Fits;
    var s := Encode(data);
    NoAtoms(data, 0);
    AtomsSound(data, 0, 0);
    AtomsFit(data, 0, 0);
    FixEndSound(Atoms(data, 0, 0));
    EqualsFollowed(FixEnd(Atoms(data, 0, 0)));
    if 0 <= i < |s| - 1 {
      assert s[i..i + 2][0] == s[i] && s[i..i + 2][1] == s[i + 1];
      assert s[i] == EQUALS ==> EscapeAt(s, i);
    }
  }

  // ---------------------------------------------------------------- the loops

  lemma TurnAppends(data: seq<byte>, i: nat, count: nat, atoms: seq<Atom>)
    requires i < |data|
    ensures var a := Turn(data[i], count);
      && Render(atoms + [a]) == Render(atoms) + AtomText(a)
      && Column(atoms + [a], 0) == Advance(a, Column(atoms, 0))
      && (atoms + [a]) + Atoms(data, if a.Soft? then i else i + 1, Advance(a, count))
         == atoms + Atoms(data, i, count)
  {
    hide Render, Column, Atoms, Turn, Advance, AtomText;
    var a := Turn(data[i], count);
    AtomsStep(data, i, count);
    RenderAppend(atoms, [a]);
    RenderOne(a);
    ColumnAppend(atoms, [a], 0);
    ColumnOne(a, Column(atoms, 0));
    var rest := Atoms(data, if a.Soft? then i else i + 1, Advance(a, count));
    assert (atoms + [a]) + rest == atoms + ([a] + rest);
  }

  lemma AtomsStep(data: seq<byte>, i: nat, count: nat)
    requires i < |data|
    ensures var a := Turn(data[i], count);
      Atoms(data, i, count) == [a] + Atoms(data, if a.Soft? then i else i + 1, Advance(a, count))
  {
  }

  lemma NoAtoms(data: seq<byte>, count: nat)
    ensures Atoms(data, |data|, count) == [] && Render([]) == [] && Column([], 0) == 0
    ensures data == [] ==> Encode(data) == []
  {
  }

  lemma ColumnOne(a: Atom, col: nat)
    ensures Column([a], col) == Advance(a, col)
  {
    assert [a][1..] == [];
  }

  /** `QP::encode` as written: one index that a soft break rewinds. */
  method EncodeLoop(data: seq<byte>) returns (res: seq<byte>)
    ensures res == Encode(data)
  {
    hide Render, Column, Atoms;
    res := [];
    NoAtoms(data, 0);
    if data == [] { return; }
    var count, i := 0, 0;
    ghost var atoms: seq<Atom> := [];
    while i < |data|
      invariant 0 <= i <= |data| && 0 <= count <= MAX_LINE - 1
      invariant res == Render(atoms) && count == Column(atoms, 0)
      invariant atoms + Atoms(data, i, count) == Atoms(data, 0, 0)
      decreases |data| - i, count
    {
      var c := data[i];
      ghost var a := Turn(c, count);
      TurnAppends(data, i, count, atoms);
      if count + 1 <= MAX_LINE - 1 && IsQpChar(c) {
        res := res + [c];
        count := count + 1;
        i := i + 1;
      } else if count + 3 <= MAX_LINE - 1 {
        res := res + HexPair(c);
        count := count + 3;
        i := i + 1;
      } else {
        res := res + SOFT_BREAK;
        count := 0;
      }
      atoms := atoms + [a];
    }
    NoAtoms(data, count);
    AtomsSound(data, 0, 0);
    assert atoms == Atoms(data, 0, 0);
    res := EndLine(res, count, atoms);
  }

  /** The tail of `QP::encode`: a final blank becomes a hex pair, on a new line if need be. */
  method EndLine(text: seq<byte>, count: nat, ghost atoms: seq<Atom>) returns (res: seq<byte>)
    requires atoms != [] && !atoms[|atoms| - 1].Soft?
    requires text == Render(atoms) && count == Column(atoms, 0)
    ensures res == Render(FixEnd(atoms))
  {
    hide Render, Column;
    res := text;
    var z := LastOf(res, atoms);
    if IsBlank(z) {
      ghost var init := atoms[..|atoms| - 1];
      assert atoms == init + [Lit(z)];
      RenderAppend(init, [Lit(z)]);
      RenderOne(Lit(z));
      RenderOne(Hexed(z));
      RenderOne(Soft);
      res := res[..|res| - 1];
      assert res == Render(init);
      if count - 1 + 3 > MAX_LINE {
        res := res + SOFT_BREAK;
        RenderAppend(init, [Soft]);
        RenderAppend(init + [Soft], [Hexed(z)]);
      } else {
        RenderAppend(init, [Hexed(z)]);
        assert init + [] == init;
      }
      res := res + HexPair(z);
    }
  }

  /** `res.back()`, which is blank only when the last atom is a literal blank. */
  method LastOf(res: seq<byte>, ghost atoms: seq<Atom>) returns (z: byte)
    requires atoms != [] && !atoms[|atoms| - 1].Soft? && res == Render(atoms)
    ensures res != [] && z == res[|res| - 1]
    ensures IsBlank(z) <==> atoms[|atoms| - 1].Lit? && IsBlank(atoms[|atoms| - 1].c)
    ensures IsBlank(z) ==> atoms[|atoms| - 1].c == z
  {
    ghost var init, a := atoms[..|atoms| - 1], atoms[|atoms| - 1];
    assert atoms == init + [a];
    RenderAppend(init, [a]);
    RenderOne(a);
    HexRoundTrip(a.c);
    z := res[|res| - 1];
  }

  /** The outcome of one turn of the decoding loop: octets appended and input consumed. */
  function DecodeTurn(s: seq<byte>): (r: (seq<byte>, nat))
    requires s != []
    ensures 0 < r.1 <= |s|
  {
    if s[0] != EQUALS then ([s[0]], 1)
    else if |s| < 2 then ([], 1)
    else if !IsHex(s[1]) && s[1] != CR then ([EQUALS, s[1]], 2)
    else if |s| < 3 then ([EQUALS, s[1]], 2)
    else if IsHex(s[1]) && IsHex(s[2]) then ([FromHexPair(s[1], s[2])], 3)
    else if s[1] == CR && s[2] == LF then ([], 3)
    else ([EQUALS, s[1]], 3)
  }

  lemma DecodeByTurns(s: seq<byte>)
    requires s != []
    ensures Decode(s) == DecodeTurn(s).0 + Decode(s[DecodeTurn(s).1..])
  {
  }

  lemma DecodeResumes(data: seq<byte>, i: nat, res: seq<byte>)
    requires i < |data| && res + Decode(data[i..]) == Decode(data)
    ensures var (out, n) := DecodeTurn(data[i..]);
      (res + out) + Decode(data[i + n..]) == Decode(data)
  {
    hide Decode, DecodeTurn;
    var s := data[i..];
    var (out, n) := DecodeTurn(s);
    DecodeByTurns(s);
    assert s[n..] == data[i + n..];
    assert (res + out) + Decode(s[n..]) == res + (out + Decode(s[n..]));
  }

  method DecodeLoop(data: seq<byte>) returns (res: seq<byte>)
    ensures res == Decode(data)
  {
    res := [];
    var i, len := 0, |data|;
    while i < len
      invariant 0 <= i <= len
      invariant res + Decode(data[i..]) == Decode(data)
    {
      DecodeResumes(data, i, res);
      var c := data[i];
      i := i + 1;
      if c != EQUALS {
        res := res + [c];
        continue;
      }
      if i >= len { return; }
      var c1 := data[i];
      i := i + 1;
      if !IsHex(c1) && c1 != CR {
        res := res + [EQUALS, c1];
        continue;
      }
      if i >= len {
        res := res + [EQUALS, c1];
        return;
      }
      var c2 := data[i];
      i := i + 1;
      if IsHex(c1) {
        if IsHex(c2) {
          res := res + [FromHexPair(c1, c2)];
          continue;
        }
      } else if c2 == LF {
        continue;
      }
      res := res + [EQUALS, c1];
    }
  }
}
