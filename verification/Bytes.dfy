/** Octets, text constants and the searching, splitting and trimming helpers that the
    codecs share (include/angel/buffer.h and include/angel/util.h). */
module Bytes {

  type byte = x: int | 0 <= x < 256

  const CR: byte := 13
  const LF: byte := 10
  const SP: byte := 32
  const HT: byte := 9
  const HYPHEN: byte := 45
  const CRLF: seq<byte> := [13, 10]

  datatype Option<+T> = None | Some(value: T)

  function Min(a: int, b: int): int { if a <= b then a else b }

  /** The octets of an ASCII literal. */
  function Ascii(s: string): (r: seq<byte>)
    requires forall i :: 0 <= i < |s| ==> s[i] < 128 as char
    ensures |r| == |s| && forall i :: 0 <= i < |s| ==> r[i] == s[i] as int
  {
    seq(|s|, i requires 0 <= i < |s| => s[i] as int)
  }

  /** `pat` stands in `s` at offset `i`. */
  predicate Occurs(s: seq<byte>, pat: seq<byte>, i: int) {
    0 <= i && i + |pat| <= |s| && s[i..i + |pat|] == pat
  }

  predicate Contains(s: seq<byte>, pat: seq<byte>) {
    exists i :: 0 <= i <= |s| && Occurs(s, pat, i)
  }

  function FindFrom(s: seq<byte>, pat: seq<byte>, i: nat): (r: int)
    ensures r < 0 ==> r == -1 && forall j :: i <= j ==> !Occurs(s, pat, j)
    ensures r >= 0 ==> i <= r && Occurs(s, pat, r) && forall j :: i <= j < r ==> !Occurs(s, pat, j)
    decreases |s| - i
  {
    if i + |pat| > |s| then -1
    else if s[i..i + |pat|] == pat then i
    else FindFrom(s, pat, i + 1)
  }

  /** `buffer::find`: offset of the first occurrence of a pattern, or -1. */
  function Find(s: seq<byte>, pat: seq<byte>): (r: int)
    ensures r < 0 ==> r == -1 && forall j :: !Occurs(s, pat, j)
    ensures r >= 0 ==> Occurs(s, pat, r) && forall j :: 0 <= j < r ==> !Occurs(s, pat, j)
  {
    FindFrom(s, pat, 0)
  }

  /** One differing octet rules out an occurrence. */
  lemma NotAt(s: seq<byte>, pat: seq<byte>, j: nat, m: nat)
    requires m < |pat| && j + m < |s| && s[j + m] != pat[m]
    ensures !Occurs(s, pat, j)
  {
    if j + |pat| <= |s| { assert s[j..j + |pat|][m] == s[j + m]; }
  }

  /** The first occurrence is unique. */
  lemma FindIs(s: seq<byte>, pat: seq<byte>, r: nat)
    requires Occurs(s, pat, r) && forall j :: 0 <= j < r ==> !Occurs(s, pat, j)
    ensures Find(s, pat) == r
  {
  }

  /** A match found in the bytes at hand is still the first match once more bytes arrive. */
  lemma FindStable(s: seq<byte>, more: seq<byte>, pat: seq<byte>)
    requires Find(s, pat) >= 0
    ensures Find(s + more, pat) == Find(s, pat)
  {
    var r := Find(s, pat);
    assert (s + more)[r..r + |pat|] == s[r..r + |pat|];
    forall j | 0 <= j < r ensures !Occurs(s + more, pat, j) {
      assert (s + more)[j..j + |pat|] == s[j..j + |pat|];
      assert !Occurs(s, pat, j);
    }
    FindIs(s + more, pat, r);
  }

  /** No match can end inside a proper prefix when the whole text has its first match later. */
  lemma FindInPrefix(s: seq<byte>, pat: seq<byte>, k: nat)
    requires k <= |s|
    requires Find(s, pat) >= 0
    ensures Find(s[..k], pat) == if Find(s, pat) + |pat| <= k then Find(s, pat) else -1
  {
    var r := Find(s, pat);
    assert s == s[..k] + s[k..];
    if r + |pat| <= k {
      assert s[..k][r..r + |pat|] == s[r..r + |pat|];
      assert Occurs(s[..k], pat, r);
    }
    if Find(s[..k], pat) >= 0 {
      FindStable(s[..k], s[k..], pat);
    }
  }

  predicate StartsWith(s: seq<byte>, prefix: seq<byte>) { prefix <= s }

  function LowerByte(b: byte): byte { if 65 <= b <= 90 then b + 32 else b }

  /** `util::to_lower`. */
  function Lower(s: seq<byte>): (r: seq<byte>)
    ensures |r| == |s|
  {
    seq(|s|, i requires 0 <= i < |s| => LowerByte(s[i]))
  }

  /** `isspace` in the C locale. */
  predicate IsSpace(b: byte) { b == 32 || 9 <= b <= 13 }

  function TrimLeft(s: seq<byte>): (r: seq<byte>)
    ensures |r| <= |s|
  {
    if s != [] && IsSpace(s[0]) then TrimLeft(s[1..]) else s
  }

  function TrimRight(s: seq<byte>): seq<byte> {
    if s != [] && IsSpace(s[|s| - 1]) then TrimRight(s[..|s| - 1]) else s
  }

  /** `util::trim`. */
  function Trim(s: seq<byte>): seq<byte> { TrimRight(TrimLeft(s)) }

  predicate Trimmed(s: seq<byte>) {
    s == [] || (!IsSpace(s[0]) && !IsSpace(s[|s| - 1]))
  }

  /** `util::split`: the pieces between separators, empty ones included. */
  function Split(s: seq<byte>, sep: byte): (r: seq<seq<byte>>)
    ensures |r| >= 1
    decreases |s|
  {
    var p := Find(s, [sep]);
    if p < 0 then [s] else [s[..p]] + Split(s[p + 1..], sep)
  }

  lemma NoSep(s: seq<byte>, sep: byte)
    requires sep !in s
    ensures Split(s, sep) == [s]
  {
    forall j | 0 <= j < |s| ensures !Occurs(s, [sep], j) {
      assert s[j] in s;
      NotAt(s, [sep], j, 0);
    }
  }

  lemma SplitHead(s: seq<byte>, sep: byte, rest: seq<byte>)
    requires sep !in s
    ensures Split(s + [sep] + rest, sep) == [s] + Split(rest, sep)
  {
    var t := s + [sep] + rest;
    assert Occurs(t, [sep], |s|);
    forall j | 0 <= j < |s| ensures !Occurs(t, [sep], j) {
      assert t[j] in s;
      NotAt(t, [sep], j, 0);
    }
    FindIs(t, [sep], |s|);
    assert t[..|s|] == s && t[|s| + 1..] == rest;
  }

  function Flatten<T>(ss: seq<seq<T>>): seq<T> {
    if ss == [] then [] else ss[0] + Flatten(ss[1..])
  }
}
