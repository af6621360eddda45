/** What the chunked parser makes of input that the sender never writes: other spellings of a chunk
    size, malformed chunks and trailers; and how much the sender holds back
    (src/httplib/httplib.cc:112-172, 440-477). */
module ChunkedInput {
  import opened Bytes
  import opened Chunked
  import opened ChunkedStream
  import MultipartParser
  import MultipartProof
  import MultipartSyntax
  import QuotedPrintable

  // ---------------------------------------------------------------- spellings of a size

  datatype Sign = NoSign | Plus | Minus

  datatype Prefix = NoPrefix | LowerX | UpperX

  /** White space, a sign, "0x" and hex digits in either case. */
  datatype Size = Size(blank: seq<byte>, sign: Sign, prefix: Prefix, digits: seq<byte>)

  predicate Legible(z: Size) {
    (forall i :: 0 <= i < |z.blank| ==> IsSpace(z.blank[i])) && z.digits != [] && IsHexText(z.digits)
  }

  function SignText(s: Sign): seq<byte> { match s case NoSign => [] case Plus => [43] case Minus => [45] }

  function PrefixText(p: Prefix): seq<byte> { match p case NoPrefix => [] case LowerX => [48, 120] case UpperX => [48, 88] }

  function Number(z: Size): seq<byte> { SignText(z.sign) + PrefixText(z.prefix) + z.digits }

  function TextOf(z: Size): seq<byte> { z.blank + Number(z) }

  function Clamped(z: Size): int
    requires Legible(z)
  {
    var v := HexNumber(z.digits);
    if z.sign.Minus? then -Min(v, LLONG_MAX + 1) else Min(v, LLONG_MAX)
  }

  lemma BlanksTrimmed(w: seq<byte>, s: seq<byte>)
    requires (forall i :: 0 <= i < |w| ==> IsSpace(w[i])) && s != [] && !IsSpace(s[0])
    ensures TrimLeft(w + s) == s
  {
    if w == [] {
      assert w + s == s;
    } else {
      assert (w + s)[0] == w[0] && (w + s)[1..] == w[1..] + s;
      BlanksTrimmed(w[1..], s);
    }
  }

  lemma NumberStarts(z: Size)
    requires Legible(z)
    ensures Number(z) != [] && !IsSpace(Number(z)[0])
  {
    assert QuotedPrintable.IsHex(z.digits[0]);
  }

  lemma DigitsEnd(front: seq<byte>, digits: seq<byte>)
    requires IsHexText(digits)
    ensures HexRun(front + digits, |front|) == |front + digits|
  {
    var s := front + digits;
    forall k | |front| <= k < |s| ensures QuotedPrintable.IsHex(s[k]) { assert s[k] == digits[k - |front|]; }
    HexRunAll(s, |front|);
  }

  lemma PrefixFound(z: Size)
    requires Legible(z)
    ensures var t, i := Number(z), |SignText(z.sign)|;
      && (t[0] == 45 || t[0] == 43 <==> !z.sign.NoSign?) && (t[0] == 45 <==> z.sign.Minus?)
      && (i + 2 < |t| && t[i] == 48 && (t[i + 1] == 120 || t[i + 1] == 88) && QuotedPrintable.IsHex(t[i + 2])
          <==> !z.prefix.NoPrefix?)
  {
    var t, i, n := Number(z), |SignText(z.sign)|, |PrefixText(z.prefix)|;
    assert QuotedPrintable.IsHex(z.digits[0]) && t[i + n] == z.digits[0];
    if |z.digits| > 1 { assert QuotedPrintable.IsHex(z.digits[1]) && t[i + n + 1] == z.digits[1]; }
  }

  /** However it is spelled, a size is read as its number, clamped to what fits in 64 bits. */
  lemma SizeMeans(z: Size)
    requires Legible(z)
    ensures FromHexStr(TextOf(z)) == Clamped(z)
  {
    hide HexRun, HexNumber, TrimLeft;
    var t, front := Number(z), SignText(z.sign) + PrefixText(z.prefix);
    NumberStarts(z);
    BlanksTrimmed(z.blank, t);
    assert t == front + z.digits;
    DigitsEnd(front, z.digits);
    assert t[|front|..] == z.digits == t[|front|..|t|];
    PrefixFound(z);
    assert |front| == (if z.sign.NoSign? then 0 else 1) + (if z.prefix.NoPrefix? then 0 else 2);
    hide Number, SignText, PrefixText;
    assert StrToLl(TextOf(z)) == (Clamped(z), |TextOf(z)|);
  }

  /** The characters that a size can be written with. */
  predicate SizeChar(c: byte) { IsSpace(c) || QuotedPrintable.IsHex(c) || c == 43 || c == 45 || c == 120 || c == 88 }

  lemma TrimmedAway(s: seq<byte>)
    ensures |TrimLeft(s)| <= |s| && s[|s| - |TrimLeft(s)|..] == TrimLeft(s)
    ensures forall i :: 0 <= i < |s| - |TrimLeft(s)| ==> IsSpace(s[i])
  {
    if s != [] && IsSpace(s[0]) {
      TrimmedAway(s[1..]);
      var n := |s| - |TrimLeft(s)|;
      assert s[1..][n - 1..] == s[n..];
      forall i | 0 <= i < n ensures IsSpace(s[i]) { if i > 0 { assert s[i] == s[1..][i - 1]; } }
    }
  }

  /** Nothing else is read as a size, except that an empty line counts as 0. */
  lemma {:induction false} OnlySizes(s: seq<byte>)
    requires s != [] && FromHexStr(s) != -1
    ensures forall i :: 0 <= i < |s| ==> SizeChar(s[i])
  {
    hide HexRun, HexNumber;
    var t := TrimLeft(s);
    var skip := |s| - |t|;
    TrimmedAway(s);
    var signed := t != [] && (t[0] == 45 || t[0] == 43);
    var i := if signed then 1 else 0;
    var prefixed := i + 2 < |t| && t[i] == 48 && (t[i + 1] == 120 || t[i + 1] == 88) && QuotedPrintable.IsHex(t[i + 2]);
    var from := if prefixed then i + 2 else i;
    var end := HexRun(t, from);
    assert end != from && skip + end == |s|;
    forall k | 0 <= k < |s| ensures SizeChar(s[k]) {
      if k >= skip {
        assert s[k] == t[k - skip];
        if k - skip >= from { assert t[from..end][k - skip - from] == t[k - skip]; }
      }
    }
  }

  /** A chunk line with any other character is refused: a chunk extension, for one, which section
      3.6.1 of RFC 2616 asks a receiver to ignore. */
  lemma BadSizeRefused(done: seq<byte>, line: seq<byte>, rest: seq<byte>, i: nat)
    requires CR !in line && |rest| >= 2 && i < |line| && !SizeChar(line[i])
    ensures Parse(Msg(done, -1, map[], true), line + CRLF + rest).code.BadRequest?
  {
    var s := line + CRLF + rest;
    MultipartProof.FindAfterNoCr(line, CRLF, rest);
    assert s[..|line|] == line;
    if FromHexStr(line) != -1 { OnlySizes(line); }
  }

  lemma ExtensionRefused(done: seq<byte>, n: nat, extension: seq<byte>, rest: seq<byte>)
    requires CR !in extension && |rest| >= 2
    ensures Parse(Msg(done, -1, map[], true), HexStr(n) + [59] + extension + CRLF + rest).code.BadRequest?
  {
    var line := HexStr(n) + [59] + extension;
    assert line[|HexStr(n)|] == 59;
    assert forall k :: 0 <= k < |HexStr(n)| ==> line[k] == HexStr(n)[k];
    BadSizeRefused(done, line, rest, |HexStr(n)|);
  }

  /** A negative size is refused. */
  lemma NegativeRefused(done: seq<byte>, z: Size, rest: seq<byte>)
    requires Legible(z) && z.sign.Minus? && HexNumber(z.digits) > 0 && |rest| >= 2
    requires CR !in z.blank
    ensures Parse(Msg(done, -1, map[], true), TextOf(z) + CRLF + rest).code.BadRequest?
  {
    hide FromHexStr, HexNumber;
    SizeMeans(z);
    NoCrInSize(z);
    var s := TextOf(z) + CRLF + rest;
    MultipartProof.FindAfterNoCr(TextOf(z), CRLF, rest);
    assert s[..|TextOf(z)|] == TextOf(z);
  }

  lemma NoCrInSize(z: Size)
    requires Legible(z) && CR !in z.blank
    ensures CR !in TextOf(z)
  {
    assert forall i :: 0 <= i < |z.digits| ==> z.digits[i] != CR;
  }

  // ---------------------------------------------------------------- malformed data

  /** Data of the announced length that is not followed by CRLF is refused. */
  lemma DataWithoutCrlf(m: Msg, data: seq<byte>, rest: seq<byte>)
    requires m.size == |data| > 0 && |rest| >= 2 && rest[..2] != CRLF
    ensures Parse(m, data + rest).code.BadRequest?
  {
    var s := data + rest;
    assert s[..|data|] == data && s[|data|..] == rest;
    assert rest[..2] == [rest[0], rest[1]];
  }

  // ---------------------------------------------------------------- trailers

  function TrailerText(fs: seq<MultipartSyntax.Field>): seq<byte> { MultipartSyntax.FieldsText(fs) + CRLF }

  function Finished(m: Msg, fs: seq<MultipartSyntax.Field>): Msg {
    m.(trailer := MultipartSyntax.HeaderMap(fs), size := -1, chunked := false)
  }

  /** The parser stands before field j of a trailer, with `n` octets of the rest in its buffer. */
  predicate InTrailer(m: Msg, fs: seq<MultipartSyntax.Field>, j: nat, buf: seq<byte>, left: seq<byte>, tail: seq<byte>) {
    && j <= |fs| && m.size == 0 && m.trailer == MultipartSyntax.HeaderMap(fs[..j])
    && buf + left == TrailerText(fs[j..]) + tail && |left| > |tail|
  }

  lemma TrailerCall(m: Msg, fs: seq<MultipartSyntax.Field>, j: nat, buf: seq<byte>, left: seq<byte>, tail: seq<byte>)
    returns (j': nat)
    requires MultipartProof.WfFields(fs) && j <= |fs| && m.size == 0
    requires m.trailer == MultipartSyntax.HeaderMap(fs[..j]) && buf + left == TrailerText(fs[j..]) + tail
    ensures var o := ParseTrailer(m, buf);
      if |left| <= |tail| then o == Out(Ok, Finished(m, fs), tail[..|tail| - |left|])
      else o.code.Continue? && o.msg == m.(trailer := o.msg.trailer) && InTrailer(o.msg, fs, j', o.buf, left, tail)
  {
    hide MultipartParser.ParseHeader, MultipartSyntax.FieldsText, MultipartSyntax.HeaderMap;
    var text := TrailerText(fs[j..]) + tail;
    assert text[..|buf|] == buf && text[|buf|..] == left;
    var k';
    j', k' := MultipartProof.FeedHeaderBlock(fs, j, tail, |buf|);
    var r := MultipartProof.HeaderAnswer(fs, j, tail, |buf|);
    assert r == MultipartParser.ParseHeader(m.trailer, buf);
    if |left| > |tail| {
      var block, block' := TrailerText(fs[j..]), TrailerText(fs[j'..]);
      assert block' == block'[..k'] + block'[k'..];
      assert block'[k'..] == block[|buf|..];
      assert left == block[|buf|..] + tail;
    }
  }

  lemma {:induction false} TrailerFrom(m: Msg, fs: seq<MultipartSyntax.Field>, j: nat, buf: seq<byte>, pieces: seq<seq<byte>>, tail: seq<byte>)
    requires MultipartProof.WfFields(fs) && InTrailer(m, fs, j, buf, Flatten(pieces), tail)
    ensures ParseAll(m, buf, pieces) == Out(Ok, Finished(m, fs), tail)
    decreases |pieces|
  {
    hide ParseTrailer, TrailerText, MultipartSyntax.HeaderMap;
    var b, left := buf + pieces[0], Flatten(pieces[1..]);
    assert buf + Flatten(pieces) == b + left;
    if b == [] {
      TrailerFrom(m, fs, j, b, pieces[1..], tail);
    } else {
      var j' := TrailerCall(m, fs, j, b, left, tail);
      var o := ParseTrailer(m, b);
      assert Parse(m, b) == o;
      if |left| > |tail| {
        TrailerFrom(o.msg, fs, j', o.buf, pieces[1..], tail);
      } else {
        TailJoins(TrailerText(fs[j..]), tail, b, left);
      }
    }
  }

  lemma TailJoins(text: seq<byte>, tail: seq<byte>, b: seq<byte>, left: seq<byte>)
    requires text + tail == b + left && |left| <= |tail|
    ensures tail[..|tail| - |left|] + left == tail
  {
    assert (text + tail)[|b|..] == left == tail[|tail| - |left|..];
  }

  /** Behind the last size line, a trailer is read in any pieces: its fields are recorded, the body
      is complete, and what follows the empty line is left. */
  lemma TrailerInAnyReads(m: Msg, fs: seq<MultipartSyntax.Field>, pieces: seq<seq<byte>>, tail: seq<byte>)
    requires MultipartProof.WfFields(fs) && m.size == 0 && m.trailer == map[]
    requires Flatten(pieces) == TrailerText(fs) + tail
    ensures ParseAll(m, [], pieces) == Out(Ok, Finished(m, fs), tail)
  {
    assert fs[0..] == fs && fs[..0] == [] && [] + Flatten(pieces) == Flatten(pieces);
    TrailerFrom(m, fs, 0, [], pieces, tail);
  }

  /** The last size line leads to the trailer. */
  lemma LastLineOpensTrailer(done: seq<byte>, fs: seq<MultipartSyntax.Field>, tail: seq<byte>)
    requires MultipartProof.WfFields(fs)
    ensures Parse(Msg(done, -1, map[], true), [48] + CRLF + TrailerText(fs) + tail)
      == Out(Ok, Msg(done, -1, MultipartSyntax.HeaderMap(fs), false), tail)
  {
    hide FromHexStr, HexStr, ParseTrailer, MultipartSyntax.HeaderMap, MultipartSyntax.FieldsText;
    var rest := TrailerText(fs) + tail;
    var s := [48] + CRLF + rest;
    assert s == [48] + CRLF + TrailerText(fs) + tail;
    MultipartProof.FindAfterNoCr([48], CRLF, rest);
    assert s[..1] == [48] && s[3..] == rest;
    SizeReadsBack(0);
    ZeroText();
    assert fs[0..] == fs && fs[..0] == [] && rest + [] == rest;
    EmptyMap();
    var j := TrailerCall(Msg(done, 0, map[], true), fs, 0, rest, [], tail);
    assert tail[..|tail|] == tail;
  }

  lemma ZeroText()
    ensures HexStr(0) == [48]
  {
  }

  lemma EmptyMap()
    ensures MultipartSyntax.HeaderMap([]) == map[]
  {
  }

  /** A malformed trailer is refused, and one in which a line without a ':' stands before another
      field breaks the parser. */
  lemma BadTrailerRefused(m: Msg, buf: seq<byte>)
    requires m.size == 0 && buf != []
    ensures Parse(m, buf).code.BadRequest? <==> MultipartParser.ParseHeader(m.trailer, buf).code.Error?
    ensures Parse(m, buf).code.Abnormal? <==> MultipartParser.ParseHeader(m.trailer, buf).code.Abnormal?
  {
  }

  // ---------------------------------------------------------------- sizes that do not fit

  function Pow16(k: nat): nat { if k == 0 then 1 else 16 * Pow16(k - 1) }

  lemma {:induction false} HexLength(n: nat, k: nat)
    requires k >= 1
    ensures |HexStr(n)| <= k <==> n < Pow16(k)
    decreases k
  {
    if k == 1 {
      assert Pow16(1) == 16 * Pow16(0) == 16;
    } else {
      SomePower(k - 1);
      if n >= 16 { HexLength(n / 16, k - 1); }
    }
  }

  lemma SomePower(k: nat)
    ensures Pow16(k) >= 1
  {
  }

  /** The size line of a chunk is written in full, line end included, exactly below 16 to the 13th;
      beyond that the buffer of the sender cuts it. */
  lemma LineCutExactly(n: nat)
    ensures SizeLine(n) == HexStr(n) + CRLF <==> n < Pow16(13)
    ensures |SizeLine(n)| <= 15
  {
    HexLength(n, 13);
  }

  // ---------------------------------------------------------------- what the sender holds back

  /** The text of one call. */
  function Added(s: Sender, head: seq<byte>, d: seq<byte>): seq<byte> { (if s.chunked then [] else head) + ChunkText(d) }

  /** Less than 4096 octets ever wait, and a call sends nothing as long as all that waits stays below
      that. */
  lemma SenderHoldsLittle(s: Sender, head: seq<byte>, d: seq<byte>)
    requires Tidy(s) && |s.buf| < BUFFERED_SIZE
    ensures |SendChunk(s, head, d).buf| < BUFFERED_SIZE
    ensures |s.buf| + |Added(s, head, d)| < BUFFERED_SIZE ==> SendChunk(s, head, d).sent == s.sent
    ensures |s.buf| + |Added(s, head, d)| >= BUFFERED_SIZE ==> |SendChunk(s, head, d).buf| <= 2
  {
    hide SizeLine;
  }
}
