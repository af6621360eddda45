/** HTTP chunked transfer coding (src/httplib/httplib.cc), after section 3.6.1 of RFC 2616. */
module Chunked {
  import opened Bytes
  import MultipartSyntax
  import MultipartParser
  import QuotedPrintable

  // ---------------------------------------------------------------- chunk sizes

  /** "%zx". */
  function HexStr(n: nat): (s: seq<byte>)
    ensures s != [] && forall i :: 0 <= i < |s| ==> QuotedPrintable.IsHex(s[i])
  {
    if n < 16 then [HexChar(n)] else HexStr(n / 16) + [HexChar(n % 16)]
  }

  function HexChar(d: nat): (c: byte)
    requires d < 16
    ensures QuotedPrintable.IsHex(c) && QuotedPrintable.HexValue(c) == d
  {
    if d < 10 then 48 + d else 87 + d
  }

  predicate IsHexText(s: seq<byte>) { forall i :: 0 <= i < |s| ==> QuotedPrintable.IsHex(s[i]) }

  function HexNumber(s: seq<byte>): nat
    requires IsHexText(s)
  {
    if s == [] then 0 else 16 * HexNumber(s[..|s| - 1]) + QuotedPrintable.HexValue(s[|s| - 1])
  }

  lemma {:induction false} HexRoundTrip(n: nat)
    ensures HexNumber(HexStr(n)) == n
  {
    if n >= 16 {
      HexRoundTrip(n / 16);
      assert HexStr(n)[..|HexStr(n)| - 1] == HexStr(n / 16);
    } else {
      assert HexStr(n)[..0] == [];
      assert HexNumber([]) == 0;
    }
  }

  /** End of the run of hex digits that starts at `i`. */
  function HexRun(s: seq<byte>, i: nat): (j: nat)
    requires i <= |s|
    ensures i <= j <= |s| && IsHexText(s[i..j])
    ensures j < |s| ==> !QuotedPrintable.IsHex(s[j])
    decreases |s| - i
  {
    if i < |s| && QuotedPrintable.IsHex(s[i]) then
      var j := HexRun(s, i + 1);
      assert forall k :: i < k < j ==> s[k] == s[i + 1..j][k - i - 1];
      j
    else i
  }

  const LLONG_MAX := 0x7FFF_FFFF_FFFF_FFFF

  /** `strtoll(s, &end, 16)`: value and end. Leading white space, a sign and a 0x prefix are
      accepted, and values out of range are clamped. */
  function StrToLl(s: seq<byte>): (int, nat) {
    var t := TrimLeft(s);
    var skip := |s| - |t|;
    var signed := t != [] && (t[0] == 45 || t[0] == 43);
    var negative := t != [] && t[0] == 45;
    var i := if signed then 1 else 0;
    var prefixed := i + 2 < |t| && t[i] == 48 && (t[i + 1] == 120 || t[i + 1] == 88)
                    && QuotedPrintable.IsHex(t[i + 2]);
    var from := if prefixed then i + 2 else i;
    var end := HexRun(t, from);
    if end == from then (0, 0)
    else
      var v := HexNumber(t[from..end]);
      (if negative then -Min(v, LLONG_MAX + 1) else Min(v, LLONG_MAX), skip + end)
  }

  /** `from_hex_str`: -1 unless the whole line was converted. An empty line counts as 0. */
  function FromHexStr(s: seq<byte>): int {
    var (v, end) := StrToLl(s);
    if end == |s| then v else -1
  }

  lemma HexRunAll(s: seq<byte>, i: nat)
    requires i <= |s| && forall k :: i <= k < |s| ==> QuotedPrintable.IsHex(s[k])
    ensures HexRun(s, i) == |s|
  {
  }

  lemma SizeReadsBack(n: nat)
    requires n <= LLONG_MAX
    ensures FromHexStr(HexStr(n)) == n
  {
    var s := HexStr(n);
    assert QuotedPrintable.IsHex(s[0]);
    assert TrimLeft(s) == s;
    if |s| > 1 { assert QuotedPrintable.IsHex(s[1]); }
    HexRunAll(s, 0);
    assert s[0..|s|] == s;
    HexRoundTrip(n);
  }

  // ---------------------------------------------------------------- the coded body

  /** The size line, cut at 15 characters by the 16-byte buffer of `send_chunk`. */
  function SizeLine(n: nat): seq<byte> {
    var line := HexStr(n) + CRLF;
    if |line| <= 15 then line else line[..15]
  }

  function ChunkText(d: seq<byte>): seq<byte> { SizeLine(|d|) + d + CRLF }

  const LAST: seq<byte> := [48, 13, 10, 13, 10]

  function ChunksText(ds: seq<seq<byte>>): seq<byte> {
    if ds == [] then [] else ChunkText(ds[0]) + ChunksText(ds[1..])
  }

  function BodyText(ds: seq<seq<byte>>): seq<byte> { ChunksText(ds) + LAST }

  /** The size line of the chunk fits the buffer of the sender. */
  predicate FitsLine(d: seq<byte>) { |HexStr(|d|)| <= 13 && |d| <= LLONG_MAX }

  predicate AllFit(ds: seq<seq<byte>>) { forall i :: 0 <= i < |ds| ==> FitsLine(ds[i]) }

  /** A chunk that is not taken for the last one. */
  predicate GoodChunk(d: seq<byte>) { d != [] && FitsLine(d) }

  predicate GoodChunks(ds: seq<seq<byte>>) { forall i :: 0 <= i < |ds| ==> GoodChunk(ds[i]) }

  // ---------------------------------------------------------------- parsing

  datatype Code = Ok | Continue | BadRequest | Abnormal

  /** The body part of `message`; `size` is `chunk_size`. */
  datatype Msg = Msg(body: seq<byte>, size: int, trailer: MultipartSyntax.Headers, chunked: bool)

  const START := Msg([], -1, map[], true)

  datatype Out = Out(code: Code, msg: Msg, buf: seq<byte>)

  /** The trailer, which `message::parse_header` reads exactly as a MIME header block. */
  function ParseTrailer(m: Msg, buf: seq<byte>): Out {
    var h := MultipartParser.ParseHeader(m.trailer, buf);
    match h.code
    case Ok => Out(Ok, m.(trailer := h.headers, size := -1, chunked := false), h.buf)
    case NotEnough => Out(Continue, m.(trailer := h.headers), h.buf)
    case Error => Out(BadRequest, m.(trailer := h.headers), h.buf)
    case Abnormal => Out(Abnormal, m.(trailer := h.headers), h.buf)
  }

  /** `parse_body_by_chunked`. */
  function Parse(m: Msg, buf: seq<byte>): Out
    decreases |buf|, 1
  {
    if buf == [] then Out(Continue, m, buf)
    else if m.size == -1 then
      var crlf := Find(buf, CRLF);
      if crlf < 0 || |buf| < crlf + 4 then Out(Continue, m, buf)
      else
        var size := FromHexStr(buf[..crlf]);
        var m', rest := m.(size := size), buf[crlf + 2..];
        if size < 0 then Out(BadRequest, m', rest)
        else if size == 0 then ParseTrailer(m', rest)
        else ParseData(m', rest)
    else if m.size == 0 then ParseTrailer(m, buf)
    else ParseData(m, buf)
  }

  /** Chunk data and its CRLF. When the buffer holds exactly the outstanding data, the size drops
      to 0, which the next call takes for the last chunk. */
  function ParseData(m: Msg, buf: seq<byte>): Out
    decreases |buf|, 0
  {
    if m.size < 0 then Out(Abnormal, m, buf)
    else if |buf| > m.size then
      if |buf| < m.size + 2 then Out(Continue, m, buf)
      else
        var m', rest := m.(body := m.body + buf[..m.size]), buf[m.size..];
        if !StartsWith(rest, CRLF) then Out(BadRequest, m', rest)
        else Parse(m'.(size := -1), rest[2..])
    else Out(Continue, m.(body := m.body + buf, size := m.size - |buf|), [])
  }

  /** Reads until the body is complete or refused; later octets stay in the buffer. */
  function ParseAll(m: Msg, buf: seq<byte>, pieces: seq<seq<byte>>): Out
    decreases |pieces|
  {
    if pieces == [] then Out(Continue, m, buf)
    else
      var o := Parse(m, buf + pieces[0]);
      if o.code.Continue? then ParseAll(o.msg, o.buf, pieces[1..])
      else o.(buf := o.buf + Flatten(pieces[1..]))
  }
}
