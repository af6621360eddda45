/** Whole chunked bodies: the exact condition on reads under which the parser recovers a body,
    and the buffered sender (src/httplib/httplib.cc). */
module ChunkedStream {
  import opened Bytes
  import opened Chunked
  import opened ChunkedProof
  import MultipartParser

  /** Some read, counted from octet `r` of the coded body, stops exactly behind the data of a
      chunk of two octets or more, in front of the CRLF that belongs to it. */
  predicate StopsBehindData(ds: seq<seq<byte>>, r: nat, pieces: seq<seq<byte>>)
    decreases |pieces|
  {
    pieces != [] &&
    (EndsData(ds, r + |pieces[0]|) || StopsBehindData(ds, r + |pieces[0]|, pieces[1..]))
  }

  lemma {:induction false} StopsSkip(pre: seq<seq<byte>>, ds: seq<seq<byte>>, r: nat, pieces: seq<seq<byte>>)
    ensures StopsBehindData(pre + ds, |ChunksText(pre)| + r, pieces) == StopsBehindData(ds, r, pieces)
    decreases |pieces|
  {
    hide EndsData, ChunksText;
    if pieces != [] {
      EndsDataSkip(pre, ds, r + |pieces[0]|);
      StopsSkip(pre, ds, r + |pieces[0]|, pieces[1..]);
    }
  }

  lemma {:induction false} NoStopBehindBody(ds: seq<seq<byte>>, r: nat, pieces: seq<seq<byte>>)
    requires r >= |ChunksText(ds)|
    ensures !StopsBehindData(ds, r, pieces)
    decreases |pieces|
  {
    hide EndsData, ChunksText;
    if pieces != [] {
      if EndsData(ds, r + |pieces[0]|) { EndsDataBounded(ds, r + |pieces[0]|); }
      NoStopBehindBody(ds, r + |pieces[0]|, pieces[1..]);
    }
  }

  lemma LeftToRead(b: seq<byte>, pieces: seq<seq<byte>>, whole: seq<byte>)
    requires b + Flatten(pieces) == whole && |b| < |whole|
    ensures pieces != []
  {
    assert |b + Flatten(pieces)| == |b| + |Flatten(pieces)|;
  }

  /** The body is the concatenation of the chunks and nothing behind it was consumed. */
  predicate Recovered(o: Out, body: seq<byte>, tail: seq<byte>) {
    o.code.Ok? && o.msg.body == body && o.buf == tail
  }

  /** Octets of the body are left in front of what follows it. */
  predicate CutShort(o: Out, tail: seq<byte>) { |o.buf| > |tail| }

  /** Once the size has dropped to 0 the CRLF of the chunk is taken for the end of the body, and
      everything behind it stays unparsed. */
  lemma {:induction false} BrokenEnds(m: Msg, k: nat, rest: seq<byte>, pieces: seq<seq<byte>>)
    requires m.size == 0 && m.trailer == map[] && k < 2
    requires CRLF[..k] + Flatten(pieces) == CRLF + rest
    ensures ParseAll(m, CRLF[..k], pieces).code.Ok? && ParseAll(m, CRLF[..k], pieces).buf == rest
    decreases |pieces|
  {
    hide ParseTrailer, ParseData;
    LeftToRead(CRLF[..k], pieces, CRLF + rest);
    var b, n := CRLF[..k] + pieces[0], k + |pieces[0]|;
    assert CRLF + rest == b + Flatten(pieces[1..]);
    assert b == (CRLF + rest)[..n];
    TrailerEnd(m, rest, n);
    if n >= 2 {
      assert Flatten(pieces[1..]) == rest[n - 2..];
      assert rest[..n - 2] + rest[n - 2..] == rest;
    } else {
      assert b == CRLF[..n];
      BrokenEnds(m, n, rest, pieces[1..]);
    }
  }

  /** From any position the outcome is right exactly if no later read stops behind data. */
  lemma {:induction false} StreamFrom(ds: seq<seq<byte>>, at: At, done: seq<byte>, tail: seq<byte>, n: nat, pieces: seq<seq<byte>>)
    requires GoodChunks(ds) && ValidAt(ds, at) && n < |Remaining(ds, at)| && Reachable(ds, at, n)
    requires Remaining(ds, at)[..n] + Flatten(pieces) == Remaining(ds, at) + tail
    ensures Recovered(ParseAll(MsgAt(done, ds, at), Remaining(ds, at)[..n], pieces), done + Flatten(ds), tail)
        <==> !StopsBehindData(ds, Base(ds, at) + n, pieces)
    ensures StopsBehindData(ds, Base(ds, at) + n, pieces) ==> CutShort(ParseAll(MsgAt(done, ds, at), Remaining(ds, at)[..n], pieces), tail)
    decreases |pieces|
  {
    hide Remaining, MsgAt, Recovered, CutShort, StopsBehindData, Base, ParseAll;
    LeftToRead(Remaining(ds, at)[..n], pieces, Remaining(ds, at) + tail);
    if n == 0 && pieces[0] == [] {
      StreamEmptyRead(ds, at, done, tail, pieces);
    } else {
      StreamRead(ds, at, done, tail, n, pieces);
    }
  }

  lemma {:induction false} StreamEmptyRead(ds: seq<seq<byte>>, at: At, done: seq<byte>, tail: seq<byte>, pieces: seq<seq<byte>>)
    requires GoodChunks(ds) && ValidAt(ds, at) && 0 < |Remaining(ds, at)| && Reachable(ds, at, 0)
    requires pieces != [] && pieces[0] == [] && Remaining(ds, at)[..0] + Flatten(pieces) == Remaining(ds, at) + tail
    ensures Recovered(ParseAll(MsgAt(done, ds, at), Remaining(ds, at)[..0], pieces), done + Flatten(ds), tail)
        <==> !StopsBehindData(ds, Base(ds, at) + 0, pieces)
    ensures StopsBehindData(ds, Base(ds, at) + 0, pieces) ==> CutShort(ParseAll(MsgAt(done, ds, at), Remaining(ds, at)[..0], pieces), tail)
    decreases |pieces|, 0
  {
    hide Remaining, MsgAt, EndsData, Recovered, CutShort, Base, ParseTrailer, ParseData;
    var m, b := MsgAt(done, ds, at), Remaining(ds, at)[..0];
    EmptyFirst(pieces);
    NotAtDataEnd(ds, at);
    assert b == [] && b + pieces[0] == [] && Parse(m, []) == Out(Continue, m, []);
    StreamFrom(ds, at, done, tail, 0, pieces[1..]);
  }

  lemma EmptyFirst(pieces: seq<seq<byte>>)
    requires pieces != [] && pieces[0] == []
    ensures Flatten(pieces) == Flatten(pieces[1..])
  {
    assert [] + Flatten(pieces[1..]) == Flatten(pieces[1..]);
  }

  lemma NotAtDataEnd(ds: seq<seq<byte>>, at: At)
    requires ValidAt(ds, at) && GoodChunks(ds)
    ensures !EndsData(ds, Base(ds, at))
  {
    hide SizeLine, HexStr;
    if ds != [] { assert GoodChunk(ds[0]); }
  }

  lemma {:induction false} StreamRead(ds: seq<seq<byte>>, at: At, done: seq<byte>, tail: seq<byte>, n: nat, pieces: seq<seq<byte>>)
    requires GoodChunks(ds) && ValidAt(ds, at) && n < |Remaining(ds, at)| && Reachable(ds, at, n)
    requires pieces != [] && n + |pieces[0]| > 0
    requires Remaining(ds, at)[..n] + Flatten(pieces) == Remaining(ds, at) + tail
    ensures Recovered(ParseAll(MsgAt(done, ds, at), Remaining(ds, at)[..n], pieces), done + Flatten(ds), tail)
        <==> !StopsBehindData(ds, Base(ds, at) + n, pieces)
    ensures StopsBehindData(ds, Base(ds, at) + n, pieces) ==> CutShort(ParseAll(MsgAt(done, ds, at), Remaining(ds, at)[..n], pieces), tail)
    decreases |pieces|, 0
  {
    hide Remaining, MsgAt, EndsData, Parse, ChunksText, Base, Answered, StopsBehindData, Recovered, CutShort, BodyText;
    var text, n1, rest := Remaining(ds, at), n + |pieces[0]|, Flatten(pieces[1..]);
    ReadSeen(text, tail, n, pieces);
    assert Reachable(ds, at, n1);
    var w := Call(ds, at, done, tail, n1);
    var o := Parse(MsgAt(done, ds, at), (text + tail)[..n1]);
    if n1 >= |text| {
      CompleteRead(ds, at, done, tail, n, pieces, o, w);
    } else if EndsData(ds, Base(ds, at) + n1) {
      BrokenRead(ds, at, done, tail, n, pieces, o, w);
    } else {
      PartialRead(ds, at, done, tail, n, pieces, o, w);
    }
  }

  /** The buffer after a read, and what is still unread. */
  lemma ReadSeen(text: seq<byte>, tail: seq<byte>, n: nat, pieces: seq<seq<byte>>)
    requires pieces != [] && n < |text| && text[..n] + Flatten(pieces) == text + tail
    ensures n + |pieces[0]| <= |text + tail|
    ensures text[..n] + pieces[0] == (text + tail)[..n + |pieces[0]|]
    ensures Flatten(pieces[1..]) == (text + tail)[n + |pieces[0]|..]
  {
    assert text + tail == (text[..n] + pieces[0]) + Flatten(pieces[1..]);
  }

  lemma CompleteRead(ds: seq<seq<byte>>, at: At, done: seq<byte>, tail: seq<byte>, n: nat, pieces: seq<seq<byte>>, o: Out, w: Where)
    requires ValidAt(ds, at) && pieces != [] && n + |pieces[0]| >= |Remaining(ds, at)| > n
    requires Remaining(ds, at)[..n] + Flatten(pieces) == Remaining(ds, at) + tail
    requires n + |pieces[0]| <= |Remaining(ds, at) + tail|
    requires o == Parse(MsgAt(done, ds, at), (Remaining(ds, at) + tail)[..n + |pieces[0]|])
    requires Answered(ds, at, done, tail, n + |pieces[0]|, o, w)
    ensures Recovered(ParseAll(MsgAt(done, ds, at), Remaining(ds, at)[..n], pieces), done + Flatten(ds), tail)
    ensures !StopsBehindData(ds, Base(ds, at) + n, pieces)
  {
    hide Remaining, MsgAt, EndsData, Parse, ChunksText, Base, Flatten;
    var text, n1 := Remaining(ds, at), n + |pieces[0]|;
    EndOfBody(ds, at);
    ReadSeen(text, tail, n, pieces);
    NoStopBehindBody(ds, Base(ds, at) + n1, pieces[1..]);
    if EndsData(ds, Base(ds, at) + n1) { EndsDataBounded(ds, Base(ds, at) + n1); }
    assert (text + tail)[n1..] == tail[n1 - |text|..];
    assert tail[..n1 - |text|] + tail[n1 - |text|..] == tail;
  }

  lemma EndOfBody(ds: seq<seq<byte>>, at: At)
    requires ValidAt(ds, at)
    ensures Base(ds, at) + |Remaining(ds, at)| == |ChunksText(ds)| + 5
  {
    hide SizeLine;
  }

  lemma BrokenRead(ds: seq<seq<byte>>, at: At, done: seq<byte>, tail: seq<byte>, n: nat, pieces: seq<seq<byte>>, o: Out, w: Where)
    requires ValidAt(ds, at) && pieces != [] && n < |Remaining(ds, at)| && n + |pieces[0]| < |Remaining(ds, at)|
    requires Remaining(ds, at)[..n] + Flatten(pieces) == Remaining(ds, at) + tail
    requires o == Parse(MsgAt(done, ds, at), (Remaining(ds, at) + tail)[..n + |pieces[0]|])
    requires Answered(ds, at, done, tail, n + |pieces[0]|, o, w) && EndsData(ds, Base(ds, at) + n + |pieces[0]|)
    ensures !Recovered(ParseAll(MsgAt(done, ds, at), Remaining(ds, at)[..n], pieces), done + Flatten(ds), tail)
    ensures CutShort(ParseAll(MsgAt(done, ds, at), Remaining(ds, at)[..n], pieces), tail)
    ensures StopsBehindData(ds, Base(ds, at) + n, pieces)
  {
    hide Remaining, MsgAt, EndsData, Parse, ChunksText, Base, Flatten;
    var text, n1 := Remaining(ds, at), n + |pieces[0]|;
    var rest := BodyText(w.ds) + tail;
    ReadSeen(text, tail, n, pieces);
    assert (text + tail)[n1..] == text[n1..] + tail == CRLF + rest;
    assert CRLF[..0] == [] && [] + Flatten(pieces[1..]) == Flatten(pieces[1..]);
    BrokenEnds(o.msg, 0, rest, pieces[1..]);
    assert |rest| > |tail|;
  }

  lemma {:induction false} PartialRead(ds: seq<seq<byte>>, at: At, done: seq<byte>, tail: seq<byte>, n: nat, pieces: seq<seq<byte>>, o: Out, w: Where)
    requires GoodChunks(ds) && ValidAt(ds, at) && pieces != []
    requires n < |Remaining(ds, at)| && n + |pieces[0]| < |Remaining(ds, at)|
    requires Remaining(ds, at)[..n] + Flatten(pieces) == Remaining(ds, at) + tail
    requires o == Parse(MsgAt(done, ds, at), (Remaining(ds, at) + tail)[..n + |pieces[0]|])
    requires Answered(ds, at, done, tail, n + |pieces[0]|, o, w) && !EndsData(ds, Base(ds, at) + n + |pieces[0]|)
    ensures Recovered(ParseAll(MsgAt(done, ds, at), Remaining(ds, at)[..n], pieces), done + Flatten(ds), tail)
        <==> !StopsBehindData(ds, Base(ds, at) + n, pieces)
    ensures StopsBehindData(ds, Base(ds, at) + n, pieces) ==> CutShort(ParseAll(MsgAt(done, ds, at), Remaining(ds, at)[..n], pieces), tail)
    decreases |pieces|, 0, 0
  {
    hide Remaining, MsgAt, EndsData, Parse, ChunksText, Base, Recovered, CutShort, Flatten;
    var text, n1, text' := Remaining(ds, at), n + |pieces[0]|, Remaining(w.ds, w.at);
    ReadSeen(text, tail, n, pieces);
    GoodSuffix(w.pre, w.ds);
    assert Flatten(pieces[1..]) == (text + tail)[n1..] == text[n1..] + tail;
    assert text'[..w.n] + (text'[w.n..] + tail) == text' + tail;
    StreamFrom(w.ds, w.at, w.done, tail, w.n, pieces[1..]);
    StopsSkip(w.pre, w.ds, Base(w.ds, w.at) + w.n, pieces[1..]);
  }

  lemma GoodSuffix(pre: seq<seq<byte>>, ds: seq<seq<byte>>)
    requires GoodChunks(pre + ds)
    ensures GoodChunks(ds)
  {
    hide GoodChunk;
    forall i | 0 <= i < |ds| ensures GoodChunk(ds[i]) { assert ds[i] == (pre + ds)[|pre| + i]; }
  }

  lemma NonEmptyRecovered(ds: seq<seq<byte>>, tail: seq<byte>, pieces: seq<seq<byte>>)
    requires GoodChunks(ds) && Flatten(pieces) == BodyText(ds) + tail
    ensures Recovered(ParseAll(START, [], pieces), Flatten(ds), tail) <==> !StopsBehindData(ds, 0, pieces)
    ensures StopsBehindData(ds, 0, pieces) ==> CutShort(ParseAll(START, [], pieces), tail)
  {
    hide ChunksText, Flatten, StopsBehindData;
    assert Remaining(ds, AtSize)[..0] == [] && [] + Flatten(pieces) == Flatten(pieces);
    assert [] + Flatten(ds) == Flatten(ds);
    StreamFrom(ds, AtSize, [], tail, 0, pieces);
  }

  /** The chunks before the first empty one. */
  function BeforeEmpty(ds: seq<seq<byte>>): (r: seq<seq<byte>>)
    ensures |r| <= |ds| && r == ds[..|r|] && [] !in r && (|r| < |ds| ==> ds[|r|] == []) && (|r| == |ds| <==> [] !in ds)
  {
    if ds == [] || ds[0] == [] then [] else [ds[0]] + BeforeEmpty(ds[1..])
  }

  /** An empty chunk is written as the last chunk. */
  lemma EmptyIsLast()
    ensures ChunkText([]) == LAST
  {
    assert HexStr(0) == [48];
    assert SizeLine(0) == [48] + CRLF;
  }

  /** What stands behind the first empty chunk. */
  function BehindEmpty(ds: seq<seq<byte>>): seq<byte>
    requires [] in ds
  {
    BodyText(ds[|BeforeEmpty(ds)| + 1..])
  }

  lemma SplitAtEmpty(ds: seq<seq<byte>>)
    requires [] in ds
    ensures BodyText(ds) == BodyText(BeforeEmpty(ds)) + BehindEmpty(ds)
  {
    hide ChunkText, BeforeEmpty;
    var a := BeforeEmpty(ds);
    var b := ds[|a| + 1..];
    assert ds == a + ([[]] + b);
    ChunksTextAppend(a, [[]] + b);
    EmptyIsLast();
    assert ([[]] + b)[0] == [] && ([[]] + b)[1..] == b;
    assert ChunksText(a) + (LAST + ChunksText(b)) + LAST == (ChunksText(a) + LAST) + (ChunksText(b) + LAST);
  }

  lemma GoodBefore(ds: seq<seq<byte>>)
    requires AllFit(ds)
    ensures GoodChunks(BeforeEmpty(ds))
  {
    hide FitsLine, BeforeEmpty;
    var a := BeforeEmpty(ds);
    forall i | 0 <= i < |a| ensures GoodChunk(a[i]) { assert a[i] in a && a[i] == ds[i]; }
  }

  /** For every list of chunks, whatever follows them and however they are read: the parser
      recovers the body and leaves what follows untouched if and only if no chunk is empty and no
      read stops exactly behind the data of a chunk of two octets or more. */
  lemma RecoveredExactly(ds: seq<seq<byte>>, tail: seq<byte>, pieces: seq<seq<byte>>)
    requires AllFit(ds) && Flatten(pieces) == BodyText(ds) + tail
    ensures Recovered(ParseAll(START, [], pieces), Flatten(ds), tail)
        <==> [] !in ds && !StopsBehindData(ds, 0, pieces)
  {
    hide ParseAll, StopsBehindData, BodyText, FitsLine, Flatten;
    GoodBefore(ds);
    if [] !in ds {
      assert BeforeEmpty(ds) == ds;
      NonEmptyRecovered(ds, tail, pieces);
    } else {
      CutAtEmpty(ds, tail, pieces);
    }
  }

  /** With an empty chunk the body ends there: what is read is the chunks before it, under the same
      condition on the reads, and all that stands behind it is left. */
  lemma CutAtEmpty(ds: seq<seq<byte>>, tail: seq<byte>, pieces: seq<seq<byte>>)
    requires AllFit(ds) && [] in ds && Flatten(pieces) == BodyText(ds) + tail
    ensures Recovered(ParseAll(START, [], pieces), Flatten(BeforeEmpty(ds)), BehindEmpty(ds) + tail)
        <==> !StopsBehindData(BeforeEmpty(ds), 0, pieces)
    ensures CutShort(ParseAll(START, [], pieces), tail)
  {
    hide ParseAll, StopsBehindData, Flatten, FitsLine, BeforeEmpty;
    GoodBefore(ds);
    SplitAtEmpty(ds);
    var a, b := BodyText(BeforeEmpty(ds)), BehindEmpty(ds);
    assert a + b + tail == a + (b + tail);
    assert |b| >= |LAST|;
    NonEmptyRecovered(BeforeEmpty(ds), b + tail, pieces);
  }

  /** The smallest failure: one chunk of two octets, read up to the end of its data and then on.
      The body looks complete, but the last chunk is left behind as if it were the next message. */
  lemma LastChunkLeftBehind(a: byte, b: byte)
    ensures var line := SizeLine(2);
      !Recovered(ParseAll(START, [], [line + [a, b], CRLF + LAST]), [a, b], [])
  {
    var line := SizeLine(2);
    var d: seq<byte> := [a, b];
    var ds: seq<seq<byte>> := [d];
    var second: seq<seq<byte>> := [CRLF + LAST];
    var pieces := [line + d] + second;
    assert HexStr(2) == [50];
    assert pieces[1..] == second && |second[1..]| == 0 && |ds[1..]| == 0;
    assert Flatten(second) == (CRLF + LAST) + [];
    assert Flatten(pieces) == (line + d) + Flatten(second);
    assert ChunksText(ds) == ChunkText(d) + [];
    assert Flatten(pieces) == BodyText(ds) + [];
    assert Flatten(ds) == d + [] == d;
    assert EndsData(ds, 0 + |pieces[0]|);
    RecoveredExactly(ds, [], pieces);
    assert pieces == [line + [a, b], CRLF + LAST];
  }

  // ---------------------------------------------------------------- the buffered sender

  const BUFFERED_SIZE := 4096

  /** The chunked part of `response`; `sent` is what reached `connection::send`. */
  datatype Sender = Sender(sent: seq<byte>, buf: seq<byte>, chunked: bool)

  const IDLE := Sender([], [], false)

  /** `send_chunk`; `head` is the status line and headers, which go out with the first chunk. */
  function SendChunk(s: Sender, head: seq<byte>, d: seq<byte>): Sender {
    var big := |d| >= BUFFERED_SIZE;
    var s1 := if s.chunked then s
              else if big then s.(chunked := true, sent := s.sent + head)
              else s.(chunked := true, buf := s.buf + head);
    if big then s1.(sent := s1.sent + (s1.buf + SizeLine(|d|)) + d, buf := CRLF)
    else
      var buf := s1.buf + SizeLine(|d|) + d + CRLF;
      if |buf| >= BUFFERED_SIZE then s1.(sent := s1.sent + buf, buf := []) else s1.(buf := buf)
  }

  /** `send_done`. */
  function SendDone(s: Sender): Sender { Sender(s.sent + (s.buf + LAST), [], false) }

  function Total(s: Sender): seq<byte> { s.sent + s.buf }

  /** Nothing is pending outside a chunked response. */
  predicate Tidy(s: Sender) { !s.chunked ==> s.buf == [] }

  /** Buffering never changes the stream: each call adds exactly its chunk. */
  lemma ChunkAdds(s: Sender, head: seq<byte>, d: seq<byte>)
    requires Tidy(s)
    ensures var t := SendChunk(s, head, d);
      t.chunked && Total(t) == Total(s) + (if s.chunked then [] else head) + ChunkText(d)
  {
    hide SizeLine;
    var line, t := SizeLine(|d|), SendChunk(s, head, d);
    if |d| >= BUFFERED_SIZE {
      if s.chunked { assert s.sent + (s.buf + line) + d + CRLF == s.sent + s.buf + [] + (line + d + CRLF); }
      else { assert s.sent + head + ([] + line) + d + CRLF == s.sent + [] + head + (line + d + CRLF); }
    } else {
      if s.chunked { assert s.sent + (s.buf + line + d + CRLF) == s.sent + s.buf + [] + (line + d + CRLF); }
      else { assert s.sent + (s.buf + head + line + d + CRLF) == s.sent + s.buf + head + (line + d + CRLF); }
      assert Total(t) == s.sent + (s.buf + (if s.chunked then [] else head) + line + d + CRLF) by {
        assert s.buf + [] == s.buf;
        var b := s.buf + (if s.chunked then [] else head) + line + d + CRLF;
        assert s.sent + b + [] == s.sent + b;
      }
    }
  }

  function SendChunks(s: Sender, head: seq<byte>, ds: seq<seq<byte>>): Sender
    decreases |ds|
  {
    if ds == [] then s else SendChunks(SendChunk(s, head, ds[0]), head, ds[1..])
  }

  lemma {:induction false} ChunksAdd(s: Sender, head: seq<byte>, ds: seq<seq<byte>>)
    requires Tidy(s) && s.chunked
    ensures Total(SendChunks(s, head, ds)) == Total(s) + ChunksText(ds)
    decreases |ds|
  {
    hide SendChunk, ChunkText, Total;
    if ds == [] {
      assert Total(s) + [] == Total(s);
    } else {
      var t := SendChunk(s, head, ds[0]);
      ChunkAdds(s, head, ds[0]);
      ChunksAdd(t, head, ds[1..]);
      assert Total(s) + [] + ChunkText(ds[0]) + ChunksText(ds[1..])
          == Total(s) + (ChunkText(ds[0]) + ChunksText(ds[1..]));
    }
  }

  /** A whole response goes out as its head and the plain chunked coding of its chunks. */
  lemma ResponseText(head: seq<byte>, ds: seq<seq<byte>>)
    requires ds != []
    ensures SendDone(SendChunks(IDLE, head, ds)) == Sender(head + BodyText(ds), [], false)
  {
    hide SendChunk, ChunkText;
    var t := SendChunk(IDLE, head, ds[0]);
    ChunkAdds(IDLE, head, ds[0]);
    ChunksAdd(t, head, ds[1..]);
    var u := SendChunks(t, head, ds[1..]);
    assert Total(t) == head + ChunkText(ds[0]);
    assert u.sent + (u.buf + LAST) == Total(u) + LAST;
    assert head + ChunkText(ds[0]) + ChunksText(ds[1..]) + LAST == head + (ChunkText(ds[0]) + ChunksText(ds[1..]) + LAST);
  }

  /** Sender to parser: the octets behind the head come back as the concatenation of the chunks,
      under the exact condition on the reads. */
  lemma ResponseRoundTrip(head: seq<byte>, ds: seq<seq<byte>>, tail: seq<byte>, pieces: seq<seq<byte>>)
    requires ds != [] && AllFit(ds)
    requires head + Flatten(pieces) == SendDone(SendChunks(IDLE, head, ds)).sent + tail
    ensures Recovered(ParseAll(START, [], pieces), Flatten(ds), tail)
        <==> [] !in ds && !StopsBehindData(ds, 0, pieces)
  {
    hide BodyText, SendChunks, StopsBehindData, Recovered, ParseAll;
    ResponseText(head, ds);
    assert (head + Flatten(pieces))[|head|..] == Flatten(pieces);
    assert (head + BodyText(ds) + tail)[|head|..] == BodyText(ds) + tail;
    RecoveredExactly(ds, tail, pieces);
  }

  // ---------------------------------------------------------------- the objects

  /** The sending side of `response`. */
  class Response {
    var chunked: bool
    var chunkedBuf: seq<byte>
    ghost var sent: seq<byte>

    ghost function View(): Sender
      reads this
    {
      Sender(sent, chunkedBuf, chunked)
    }

    constructor ()
      ensures View() == IDLE
    {
      chunked, chunkedBuf, sent := false, [], [];
    }

    method DoSendChunk(head: seq<byte>, chunk: seq<byte>)
      modifies this
      ensures View() == SendChunk(old(View()), head, chunk)
    {
      if !chunked {
        chunked := true;
        if |chunk| >= BUFFERED_SIZE { sent := sent + head; } else { chunkedBuf := chunkedBuf + head; }
      }
      var x := SizeLine(|chunk|);
      if |chunk| >= BUFFERED_SIZE {
        chunkedBuf := chunkedBuf + x;
        sent := sent + chunkedBuf;
        sent := sent + chunk;
        chunkedBuf := CRLF;
      } else {
        chunkedBuf := chunkedBuf + x + chunk + CRLF;
        if |chunkedBuf| >= BUFFERED_SIZE {
          sent := sent + chunkedBuf;
          chunkedBuf := [];
        }
      }
    }

    method DoSendDone()
      modifies this
      ensures View() == SendDone(old(View()))
    {
      chunked := false;
      chunkedBuf := chunkedBuf + LAST;
      sent := sent + chunkedBuf;
      chunkedBuf := [];
    }
  }

  /** The receiving side of `message`. */
  class MessageObject {
    var body: seq<byte>
    var chunkSize: int
    var trailer: map<seq<byte>, seq<byte>>
    var chunked: bool

    function View(): Msg
      reads this
    {
      Msg(body, chunkSize, trailer, chunked)
    }

    constructor ()
      ensures View() == START
    {
      body, chunkSize, trailer, chunked := [], -1, map[], true;
    }

    method Trailer(buf: seq<byte>) returns (code: Code, rest: seq<byte>)
      modifies this
      ensures Out(code, View(), rest) == ParseTrailer(old(View()), buf)
    {
      var h := MultipartParser.ParseHeaderLoop(trailer, buf);
      trailer := h.headers;
      match h.code
      case NotEnough => return Continue, h.buf;
      case Error => return BadRequest, h.buf;
      case Abnormal => return Code.Abnormal, h.buf;
      case Ok =>
        chunkSize := -1;
        chunked := false;
        return Ok, h.buf;
    }

    /** `parse_body_by_chunked` as a loop over the buffer. */
    method ParseBodyByChunked(text: seq<byte>) returns (code: Code, buf: seq<byte>)
      requires chunkSize >= -1
      modifies this
      ensures Out(code, View(), buf) == Parse(old(View()), text)
    {
      hide ParseTrailer, FromHexStr, Find;
      buf := text;
      while buf != []
        invariant chunkSize >= -1
        invariant Parse(View(), buf) == Parse(old(View()), text)
        decreases |buf|
      {
        if chunkSize == -1 {
          var crlf := Find(buf, CRLF);
          if crlf < 0 || |buf| < crlf + 4 { return Continue, buf; }
          chunkSize := FromHexStr(buf[..crlf]);
          buf := buf[crlf + 2..];
          if chunkSize < 0 { return BadRequest, buf; }
          if chunkSize == 0 {
            code, buf := Trailer(buf);
            return;
          }
        } else if chunkSize == 0 {
          code, buf := Trailer(buf);
          return;
        }
        if |buf| > chunkSize {
          if |buf| < chunkSize + 2 { return Continue, buf; }
          body := body + buf[..chunkSize];
          buf := buf[chunkSize..];
          if !StartsWith(buf, CRLF) { return BadRequest, buf; }
          buf := buf[2..];
          chunkSize := -1;
        } else {
          body := body + buf;
          chunkSize := chunkSize - |buf|;
          return Continue, [];
        }
      }
      return Continue, buf;
    }
  }
}
