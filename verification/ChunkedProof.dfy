/** Chunked bodies survive every split into reads except one kind, which is described exactly. */
module ChunkedProof {
  import opened Bytes
  import opened Chunked
  import MultipartProof

  // ---------------------------------------------------------------- where the parser stands

  /** Before a size line, or `j` octets into the data of the first remaining chunk. */
  datatype At = AtSize | InData(j: nat)

  predicate ValidAt(ds: seq<seq<byte>>, at: At) { at.InData? ==> ds != [] && at.j < |ds[0]| }

  /** Offset of a position from the start of the remaining chunks. */
  function Base(ds: seq<seq<byte>>, at: At): nat
    requires ValidAt(ds, at)
  {
    if at.AtSize? then 0 else |SizeLine(|ds[0]|)| + at.j
  }

  /** The coded text from a position on. */
  function Remaining(ds: seq<seq<byte>>, at: At): seq<byte>
    requires ValidAt(ds, at)
  {
    if at.AtSize? then BodyText(ds) else ds[0][at.j..] + CRLF + BodyText(ds[1..])
  }

  function MsgAt(done: seq<byte>, ds: seq<seq<byte>>, at: At): Msg
    requires ValidAt(ds, at)
  {
    if at.AtSize? then Msg(done, -1, map[], true)
    else Msg(done + ds[0][..at.j], |ds[0]| - at.j, map[], true)
  }

  /** The octet at offset `n` is the one right behind the data of a chunk of two octets or more. */
  predicate EndsData(ds: seq<seq<byte>>, n: int) {
    ds != [] &&
    ((|ds[0]| >= 2 && n == |SizeLine(|ds[0]|)| + |ds[0]|)
     || (n >= |ChunkText(ds[0])| && EndsData(ds[1..], n - |ChunkText(ds[0])|)))
  }

  lemma {:induction false} EndsDataSkip(pre: seq<seq<byte>>, ds: seq<seq<byte>>, x: nat)
    ensures EndsData(pre + ds, |ChunksText(pre)| + x) == EndsData(ds, x)
    decreases |pre|
  {
    if pre == [] {
      assert pre + ds == ds;
    } else {
      assert (pre + ds)[1..] == pre[1..] + ds;
      EndsDataSkip(pre[1..], ds, x);
    }
  }

  lemma {:induction false} EndsDataBounded(ds: seq<seq<byte>>, n: int)
    requires EndsData(ds, n)
    ensures n + 2 <= |ChunksText(ds)|
    decreases |ds|
  {
    if n >= |ChunkText(ds[0])| { EndsDataBounded(ds[1..], n - |ChunkText(ds[0])|); }
  }

  // ---------------------------------------------------------------- one call

  /** Data of a single octet is never left alone in the buffer. */
  predicate Reachable(ds: seq<seq<byte>>, at: At, n: nat)
    requires ValidAt(ds, at)
  {
    at.InData? ==> |ds[0]| >= 2 || n >= 2
  }

  datatype Where = Where(pre: seq<seq<byte>>, ds: seq<seq<byte>>, done: seq<byte>, at: At, n: nat)

  /** What a call answers when its buffer holds the first `n` octets of the text from a position,
      followed by `tail`. */
  predicate Answered(ds: seq<seq<byte>>, at: At, done: seq<byte>, tail: seq<byte>, n: nat, o: Out, w: Where)
    requires ValidAt(ds, at) && n <= |Remaining(ds, at) + tail|
  {
    var text := Remaining(ds, at);
    if n >= |text| then
      o == Out(Ok, Msg(done + Flatten(ds), -1, map[], false), tail[..n - |text|])
    else if EndsData(ds, Base(ds, at) + n) then
      && o.code.Continue? && o.buf == [] && o.msg.size == 0 && o.msg.trailer == map[]
      && text[n..] == CRLF + BodyText(w.ds)
    else
      && o.code.Continue?
      && ValidAt(w.ds, w.at) && ds == w.pre + w.ds
      && w.n < |Remaining(w.ds, w.at)| && Reachable(w.ds, w.at, w.n)
      && o.msg == MsgAt(w.done, w.ds, w.at)
      && o.buf == Remaining(w.ds, w.at)[..w.n]
      && text[n..] == Remaining(w.ds, w.at)[w.n..]
      && Base(ds, at) + n == |ChunksText(w.pre)| + Base(w.ds, w.at) + w.n
      && w.done + Flatten(w.ds) == done + Flatten(ds)
  }

  lemma SizeLineShape(d: seq<byte>)
    requires GoodChunk(d)
    ensures SizeLine(|d|) == HexStr(|d|) + CRLF
    ensures CR !in HexStr(|d|)
  {
  }

  lemma LastChunk(done: seq<byte>, tail: seq<byte>, n: nat)
    requires n <= |LAST + tail|
    ensures Parse(Msg(done, -1, map[], true), (LAST + tail)[..n])
         == if n >= 5 then Out(Ok, Msg(done, -1, map[], false), tail[..n - 5])
            else Out(Continue, Msg(done, -1, map[], true), LAST[..n])
  {
    var s, b := LAST + tail, (LAST + tail)[..n];
    assert s == [48] + CRLF + (CRLF + tail);
    MultipartProof.FindAfterNoCr([48], CRLF, CRLF + tail);
    FindInPrefix(s, CRLF, n);
    if n >= 5 {
      assert b[..1] == [48] == HexStr(0);
      SizeReadsBack(0);
      assert b[3..] == (CRLF + tail)[..n - 3];
      TrailerEnd(Msg(done, 0, map[], true), tail, n - 3);
      hide FromHexStr, ParseTrailer, HexStr;
    } else {
      assert b == LAST[..n];
    }
  }

  /** An empty trailer ends the body. */
  lemma TrailerEnd(m: Msg, tail: seq<byte>, n: nat)
    requires m.trailer == map[] && n <= |CRLF + tail|
    ensures ParseTrailer(m, (CRLF + tail)[..n])
         == if n >= 2 then Out(Ok, m.(size := -1, chunked := false), tail[..n - 2])
            else Out(Continue, m, CRLF[..n])
  {
    MultipartProof.HeaderEnd([], tail, n);
  }

  lemma SizeLineSeen(x: seq<byte>, rest: seq<byte>, n: nat)
    requires CR !in x && n <= |x + CRLF + rest|
    ensures var b := (x + CRLF + rest)[..n];
      && Find(b, CRLF) == (if |x| + 2 <= n then |x| else -1)
      && (|x| + 2 <= n ==> b[..|x|] == x && b[|x| + 2..] == rest[..n - |x| - 2])
  {
    MultipartProof.FindAfterNoCr(x, CRLF, rest);
    FindInPrefix(x + CRLF + rest, CRLF, n);
    if |x| + 2 <= n { assert (x + CRLF + rest)[..n] == x + CRLF + rest[..n - |x| - 2]; }
  }

  /** A size line is taken only when two octets behind it are there. */
  lemma SizeStep(d: seq<byte>, done: seq<byte>, rest: seq<byte>, n: nat)
    requires GoodChunk(d) && |rest| >= 2 && n <= |SizeLine(|d|) + rest|
    ensures var h := SizeLine(|d|); var o := Parse(Msg(done, -1, map[], true), (h + rest)[..n]);
      if n < |h| + 2 then o == Out(Continue, Msg(done, -1, map[], true), (h + rest)[..n])
      else o == ParseData(Msg(done, |d|, map[], true), rest[..n - |h|])
  {
    hide ParseData, ParseTrailer, HexStr, FromHexStr, SizeLine, Find;
    SizeLineShape(d);
    SizeReadsBack(|d|);
    SizeLineSeen(HexStr(|d|), rest, n);
  }

  /** Data with a complete CRLF behind it is consumed with it. */
  lemma DataStep(body: seq<byte>, data: seq<byte>, rest: seq<byte>, n: nat)
    requires data != [] && |data| + 2 <= n <= |data + CRLF + rest|
    ensures ParseData(Msg(body, |data|, map[], true), (data + CRLF + rest)[..n])
         == Parse(Msg(body + data, -1, map[], true), rest[..n - |data| - 2])
  {
    var b := (data + CRLF + rest)[..n];
    assert b == data + CRLF + rest[..n - |data| - 2];
    assert b[..|data|] == data;
    assert b[|data|..] == CRLF + rest[..n - |data| - 2];
    assert (CRLF + rest[..n - |data| - 2])[2..] == rest[..n - |data| - 2];
  }

  /** Less than the data and its CRLF. */
  lemma DataStops(body: seq<byte>, data: seq<byte>, rest: seq<byte>, n: nat)
    requires data != [] && n < |data| + 2 && n <= |data + CRLF + rest|
    ensures ParseData(Msg(body, |data|, map[], true), (data + CRLF + rest)[..n])
         == if n <= |data| then Out(Continue, Msg(body + data[..n], |data| - n, map[], true), [])
            else Out(Continue, Msg(body, |data|, map[], true), (data + CRLF)[..n])
  {
    var b := (data + CRLF + rest)[..n];
    if n <= |data| { assert b == data[..n]; } else { assert b == (data + CRLF)[..n]; }
  }

  // ---------------------------------------------------------------- calls from any position

  lemma ChunksTextAppend(a: seq<seq<byte>>, b: seq<seq<byte>>)
    ensures ChunksText(a + b) == ChunksText(a) + ChunksText(b)
  {
    if a == [] {
      assert a + b == b;
    } else {
      assert (a + b)[1..] == a[1..] + b;
      ChunksTextAppend(a[1..], b);
    }
  }

  /** A call that first consumes `front` answers as the call from the position behind it. */
  lemma AnsweredLater(ds: seq<seq<byte>>, at: At, done: seq<byte>, pre: seq<seq<byte>>, ds1: seq<seq<byte>>, at1: At,
                      done1: seq<byte>, front: seq<byte>, tail: seq<byte>, n: nat, o: Out, w: Where)
    requires ValidAt(ds, at) && ValidAt(ds1, at1) && ds == pre + ds1
    requires Remaining(ds, at) == front + Remaining(ds1, at1)
    requires Base(ds, at) + |front| == |ChunksText(pre)| + Base(ds1, at1)
    requires done1 + Flatten(ds1) == done + Flatten(ds)
    requires |front| <= n <= |Remaining(ds, at) + tail|
    requires Answered(ds1, at1, done1, tail, n - |front|, o, w)
    ensures Answered(ds, at, done, tail, n, o, w.(pre := pre + w.pre))
  {
    hide Remaining, MsgAt, ChunksText, EndsData, Flatten, Base, BodyText, Reachable;
    var k := n - |front|;
    EndsDataSkip(pre, ds1, Base(ds1, at1) + k);
    if n < |Remaining(ds, at)| {
      assert Remaining(ds, at)[n..] == Remaining(ds1, at1)[k..];
      ChunksTextAppend(pre, w.pre);
      if ds1 == w.pre + w.ds { assert ds == (pre + w.pre) + w.ds; }
    }
  }

  lemma InDataText(ds: seq<seq<byte>>, j: nat)
    requires ds != [] && j < |ds[0]|
    ensures Remaining(ds, InData(j)) == ds[0][j..] + CRLF + Remaining(ds[1..], AtSize)
    ensures Base(ds, InData(j)) + |ds[0][j..] + CRLF| == |ChunksText([ds[0]])|
    ensures [ds[0]] + ds[1..] == ds
    ensures Flatten(ds) == ds[0] + Flatten(ds[1..])
  {
    assert [ds[0]][1..] == ds[..0];
    assert ChunksText([ds[0]]) == ChunkText(ds[0]) + ChunksText([]);
  }

  lemma AtSizeText(ds: seq<seq<byte>>)
    requires ds != [] && ds[0] != []
    ensures Remaining(ds, AtSize) == SizeLine(|ds[0]|) + Remaining(ds, InData(0))
  {
    var h, d, t := SizeLine(|ds[0]|), ds[0], ChunksText(ds[1..]);
    assert ds[0][0..] == d;
    assert h + d + CRLF + t + LAST == h + (d + CRLF + (t + LAST));
  }

  lemma DataTextLong(ds: seq<seq<byte>>, j: nat)
    requires ValidAt(ds, InData(j))
    ensures |Remaining(ds, InData(j))| >= |ds[0][j..]| + 2
  {
  }

  lemma NoEndInSizeLine(ds: seq<seq<byte>>, n: nat)
    requires ds != [] && ds[0] != [] && n < |SizeLine(|ds[0]|)| + 2
    ensures !EndsData(ds, n)
  {
  }

  lemma EndsHere(ds: seq<seq<byte>>, j: nat, n: nat)
    requires ds != [] && j < |ds[0]| && n < |ds[0][j..]| + 2
    ensures EndsData(ds, Base(ds, InData(j)) + n) <==> n == |ds[0][j..]| && |ds[0]| >= 2
  {
  }

  /** The answer of a call whose buffer holds `n` octets from inside a chunk's data. */
  function DataAnswer(ds: seq<seq<byte>>, j: nat, done: seq<byte>, tail: seq<byte>, n: nat): Out
    requires ValidAt(ds, InData(j)) && n <= |Remaining(ds, InData(j)) + tail|
  {
    ParseData(MsgAt(done, ds, InData(j)), (Remaining(ds, InData(j)) + tail)[..n])
  }

  /** The same before a size line. */
  function SizeAnswer(ds: seq<seq<byte>>, done: seq<byte>, tail: seq<byte>, n: nat): Out
    requires n <= |Remaining(ds, AtSize) + tail|
  {
    Parse(Msg(done, -1, map[], true), (Remaining(ds, AtSize) + tail)[..n])
  }

  lemma DataAnswerStops(ds: seq<seq<byte>>, j: nat, done: seq<byte>, tail: seq<byte>, n: nat)
    requires ValidAt(ds, InData(j)) && n <= |Remaining(ds, InData(j)) + tail| && n < |ds[0][j..]| + 2
    ensures var d, m := ds[0][j..], MsgAt(done, ds, InData(j));
      DataAnswer(ds, j, done, tail, n) ==
        if n <= |d| then Out(Continue, m.(body := m.body + d[..n], size := |d| - n), [])
        else Out(Continue, m, (d + CRLF)[..n])
  {
    hide ParseData, BodyText;
    var d, rest := ds[0][j..], BodyText(ds[1..]);
    assert Remaining(ds, InData(j)) + tail == d + CRLF + (rest + tail);
    DataStops(done + ds[0][..j], d, rest + tail, n);
  }

  lemma DataAnswerGoesOn(ds: seq<seq<byte>>, j: nat, done: seq<byte>, tail: seq<byte>, n: nat)
    requires ValidAt(ds, InData(j)) && |ds[0][j..]| + 2 <= n <= |Remaining(ds, InData(j)) + tail|
    ensures n - |ds[0][j..]| - 2 <= |Remaining(ds[1..], AtSize) + tail|
    ensures DataAnswer(ds, j, done, tail, n) == SizeAnswer(ds[1..], done + ds[0], tail, n - |ds[0][j..]| - 2)
  {
    hide ParseData, Parse, BodyText;
    var d, rest := ds[0][j..], BodyText(ds[1..]);
    assert Remaining(ds, InData(j)) + tail == d + CRLF + (rest + tail);
    assert done + ds[0][..j] + d == done + ds[0];
    DataStep(done + ds[0][..j], d, rest + tail, n);
  }

  lemma SizeAnswerGoesOn(ds: seq<seq<byte>>, done: seq<byte>, tail: seq<byte>, n: nat)
    requires GoodChunks(ds) && ds != [] && n <= |Remaining(ds, AtSize) + tail|
    ensures var h := SizeLine(|ds[0]|);
      if n < |h| + 2 then
        SizeAnswer(ds, done, tail, n) == Out(Continue, MsgAt(done, ds, AtSize), (Remaining(ds, AtSize) + tail)[..n])
      else
        && n - |h| <= |Remaining(ds, InData(0)) + tail|
        && SizeAnswer(ds, done, tail, n) == DataAnswer(ds, 0, done, tail, n - |h|)
  {
    hide Remaining, Parse, ParseData, SizeLine, HexStr;
    var h, text := SizeLine(|ds[0]|), Remaining(ds, InData(0));
    DataTextLong(ds, 0);
    assert GoodChunk(ds[0]);
    AtSizeText(ds);
    assert done + ds[0][..0] == done;
    assert h + text + tail == h + (text + tail);
    SizeStep(ds[0], done, text + tail, n);
  }

  lemma DataTextDrop(ds: seq<seq<byte>>, j: nat, n: nat)
    requires ValidAt(ds, InData(j)) && n < |ds[0][j..]|
    ensures |Remaining(ds, InData(j))| >= n
    ensures Remaining(ds, InData(j))[n..] == Remaining(ds, InData(j + n)) == Remaining(ds, InData(j + n))[0..]
  {
    hide BodyText;
    assert ds[0][j..][n..] == ds[0][j + n..];
  }

  lemma StopsShort(ds: seq<seq<byte>>, j: nat, done: seq<byte>, tail: seq<byte>, n: nat)
    requires ValidAt(ds, InData(j)) && 0 < n < |ds[0][j..]| && n <= |Remaining(ds, InData(j)) + tail|
    ensures Answered(ds, InData(j), done, tail, n, DataAnswer(ds, j, done, tail, n), Where([], ds, done, InData(j + n), 0))
  {
    hide DataAnswer, ChunksText, EndsData, Flatten, BodyText, Remaining, SizeLine;
    var d, text := ds[0][j..], Remaining(ds, InData(j));
    DataAnswerStops(ds, j, done, tail, n);
    EndsHere(ds, j, n);
    NoChunks();
    DataTextLong(ds, j);
    DataTextLong(ds, j + n);
    DataTextDrop(ds, j, n);
    assert [] + ds == ds;
    assert done + ds[0][..j] + d[..n] == done + ds[0][..j + n];
  }

  lemma StopsAtEnd(ds: seq<seq<byte>>, j: nat, done: seq<byte>, tail: seq<byte>)
    requires ValidAt(ds, InData(j)) && |ds[0]| >= 2
    ensures |ds[0][j..]| <= |Remaining(ds, InData(j)) + tail|
    ensures Answered(ds, InData(j), done, tail, |ds[0][j..]|, DataAnswer(ds, j, done, tail, |ds[0][j..]|),
                     Where([], ds[1..], done, AtSize, 0))
  {
    var d, text := ds[0][j..], Remaining(ds, InData(j));
    DataAnswerStops(ds, j, done, tail, |d|);
    EndsHere(ds, j, |d|);
    hide DataAnswer, ChunksText, EndsData, Flatten, BodyText;
    assert text[|d|..] == CRLF + BodyText(ds[1..]);
  }

  lemma StopsBehind(ds: seq<seq<byte>>, j: nat, done: seq<byte>, tail: seq<byte>)
    requires ValidAt(ds, InData(j))
    ensures |ds[0][j..]| + 1 <= |Remaining(ds, InData(j)) + tail|
    ensures Answered(ds, InData(j), done, tail, |ds[0][j..]| + 1, DataAnswer(ds, j, done, tail, |ds[0][j..]| + 1),
                     Where([], ds, done, InData(j), |ds[0][j..]| + 1))
  {
    var d, n, text := ds[0][j..], |ds[0][j..]| + 1, Remaining(ds, InData(j));
    DataAnswerStops(ds, j, done, tail, n);
    EndsHere(ds, j, n);
    NoChunks();
    hide DataAnswer, ChunksText, EndsData, Flatten, BodyText;
    assert [] + ds == ds;
    assert (d + CRLF)[..n] == text[..n];
  }

  lemma {:induction false} CallInData(ds: seq<seq<byte>>, j: nat, done: seq<byte>, tail: seq<byte>, n: nat) returns (w: Where)
    requires GoodChunks(ds) && ValidAt(ds, InData(j)) && 0 < n
    requires Reachable(ds, InData(j), n) && n <= |Remaining(ds, InData(j)) + tail|
    ensures Answered(ds, InData(j), done, tail, n, DataAnswer(ds, j, done, tail, n), w)
    decreases |ds|, 1
  {
    var d := ds[0][j..];
    if n < |d| {
      StopsShort(ds, j, done, tail, n);
      w := Where([], ds, done, InData(j + n), 0);
    } else if n == |d| {
      StopsAtEnd(ds, j, done, tail);
      w := Where([], ds[1..], done, AtSize, 0);
    } else if n == |d| + 1 {
      StopsBehind(ds, j, done, tail);
      w := Where([], ds, done, InData(j), n);
    } else {
      w := CallBehindData(ds, j, done, tail, n);
    }
  }

  lemma {:induction false} CallBehindData(ds: seq<seq<byte>>, j: nat, done: seq<byte>, tail: seq<byte>, n: nat)
    returns (w: Where)
    requires GoodChunks(ds) && ValidAt(ds, InData(j)) && |ds[0][j..]| + 2 <= n <= |Remaining(ds, InData(j)) + tail|
    ensures Answered(ds, InData(j), done, tail, n, DataAnswer(ds, j, done, tail, n), w)
    decreases |ds|, 0
  {
    hide Remaining, ChunksText, EndsData, DataAnswer, SizeAnswer, Answered, Flatten, Base;
    var d, done1 := ds[0][j..], done + ds[0];
    InDataText(ds, j);
    DataAnswerGoesOn(ds, j, done, tail, n);
    w := CallAtSize(ds[1..], done1, tail, n - |d| - 2);
    assert done1 + Flatten(ds[1..]) == done + (ds[0] + Flatten(ds[1..]));
    AtSizeBase(ds[1..]);
    AnsweredLater(ds, InData(j), done, [ds[0]], ds[1..], AtSize, done1, d + CRLF, tail, n,
                  SizeAnswer(ds[1..], done1, tail, n - |d| - 2), w);
    w := w.(pre := [ds[0]] + w.pre);
  }

  lemma AtSizeBase(ds: seq<seq<byte>>)
    ensures Base(ds, AtSize) == 0
  {
  }

  lemma {:induction false} CallAtSize(ds: seq<seq<byte>>, done: seq<byte>, tail: seq<byte>, n: nat) returns (w: Where)
    requires GoodChunks(ds) && n <= |Remaining(ds, AtSize) + tail|
    ensures Answered(ds, AtSize, done, tail, n, SizeAnswer(ds, done, tail, n), w)
    decreases |ds|, 3
  {
    if ds == [] {
      CallAtLast(done, tail, n);
      w := Where([], [], done, AtSize, n);
    } else {
      SizeAnswerGoesOn(ds, done, tail, n);
      if n < |SizeLine(|ds[0]|)| + 2 {
        StopsInSizeLine(ds, done, tail, n);
        w := Where([], ds, done, AtSize, n);
      } else {
        w := CallAtChunk(ds, done, tail, n);
      }
    }
  }

  lemma CallAtLast(done: seq<byte>, tail: seq<byte>, n: nat)
    requires n <= |Remaining([], AtSize) + tail|
    ensures Answered([], AtSize, done, tail, n, SizeAnswer([], done, tail, n), Where([], [], done, AtSize, n))
  {
    NoChunks();
    assert Remaining([], AtSize) == LAST;
    hide Remaining, Parse;
    LastChunk(done, tail, n);
    assert Flatten<byte>([]) == [] && done + [] == done;
  }

  lemma StopsInSizeLine(ds: seq<seq<byte>>, done: seq<byte>, tail: seq<byte>, n: nat)
    requires GoodChunks(ds) && ds != [] && n < |SizeLine(|ds[0]|)| + 2 && n <= |Remaining(ds, AtSize) + tail|
    ensures Answered(ds, AtSize, done, tail, n, SizeAnswer(ds, done, tail, n), Where([], ds, done, AtSize, n))
  {
    SizeAnswerGoesOn(ds, done, tail, n);
    NoEndInSizeLine(ds, n);
    NoChunks();
    assert GoodChunk(ds[0]);
    hide Remaining, SizeAnswer, ChunksText, EndsData, Flatten, SizeLine, HexStr;
    AtSizeText(ds);
    DataTextLong(ds, 0);
    assert [] + ds == ds;
    assert (Remaining(ds, AtSize) + tail)[..n] == Remaining(ds, AtSize)[..n];
  }

  lemma {:induction false} CallAtChunk(ds: seq<seq<byte>>, done: seq<byte>, tail: seq<byte>, n: nat) returns (w: Where)
    requires GoodChunks(ds) && ds != [] && |SizeLine(|ds[0]|)| + 2 <= n <= |Remaining(ds, AtSize) + tail|
    ensures Answered(ds, AtSize, done, tail, n, SizeAnswer(ds, done, tail, n), w)
    decreases |ds|, 2
  {
    hide Remaining, ChunksText, EndsData, DataAnswer, SizeAnswer, Answered, Flatten, SizeLine, HexStr;
    var h := SizeLine(|ds[0]|);
    assert GoodChunk(ds[0]);
    AtSizeText(ds);
    NoChunks();
    SizeAnswerGoesOn(ds, done, tail, n);
    w := CallInData(ds, 0, done, tail, n - |h|);
    assert [] + ds == ds;
    AnsweredLater(ds, AtSize, done, [], ds, InData(0), done, h, tail, n, DataAnswer(ds, 0, done, tail, n - |h|), w);
    w := w.(pre := [] + w.pre);
  }

  lemma NoChunks()
    ensures ChunksText([]) == []
  {
  }

  /** One call from any position. */
  lemma Call(ds: seq<seq<byte>>, at: At, done: seq<byte>, tail: seq<byte>, n: nat) returns (w: Where)
    requires GoodChunks(ds) && ValidAt(ds, at) && Reachable(ds, at, n) && 0 < n <= |Remaining(ds, at) + tail|
    ensures Answered(ds, at, done, tail, n, Parse(MsgAt(done, ds, at), (Remaining(ds, at) + tail)[..n]), w)
  {
    hide Remaining, Answered, ParseData;
    if at.AtSize? {
      w := CallAtSize(ds, done, tail, n);
    } else {
      w := CallInData(ds, at.j, done, tail, n);
    }
  }
}
