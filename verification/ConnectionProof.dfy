/** The invariant of the send pipeline: what went out followed by what the queues owe is what was
    submitted. Every call and every stage of `handle_write` keeps it (src/connection.cc:93-244). */
module ConnectionProof {
  import opened Bytes
  import opened Connection

  // ---------------------------------------------------------------- the invariant

  /** `done` followed by what the queues owe is everything submitted. */
  predicate Balanced(e: Env, c: Conn, done: seq<Token>) {
    Aligned(c.q, c.nextId, c.sendId) && done + Pending(e, c.q, c.nextId, c.sendId) == c.submitted
  }

  predicate Inv(e: Env, c: Conn) {
    && c.emitted <= c.submitted
    && c.closes == (if c.phase.Closed? then 1 else 0)
    && (!c.phase.Closed? ==>
          && Balanced(e, c, c.emitted)
          && (c.writing <==> c.nextId < c.sendId)
          && (c.phase.Closing? ==> c.nextId < c.sendId))
  }

  /** A closed connection that got all submitted octets out first. */
  predicate Lossless(c: Conn) {
    c.phase.Closed? ==> DataOf(c.emitted) == DataOf(c.submitted)
  }

  /** The one way to break the pipeline: a direct write of data that the kernel refuses for now. */
  predicate BlockedDirect(c: Conn, ev: Event) {
    && !c.phase.Closed? && Direct(c)
    && ev.Api? && ev.call.Send? && ev.call.io.WouldBlock? && ev.call.data != []
  }

  predicate NeverBlockedDirect(e: Env, c: Conn, evs: seq<Event>)
    decreases |evs|
  {
    evs == [] || (!BlockedDirect(c, evs[0]) && NeverBlockedDirect(e, Step(e, c, evs[0]), evs[1..]))
  }

  lemma ClosedCall(e: Env, c: Conn, call: Call)
    requires c.phase.Closed?
    ensures var r := DoCall(e, c, call);
      r.phase.Closed? && r.submitted == c.submitted && r.emitted == c.emitted && r.closes == c.closes
  {
    match call
    case Send(data, before, io) => assert DoCall(e, c, call) == SendInLoop(e, c, data, before, io) == c;
    case SendFile(f, io) => assert DoCall(e, c, call) == SendFileInLoop(e, c, f, io) == c;
    case OnComplete(h) =>
    case Close => assert DoCall(e, c, call) == HandleClose(e, c, false) == c;
  }

  /** Closed is final: nothing is submitted, emitted or reported any more. */
  lemma {:induction false} ClosedIsFinal(e: Env, c: Conn, calls: seq<Call>)
    requires c.phase.Closed?
    ensures var r := RunCalls(e, c, calls);
      r.phase.Closed? && r.submitted == c.submitted && r.emitted == c.emitted && r.closes == c.closes
    decreases |calls|
  {
    if calls != [] {
      ClosedCall(e, c, calls[0]);
      ClosedIsFinal(e, DoCall(e, c, calls[0]), calls[1..]);
    }
  }

  lemma CloseEffect(e: Env, c: Conn, forced: bool)
    requires !c.phase.Closed?
    ensures var r := HandleClose(e, c, forced);
      && r.submitted == c.submitted && r.emitted == c.emitted
      && (r.phase.Closed? <==> forced || SendQueueEmpty(c.q))
      && r.closes == c.closes + (if r.phase.Closed? then 1 else 0)
      && (!r.phase.Closed? ==> r == c.(phase := Closing))
  {
    if forced || SendQueueEmpty(c.q) {
      ClosedIsFinal(e, c.(phase := Closed, writing := false, closes := c.closes + 1), e.onClose);
    }
  }

  /** `r` is `c` after something was pushed at the end of the queues. */
  predicate Extends(e: Env, c: Conn, r: Conn, done: seq<Token>) {
    && !r.phase.Closed? && r.emitted == c.emitted && c.submitted <= r.submitted && r.closes == c.closes
    && r.writing && r.nextId == c.nextId < r.sendId && Balanced(e, r, done)
    && HasHead(c.q, c.nextId) && Head(r.q, r.nextId) == Head(c.q, c.nextId)
  }

  lemma HasFront(q: Queues, id: nat, end: nat)
    requires Aligned(q, id, end) && id < end
    ensures HasHead(q, id)
  {
  }

  lemma PushExtends(e: Env, c: Conn, item: Item, done: seq<Token>)
    requires !c.phase.Closed? && c.writing && c.nextId < c.sendId && Balanced(e, c, done) && NonEmpty(item)
    ensures Extends(e, c, c.(q := Push(c.q, c.sendId, item), sendId := c.sendId + 1,
                             submitted := c.submitted + Tokens(e, item)), done)
  {
    hide Push, Aligned, Pending, Tokens, Head;
    PushLast(e, c.q, c.nextId, c.sendId, item);
    HasFront(c.q, c.nextId, c.sendId);
    assert done + (Pending(e, c.q, c.nextId, c.sendId) + Tokens(e, item))
        == (done + Pending(e, c.q, c.nextId, c.sendId)) + Tokens(e, item);
  }

  lemma QueuedSendExtends(e: Env, c: Conn, data: seq<byte>, before: byte, io: Io, done: seq<Token>)
    requires !c.phase.Closed? && c.writing && c.nextId < c.sendId && Balanced(e, c, done)
    ensures Extends(e, c, SendInLoop(e, c, data, before, io), done)
  {
    assert data[0..] == data && Octets(data[..0]) == [];
    assert c.emitted + Octets(data[..0]) == c.emitted;
    if data != [] {
      PushExtends(e, c, Chunk(data), done);
    } else {
      assert c.submitted + Octets(data) == c.submitted;
    }
  }

  lemma QueuedFileExtends(e: Env, c: Conn, f: File, io: Io, done: seq<Token>)
    requires !c.phase.Closed? && c.writing && c.nextId < c.sendId && Balanced(e, c, done)
    ensures Extends(e, c, SendFileInLoop(e, c, f, io), done)
  {
    assert c.emitted + FileOctets(e, f.(count := 0)) == c.emitted;
    if f.count > 0 {
      assert File(f.fd, f.offset + 0, f.count - 0) == f;
      PushExtends(e, c, Range(f), done);
    } else {
      assert c.submitted + FileOctets(e, f) == c.submitted;
    }
  }

  /** While write interest is on, a call can only append to the queues or close. */
  lemma CallAppends(e: Env, c: Conn, call: Call, done: seq<Token>)
    requires !c.phase.Closed? && c.writing && c.nextId < c.sendId
    requires Balanced(e, c, done)
    ensures var r := DoCall(e, c, call);
      if r.phase.Closed? then
        && r.emitted == c.emitted && r.submitted == c.submitted && r.closes == c.closes + 1
        && SendQueueEmpty(c.q)
      else Extends(e, c, r, done)
  {
    match call
    case Send(data, before, io) => QueuedSendExtends(e, c, data, before, io, done);
    case SendFile(f, io) => QueuedFileExtends(e, c, f, io, done);
    case OnComplete(h) => PushExtends(e, c, Callback(h), done);
    case Close => CloseEffect(e, c, false);
  }

  lemma CallGoesOn(e: Env, c: Conn, call: Call, done: seq<Token>)
    requires !c.phase.Closed? && c.writing && c.nextId < c.sendId && Balanced(e, c, done)
    requires !DoCall(e, c, call).phase.Closed?
    ensures var r := DoCall(e, c, call); r.writing && r.nextId < r.sendId && Balanced(e, r, done)
  {
    CallAppends(e, c, call, done);
  }

  /** The octets of a token sequence. */
  function DataOf(ts: seq<Token>): seq<byte> {
    if ts == [] then [] else (if ts[0].Octet? then [ts[0].b] else []) + DataOf(ts[1..])
  }

  lemma {:induction false} DataOfAppend(a: seq<Token>, b: seq<Token>)
    ensures DataOf(a + b) == DataOf(a) + DataOf(b)
  {
    if a == [] {
      assert a + b == b;
    } else {
      assert (a + b)[0] == a[0] && (a + b)[1..] == a[1..] + b;
      DataOfAppend(a[1..], b);
      var h: seq<byte> := if a[0].Octet? then [a[0].b] else [];
      assert h + (DataOf(a[1..]) + DataOf(b)) == h + DataOf(a[1..]) + DataOf(b);
    }
  }

  lemma {:induction false} OnlyHandlersOwed(e: Env, q: Queues, id: nat, end: nat)
    requires Aligned(q, id, end) && SendQueueEmpty(q)
    ensures DataOf(Pending(e, q, id, end)) == []
    decreases end - id
  {
    if id < end {
      OnlyHandlersOwed(e, Tail(q, id), id + 1, end);
      DataOfAppend(Tokens(e, Head(q, id)), Pending(e, Tail(q, id), id + 1, end));
    }
  }

  /** With no bytes or files queued, all submitted octets are out. */
  lemma NothingOwed(e: Env, c: Conn, done: seq<Token>)
    requires Balanced(e, c, done) && SendQueueEmpty(c.q)
    ensures DataOf(c.submitted) == DataOf(done)
  {
    OnlyHandlersOwed(e, c.q, c.nextId, c.sendId);
    DataOfAppend(done, Pending(e, c.q, c.nextId, c.sendId));
  }

  /** The same for a whole callback, even one that sends, queues handlers and closes. */
  lemma {:induction false} CallsAppend(e: Env, c: Conn, calls: seq<Call>, done: seq<Token>)
    requires !c.phase.Closed? && c.writing && c.nextId < c.sendId
    requires Balanced(e, c, done)
    ensures var r := RunCalls(e, c, calls);
      if r.phase.Closed? then
        && r.emitted == c.emitted && c.submitted <= r.submitted && r.closes == c.closes + 1
        && DataOf(r.submitted) == DataOf(done)
      else Extends(e, c, r, done)
    decreases |calls|
  {
    if calls != [] {
      CallAppends(e, c, calls[0], done);
      var r := DoCall(e, c, calls[0]);
      if r.phase.Closed? { NothingOwed(e, c, done); ClosedIsFinal(e, r, calls[1..]); }
      else { CallsAppend(e, r, calls[1..], done); }
    }
  }

  lemma IdleQueues(q: Queues, id: nat, end: nat)
    requires Aligned(q, id, end)
    ensures id == end <==> SendQueueEmpty(q) && q.doneQ == []
  {
  }

  lemma IdleSendKeepsInv(e: Env, c: Conn, data: seq<byte>, before: byte, io: Io)
    requires Inv(e, c) && !c.phase.Closed? && !c.writing
    requires io.WouldBlock? ==> data == []
    ensures Inv(e, SendInLoop(e, c, data, before, io))
  {
    IdleQueues(c.q, c.nextId, c.sendId);
    var c0 := c.(submitted := c.submitted + Octets(data));
    if io.Fatal? {
      CloseEffect(e, c0, true);
    } else if io.Accepted? {
      var n := Min(io.n, |data|);
      var r := SendInLoop(e, c, data, before, io);
      assert Octets(data) == Octets(data[..n]) + Octets(data[n..]);
      assert r.submitted == (c.emitted + Octets(data[..n])) + Octets(data[n..]);
      if n < |data| {
        PushOnEmpty(e, c.sendId, Chunk(data[n..]));
        assert r.q == Push(NO_QUEUES, c.sendId, Chunk(data[n..]));
      } else {
        assert Octets(data[n..]) == [];
      }
    } else {
      assert Octets(data) == [];
    }
  }

  lemma IdleSendFileKeepsInv(e: Env, c: Conn, f: File, io: Io)
    requires Inv(e, c) && !c.phase.Closed? && !c.writing
    ensures Inv(e, SendFileInLoop(e, c, f, io))
  {
    IdleQueues(c.q, c.nextId, c.sendId);
    var c0 := c.(submitted := c.submitted + FileOctets(e, f));
    if io.Fatal? {
      CloseEffect(e, c0, true);
    } else {
      var n := if io.Accepted? then Min(io.n, f.count) else 0;
      var rest := File(f.fd, f.offset + n, f.count - n);
      var r := SendFileInLoop(e, c, f, io);
      SplitFile(e, f, n);
      assert r.submitted == r.emitted + FileOctets(e, rest);
      if n < f.count {
        PushOnEmpty(e, c.sendId, Range(rest));
        assert r.q == Push(NO_QUEUES, c.sendId, Range(rest));
      } else {
        assert FileOctets(e, rest) == [];
      }
    }
  }

  /** A call on an idle open connection: the direct write takes a prefix, the queue the rest. */
  lemma IdleCallKeepsInv(e: Env, c: Conn, call: Call)
    requires Inv(e, c) && !c.phase.Closed? && !c.writing
    requires !BlockedDirect(c, Api(call))
    ensures Inv(e, DoCall(e, c, call))
  {
    IdleQueues(c.q, c.nextId, c.sendId);
    match call
    case Send(data, before, io) => IdleSendKeepsInv(e, c, data, before, io);
    case SendFile(f, io) => IdleSendFileKeepsInv(e, c, f, io);
    case OnComplete(h) => PushOnEmpty(e, c.sendId, Callback(h));
    case Close => CloseEffect(e, c, false);
  }

  lemma SplitFile(e: Env, f: File, n: nat)
    requires n <= f.count
    ensures FileOctets(e, f)
         == FileOctets(e, f.(count := n)) + FileOctets(e, File(f.fd, f.offset + n, f.count - n))
  {
    var rest := File(f.fd, f.offset + n, f.count - n);
    forall i | n <= i < f.count ensures FileOctets(e, f)[i] == FileOctets(e, rest)[i - n] {
      assert rest.offset + (i - n) == f.offset + i;
    }
  }

  lemma CallKeepsInv(e: Env, c: Conn, call: Call)
    requires Inv(e, c) && !BlockedDirect(c, Api(call))
    ensures Inv(e, DoCall(e, c, call))
  {
    if c.phase.Closed? { ClosedCall(e, c, call); }
    else if c.writing { CallAppends(e, c, call, c.emitted); }
    else { IdleCallKeepsInv(e, c, call); }
  }

  // ---------------------------------------------------------------- handle_write

  /** Between the stages of `handle_write`: open, with write interest still on. */
  predicate Mid(e: Env, c: Conn) {
    !c.phase.Closed? && c.writing && c.closes == 0 && Balanced(e, c, c.emitted)
  }

  lemma FatalClose(e: Env, c: Conn)
    requires Mid(e, c)
    ensures Inv(e, HandleClose(e, c, true)) && HandleClose(e, c, true).phase.Closed?
  {
    CloseEffect(e, c, true);
  }

  lemma HeadUnique(q: Queues, id: nat, end: nat)
    requires Aligned(q, id, end)
    ensures HeadIs(q.doneQ, id) ==> !HeadIs(q.byteQ, id) && !HeadIs(q.fileQ, id)
    ensures HeadIs(q.fileQ, id) ==> !HeadIs(q.byteQ, id)
  {
    HeadsAtLeast(q, id, end);
    if id < end { HeadsAtLeast(Tail(q, id), id + 1, end); }
  }

  /** Moving what the head gives up from the queues to the socket keeps the account. */
  lemma PayOut(e: Env, c: Conn, paid: seq<Token>, q: Queues, next: nat)
    requires Mid(e, c) && Aligned(q, next, c.sendId)
    requires Pending(e, c.q, c.nextId, c.sendId) == paid + Pending(e, q, next, c.sendId)
    ensures Mid(e, c.(q := q, nextId := next, emitted := c.emitted + paid))
  {
    assert c.emitted + (paid + Pending(e, q, next, c.sendId))
        == (c.emitted + paid) + Pending(e, q, next, c.sendId);
  }

  lemma TakePartOfHead(q: Queues, id: nat, n: nat)
    requires HasHead(q, id) && HeadIs(q.byteQ, id) && n < q.byteQ[0].1
    ensures var t := TakeBytes(q, n);
      HasHead(t, id) && HeadIs(t.byteQ, id) && Tail(t, id) == Tail(q, id)
      && Octets(Head(q, id).data) == Octets(q.output[..n]) + Octets(Head(t, id).data)
  {
    var len := q.byteQ[0].1;
    var t := TakeBytes(q, n);
    assert t.byteQ[1..] == q.byteQ[1..];
    assert t.output[len - n..] == q.output[len..];
    assert q.output[..len] == q.output[..n] + t.output[..len - n];
  }

  lemma TakeBytesPays(e: Env, q: Queues, id: nat, end: nat, n: nat)
    requires Aligned(q, id, end) && id < end && HeadIs(q.byteQ, id) && n <= q.byteQ[0].1
    ensures var next := if n == q.byteQ[0].1 then id + 1 else id;
      && Aligned(TakeBytes(q, n), next, end)
      && Pending(e, q, id, end) == Octets(q.output[..n]) + Pending(e, TakeBytes(q, n), next, end)
  {
    if n == q.byteQ[0].1 {
      assert TakeBytes(q, n) == Tail(q, id);
    } else {
      TakePartOfHead(q, id, n);
    }
  }

  lemma WriteBytesKeeps(e: Env, c: Conn, io: Io)
    requires Mid(e, c)
    ensures var r := WriteBytes(e, c, io);
      && (if r.phase.Closed? then Inv(e, r) else Mid(e, r))
      && c.emitted <= r.emitted
      && (HeadIs(c.q.byteQ, c.nextId) && io.Accepted? && io.n > 0 ==> |c.emitted| < |r.emitted|)
      && (r.phase.Closed? ==> io.Fatal?)
  {
    HeadsAtLeast(c.q, c.nextId, c.sendId);
    if HeadIs(c.q.byteQ, c.nextId) {
      if io.Fatal? { FatalClose(e, c); CloseEffect(e, c, true); }
      if io.Accepted? {
        var n := Min(io.n, c.q.byteQ[0].1);
        TakeBytesPays(e, c.q, c.nextId, c.sendId, n);
        PayOut(e, c, Octets(c.q.output[..n]), TakeBytes(c.q, n), AcceptBytes(c, n).nextId);
        assert WriteBytes(e, c, io) == AcceptBytes(c, n);
      }
    }
  }

  lemma TakeFilePays(e: Env, q: Queues, id: nat, end: nat, n: nat)
    requires Aligned(q, id, end) && id < end && HeadIs(q.fileQ, id) && n <= q.fileQ[0].1.count
    ensures var f := q.fileQ[0].1; var next := if n == f.count then id + 1 else id;
      && Aligned(TakeFile(q, n), next, end)
      && Pending(e, q, id, end) == FileOctets(e, f.(count := n)) + Pending(e, TakeFile(q, n), next, end)
  {
    hide FileOctets;
    HeadUnique(q, id, end);
    var f := q.fileQ[0].1;
    var t := TakeFile(q, n);
    SplitFile(e, f, n);
    if n == f.count {
      assert t == Tail(q, id);
      NoOctets(e, f, n);
    } else {
      TakePartOfFile(q, id, n);
      var rest := Pending(e, Tail(q, id), id + 1, end);
      assert FileOctets(e, f.(count := n)) + FileOctets(e, t.fileQ[0].1) + rest
          == FileOctets(e, f.(count := n)) + (FileOctets(e, t.fileQ[0].1) + rest);
    }
  }

  lemma NoOctets(e: Env, f: File, n: nat)
    requires n == f.count
    ensures FileOctets(e, f.(count := n)) == FileOctets(e, f)
  {
  }

  lemma TakePartOfFile(q: Queues, id: nat, n: nat)
    requires HeadIs(q.fileQ, id) && !HeadIs(q.byteQ, id) && n < q.fileQ[0].1.count
    ensures var t := TakeFile(q, n); var f := q.fileQ[0].1;
      && HasHead(t, id) && HasHead(q, id) && Tail(t, id) == Tail(q, id)
      && Head(q, id) == Range(f) && Head(t, id) == Range(t.fileQ[0].1)
      && t.fileQ[0].1 == File(f.fd, f.offset + n, f.count - n)
  {
    assert TakeFile(q, n).fileQ[1..] == q.fileQ[1..];
  }

  lemma WriteFileKeeps(e: Env, c: Conn, io: Io)
    requires Mid(e, c)
    ensures var r := WriteFile(e, c, io);
      && (if r.phase.Closed? then Inv(e, r) else Mid(e, r))
      && c.emitted <= r.emitted
      && (HeadIs(c.q.fileQ, c.nextId) && io.Accepted? && io.n > 0 ==> |c.emitted| < |r.emitted|)
      && (r.phase.Closed? ==> io.Fatal?)
  {
    HeadsAtLeast(c.q, c.nextId, c.sendId);
    HeadUnique(c.q, c.nextId, c.sendId);
    if HeadIs(c.q.fileQ, c.nextId) {
      if io.Fatal? { FatalClose(e, c); CloseEffect(e, c, true); }
      if io.Accepted? {
        var n := Min(io.n, c.q.fileQ[0].1.count);
        TakeFilePays(e, c.q, c.nextId, c.sendId, n);
        PayOut(e, c, FileOctets(e, c.q.fileQ[0].1.(count := n)), TakeFile(c.q, n), AcceptFile(e, c, n).nextId);
        assert WriteFile(e, c, io) == AcceptFile(e, c, n);
      }
    }
  }

  lemma PopHandler(e: Env, c: Conn, h: Handler, done: seq<Token>)
    requires !c.phase.Closed? && c.writing && c.closes == 0 && Balanced(e, c, done) && c.nextId < c.sendId
    requires Head(c.q, c.nextId) == Callback(h) && c.emitted == done + [Ran(h)]
    ensures c.q.doneQ != []
    ensures Mid(e, c.(q := c.q.(doneQ := c.q.doneQ[1..]), nextId := c.nextId + 1))
  {
    assert Tail(c.q, c.nextId) == c.q.(doneQ := c.q.doneQ[1..]);
    var rest := Pending(e, Tail(c.q, c.nextId), c.nextId + 1, c.sendId);
    assert done + ([Ran(h)] + rest) == (done + [Ran(h)]) + rest;
  }

  lemma RunHandlerKeeps(e: Env, c: Conn)
    requires Mid(e, c)
    ensures var r := RunHandler(e, c);
      && (if r.phase.Closed? then Inv(e, r) else Mid(e, r))
      && c.emitted <= r.emitted
      && (HeadIs(c.q.doneQ, c.nextId) ==> |c.emitted| < |r.emitted|)
      && Lossless(r)
  {
    HeadsAtLeast(c.q, c.nextId, c.sendId);
    HeadUnique(c.q, c.nextId, c.sendId);
    if HeadIs(c.q.doneQ, c.nextId) {
      var h := c.q.doneQ[0].1;
      var m := c.(emitted := c.emitted + [Ran(h)]);
      RunningHandler(e, c, h);
      CallsAppend(e, m, h.calls, c.emitted);
      var c1 := RunCalls(e, m, h.calls);
      if !c1.phase.Closed? { PopHandler(e, c1, h, c.emitted); }
    }
  }

  lemma RunningHandler(e: Env, c: Conn, h: Handler)
    requires Mid(e, c) && c.nextId < c.sendId && Head(c.q, c.nextId) == Callback(h)
    ensures Balanced(e, c.(emitted := c.emitted + [Ran(h)]), c.emitted)
    ensures c.emitted + [Ran(h)] <= c.submitted
    ensures DataOf(c.emitted + [Ran(h)]) == DataOf(c.emitted)
  {
    var rest := Pending(e, Tail(c.q, c.nextId), c.nextId + 1, c.sendId);
    assert c.submitted == (c.emitted + [Ran(h)]) + rest;
    DataOfAppend(c.emitted, [Ran(h)]);
    assert [Ran(h)][1..] == [];
  }

  lemma FinishWriteKeeps(e: Env, c: Conn)
    requires if c.phase.Closed? then Inv(e, c) else Mid(e, c)
    ensures Inv(e, FinishWrite(e, c)) && FinishWrite(e, c).emitted == c.emitted
    ensures Lossless(c) ==> Lossless(FinishWrite(e, c))
    ensures !c.phase.Closed? && c.nextId == c.sendId ==> (c.phase.Closing? <==> FinishWrite(e, c).phase.Closed?)
  {
    if !c.phase.Closed? {
      IdleQueues(c.q, c.nextId, c.sendId);
      if c.nextId == c.sendId {
        NothingOwed(e, c, c.emitted);
        CloseEffect(e, c.(writing := false), true);
      }
    }
  }

  lemma HandleWriteKeepsInv(e: Env, c: Conn, byteIo: Io, fileIo: Io)
    requires Inv(e, c)
    ensures Inv(e, HandleWrite(e, c, byteIo, fileIo))
    ensures c.emitted <= HandleWrite(e, c, byteIo, fileIo).emitted
    ensures !byteIo.Fatal? && !fileIo.Fatal? && Lossless(c) ==> Lossless(HandleWrite(e, c, byteIo, fileIo))
  {
    if !c.phase.Closed? && c.writing {
      WriteBytesKeeps(e, c, byteIo);
      var c1 := WriteBytes(e, c, byteIo);
      if !c1.phase.Closed? {
        WriteFileKeeps(e, c1, fileIo);
        var c2 := WriteFile(e, c1, fileIo);
        if !c2.phase.Closed? { LastStagesKeep(e, c2); }
      }
    }
  }

  lemma LastStagesKeep(e: Env, c: Conn)
    requires Mid(e, c)
    ensures var r := FinishWrite(e, RunHandler(e, c)); Inv(e, r) && c.emitted <= r.emitted && Lossless(r)
  {
    RunHandlerKeeps(e, c);
    FinishWriteKeeps(e, RunHandler(e, c));
  }
}
