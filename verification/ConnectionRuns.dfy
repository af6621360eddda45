/** Whole runs of a connection (src/connection.cc): the pipeline in every run, when it loses data,
    graceful close and progress; and the connection object itself. */
module ConnectionRuns {
  import opened Bytes
  import opened Connection
  import opened ConnectionProof

  // ---------------------------------------------------------------- whole runs

  /** Every event keeps the invariant, except a blocked direct write. */
  lemma StepKeepsInv(e: Env, c: Conn, ev: Event)
    requires Inv(e, c) && !BlockedDirect(c, ev)
    ensures Inv(e, Step(e, c, ev))
  {
    match ev
    case Api(call) => CallKeepsInv(e, c, call);
    case Writable(b, f) => HandleWriteKeepsInv(e, c, b, f);
    case PeerEof => if !c.phase.Closed? { CloseEffect(e, c, true); }
    case SocketError(fatal) => if !c.phase.Closed? { CloseEffect(e, c, true); }
  }

  /** In every run, whatever the kernel answers and whatever the handlers do: what went out is a
      prefix of what was submitted, and while the connection is open the queues owe exactly the
      rest, in order. Close is reported exactly once in a run that closes. */
  lemma {:induction false} RunKeepsInv(e: Env, c: Conn, evs: seq<Event>)
    requires Inv(e, c) && NeverBlockedDirect(e, c, evs)
    ensures Inv(e, Run(e, c, evs))
    decreases |evs|
  {
    if evs != [] {
      StepKeepsInv(e, c, evs[0]);
      RunKeepsInv(e, Step(e, c, evs[0]), evs[1..]);
    }
  }

  /** The whole claim from a fresh connection, spelled out. */
  lemma PipelineInEveryRun(e: Env, evs: seq<Event>)
    requires NeverBlockedDirect(e, INIT, evs)
    ensures var c := Run(e, INIT, evs);
      && c.emitted <= c.submitted
      && c.closes == (if c.phase.Closed? then 1 else 0)
      && (!c.phase.Closed? ==>
            && Aligned(c.q, c.nextId, c.sendId)
            && c.submitted == c.emitted + Pending(e, c.q, c.nextId, c.sendId)
            && Sum(c.q.byteQ) == |c.q.output|
            && (c.writing <==> !SendQueueEmpty(c.q) || c.q.doneQ != []))
  {
    RunKeepsInv(e, INIT, evs);
    var c := Run(e, INIT, evs);
    if !c.phase.Closed? {
      QueueIds(c.q, c.nextId, c.sendId);
      IdleQueues(c.q, c.nextId, c.sendId);
    }
  }

  /** A handler runs after everything submitted before it and before everything submitted later. */
  lemma HandlerRunsInTurn(e: Env, evs: seq<Event>, i: nat)
    requires NeverBlockedDirect(e, INIT, evs)
    requires i < |Run(e, INIT, evs).emitted| && Run(e, INIT, evs).emitted[i].Ran?
    ensures var c := Run(e, INIT, evs);
      i < |c.submitted| && c.submitted[i] == c.emitted[i] && c.emitted[..i] == c.submitted[..i]
  {
    RunKeepsInv(e, INIT, evs);
  }

  function WithBefore(ev: Event, before: byte): Event {
    if ev.Api? && ev.call.Send? then Api(ev.call.(before := before)) else ev
  }

  /** The exact side condition: whatever octet precedes the data in memory, an event keeps the
      account if and only if it is not a direct write of data answered with EAGAIN or EINTR. */
  lemma KeptExactlyUnlessBlocked(e: Env, c: Conn, ev: Event)
    requires Inv(e, c)
    ensures (forall before: byte :: Inv(e, Step(e, c, WithBefore(ev, before)))) <==> !BlockedDirect(c, ev)
  {
    if BlockedDirect(c, ev) {
      var data := ev.call.data;
      var before: byte := if data[0] == 0 then 1 else 0;
      BlockedDirectLosesData(e, c, data, before);
      assert !Inv(e, Step(e, c, WithBefore(ev, before)));
    } else {
      forall before: byte ensures Inv(e, Step(e, c, WithBefore(ev, before))) {
        StepKeepsInv(e, c, WithBefore(ev, before));
      }
    }
  }

  lemma BlockedDirectLosesData(e: Env, c: Conn, data: seq<byte>, before: byte)
    requires Inv(e, c) && !c.phase.Closed? && Direct(c) && data != [] && before != data[0]
    ensures !Inv(e, SendInLoop(e, c, data, before, WouldBlock))
  {
    IdleQueues(c.q, c.nextId, c.sendId);
    var r := SendInLoop(e, c, data, before, WouldBlock);
    var kept := [before] + data[..|data| - 1];
    PushOnEmpty(e, c.sendId, Chunk(kept));
    assert r.q == Push(NO_QUEUES, c.sendId, Chunk(kept));
    assert Pending(e, r.q, r.nextId, r.sendId) == Octets(kept);
    assert (c.emitted + Octets(kept))[|c.emitted|] == Octet(before);
    assert (c.emitted + Octets(data))[|c.emitted|] == Octet(data[0]);
  }

  /** The kernel and the peer never force a close. */
  predicate Peaceful(ev: Event) {
    match ev
    case Api(Send(_, _, io)) => !io.Fatal?
    case Api(SendFile(_, io)) => !io.Fatal?
    case Api(_) => true
    case Writable(b, f) => !b.Fatal? && !f.Fatal?
    case PeerEof => false
    case SocketError(fatal) => !fatal
  }

  lemma CallStaysOpen(e: Env, c: Conn, call: Call)
    requires !c.phase.Closed? && !call.Close? && Peaceful(Api(call))
    ensures DoCall(e, c, call).phase == c.phase
  {
    match call
    case Send(data, before, io) => assert DoCall(e, c, call) == SendInLoop(e, c, data, before, io);
    case SendFile(f, io) => assert DoCall(e, c, call) == SendFileInLoop(e, c, f, io);
    case OnComplete(h) =>
  }

  lemma StepKeepsLossless(e: Env, c: Conn, ev: Event)
    requires Inv(e, c) && Lossless(c) && Peaceful(ev) && !BlockedDirect(c, ev)
    ensures Lossless(Step(e, c, ev))
  {
    match ev
    case Api(call) =>
      if c.phase.Closed? {
        ClosedCall(e, c, call);
      } else {
        if SendQueueEmpty(c.q) { NothingOwed(e, c, c.emitted); }
        if call.Close? { CloseEffect(e, c, false); }
        else if c.writing { CallAppends(e, c, call, c.emitted); }
        else { CallStaysOpen(e, c, call); }
      }
    case Writable(b, f) => HandleWriteKeepsInv(e, c, b, f);
    case SocketError(_) =>
  }

  /** Only peer EOF or a fatal socket error can drop queued data: in any other run, a closed
      connection has handed over every octet ever submitted, in order. */
  lemma {:induction false} GracefulCloseLosesNothing(e: Env, c: Conn, evs: seq<Event>)
    requires Inv(e, c) && Lossless(c) && NeverBlockedDirect(e, c, evs)
    requires forall i :: 0 <= i < |evs| ==> Peaceful(evs[i])
    ensures Run(e, c, evs).phase.Closed? ==>
              DataOf(Run(e, c, evs).emitted) == DataOf(Run(e, c, evs).submitted)
    decreases |evs|
  {
    if evs != [] {
      StepKeepsInv(e, c, evs[0]);
      StepKeepsLossless(e, c, evs[0]);
      GracefulCloseLosesNothing(e, Step(e, c, evs[0]), evs[1..]);
    }
  }

  /** The state only moves Connected, Closing, Closed. */
  lemma {:induction false} PhaseOnlyAdvances(e: Env, c: Conn, evs: seq<Event>)
    ensures Rank(Run(e, c, evs).phase) <= Rank(c.phase)
    decreases |evs|
  {
    if evs != [] { PhaseOnlyAdvances(e, Step(e, c, evs[0]), evs[1..]); }
  }

  /** A writable socket always moves the pipeline forward: no head can be stuck. */
  lemma WritableMakesProgress(e: Env, c: Conn, byteIo: Io, fileIo: Io)
    requires Inv(e, c) && !c.phase.Closed? && c.nextId < c.sendId
    requires byteIo.Accepted? && byteIo.n > 0 && fileIo.Accepted? && fileIo.n > 0
    ensures |c.emitted| < |HandleWrite(e, c, byteIo, fileIo).emitted|
  {
    HeadUnique(c.q, c.nextId, c.sendId);
    WriteBytesKeeps(e, c, byteIo);
    var c1 := WriteBytes(e, c, byteIo);
    WriteFileKeeps(e, c1, fileIo);
    var c2 := WriteFile(e, c1, fileIo);
    RunHandlerKeeps(e, c2);
    FinishWriteKeeps(e, RunHandler(e, c2));
  }

  /** The queued handlers make no further calls. */
  predicate Quiet(q: Queues) { forall i :: 0 <= i < |q.doneQ| ==> q.doneQ[i].1.calls == [] }

  predicate Moves(ev: Event) {
    ev.Writable? && ev.byteIo.Accepted? && ev.byteIo.n > 0 && ev.fileIo.Accepted? && ev.fileIo.n > 0
  }

  lemma QuietStages(e: Env, c: Conn, ev: Event)
    requires Mid(e, c) && Quiet(c.q) && Moves(ev)
    ensures var c3 := RunHandler(e, WriteFile(e, WriteBytes(e, c, ev.byteIo), ev.fileIo));
      Mid(e, c3) && c3.submitted == c.submitted && c3.phase == c.phase && Quiet(c3.q)
    ensures !WriteBytes(e, c, ev.byteIo).phase.Closed?
    ensures !WriteFile(e, WriteBytes(e, c, ev.byteIo), ev.fileIo).phase.Closed?
  {
    WriteBytesKeeps(e, c, ev.byteIo);
    var c1 := WriteBytes(e, c, ev.byteIo);
    WriteFileKeeps(e, c1, ev.fileIo);
    var c2 := WriteFile(e, c1, ev.fileIo);
    assert c2.submitted == c.submitted && c2.q.doneQ == c.q.doneQ && c2.phase == c.phase;
    RunHandlerKeeps(e, c2);
  }

  lemma FinishEffect(e: Env, c: Conn)
    requires Mid(e, c)
    ensures var r := FinishWrite(e, c);
      && r.submitted == c.submitted && r.emitted == c.emitted
      && (r.phase.Closed? ==> c.phase.Closing? && r.emitted == r.submitted)
      && (!r.phase.Closed? ==> r.phase == c.phase && r.q == c.q)
  {
    IdleQueues(c.q, c.nextId, c.sendId);
    if c.nextId == c.sendId { CloseEffect(e, c.(writing := false), true); }
  }

  lemma QuietWrite(e: Env, c: Conn, ev: Event)
    requires Inv(e, c) && !c.phase.Closed? && c.nextId < c.sendId && Quiet(c.q) && Moves(ev)
    ensures var r := Step(e, c, ev);
      && Inv(e, r) && r.submitted == c.submitted && |c.emitted| < |r.emitted|
      && (r.phase.Closed? ==> c.phase.Closing? && r.emitted == r.submitted)
      && (!r.phase.Closed? ==> r.phase == c.phase && Quiet(r.q))
  {
    WritableMakesProgress(e, c, ev.byteIo, ev.fileIo);
    HandleWriteKeepsInv(e, c, ev.byteIo, ev.fileIo);
    QuietStages(e, c, ev);
    var c3 := RunHandler(e, WriteFile(e, WriteBytes(e, c, ev.byteIo), ev.fileIo));
    assert Step(e, c, ev) == FinishWrite(e, c3);
    FinishEffect(e, c3);
  }

  lemma {:induction false} ClosedIgnoresWritable(e: Env, c: Conn, evs: seq<Event>)
    requires c.phase.Closed? && forall i :: 0 <= i < |evs| ==> Moves(evs[i])
    ensures Run(e, c, evs) == c
    decreases |evs|
  {
    if evs != [] { ClosedIgnoresWritable(e, c, evs[1..]); }
  }

  // ---------------------------------------------------------------- the object

  /** The connection object itself: every method changes its fields as the functions above say. */
  class ConnectionObject {
    const env: Env
    var phase: Phase
    var sendId: nat
    var nextId: nat
    var byteQ: seq<(nat, nat)>
    var fileQ: seq<(nat, File)>
    var doneQ: seq<(nat, Handler)>
    var output: seq<byte>
    var writing: bool
    ghost var submitted: seq<Token>
    ghost var emitted: seq<Token>
    ghost var closes: nat

    ghost function View(): Conn
      reads this
    {
      Conn(phase, sendId, nextId, Queues(byteQ, fileQ, doneQ, output), writing, submitted, emitted, closes)
    }

    constructor (env: Env)
      ensures View() == INIT && Inv(env, View()) && this.env == env
    {
      this.env := env;
      phase, sendId, nextId := Connected, 1, 1;
      byteQ, fileQ, doneQ, output := [], [], [], [];
      writing := false;
      submitted, emitted, closes := [], [], 0;
    }

    method DoHandleClose(forced: bool)
      modifies this
      ensures View() == HandleClose(env, old(View()), forced)
      decreases OpenRank(View()), 0, 1
    {
      if phase.Closed? { return; }
      if !forced && !(byteQ == [] && fileQ == []) {
        phase := Closing;
        return;
      }
      phase := Closed;
      writing := false;
      closes := closes + 1;
      Callback(env.onClose);
    }

    /** A user callback, run as the calls it makes. */
    method Callback(calls: seq<Call>)
      modifies this
      ensures View() == RunCalls(env, old(View()), calls)
      decreases OpenRank(View()), |calls|
    {
      if calls == [] { return; }
      match calls[0] {
        case Send(data, before, io) => DoSend(data, before, io);
        case SendFile(f, io) => DoSendFile(f, io);
        case OnComplete(h) => DoSetSendCompleteHandler(h);
        case Close => DoHandleClose(false);
      }
      assert View() == DoCall(env, old(View()), calls[0]);
      Callback(calls[1..]);
    }

    method QueueBytes(rest: seq<byte>)
      modifies this
      ensures View() == Enqueue(old(View()), rest)
    {
      output := output + rest;
      var len: nat := |rest|;
      byteQ := byteQ + [(sendId, len)];
      sendId := sendId + 1;
      writing := true;
    }

    method DoSend(data: seq<byte>, before: byte, io: Io)
      modifies this
      ensures View() == SendInLoop(env, old(View()), data, before, io)
      decreases OpenRank(View()), 0, 2
    {
      if phase.Closed? { return; }
      submitted := submitted + Octets(data);
      var n := 0;
      if !writing && byteQ == [] && fileQ == [] {
        if io.Fatal? {
          DoHandleClose(true);
          return;
        }
        if io.WouldBlock? {
          if data != [] { QueueBytes([before] + data[..|data| - 1]); }
          return;
        }
        n := Min(io.n, |data|);
      }
      emitted := emitted + Octets(data[..n]);
      if n < |data| { QueueBytes(data[n..]); }
    }

    method QueueFile(f: File)
      modifies this
      ensures View() == old(View()).(q := old(View()).q.(fileQ := old(fileQ) + [(old(sendId), f)]),
                                     sendId := old(sendId) + 1, writing := true)
    {
      fileQ := fileQ + [(sendId, f)];
      sendId := sendId + 1;
      writing := true;
    }

    method DoSendFile(f: File, io: Io)
      modifies this
      ensures View() == SendFileInLoop(env, old(View()), f, io)
      decreases OpenRank(View()), 0, 2
    {
      if phase.Closed? { return; }
      submitted := submitted + FileOctets(env, f);
      var n := 0;
      if !writing && byteQ == [] && fileQ == [] {
        if io.Fatal? {
          DoHandleClose(true);
          return;
        }
        n := if io.Accepted? then Min(io.n, f.count) else 0;
      }
      emitted := emitted + FileOctets(env, f.(count := n));
      if n < f.count { QueueFile(File(f.fd, f.offset + n, f.count - n)); }
    }

    method DoSetSendCompleteHandler(h: Handler)
      modifies this
      ensures View() == SetSendCompleteHandler(old(View()), h)
    {
      if !phase.Closed? { submitted := submitted + [Ran(h)]; }
      doneQ := doneQ + [(sendId, h)];
      sendId := sendId + 1;
      writing := true;
    }

    /** Stage of `handle_write`; `closed` is the -2 return of `write`. */
    method WriteFrontBytes(io: Io) returns (closed: bool)
      requires HeadIs(byteQ, nextId) ==> byteQ[0].1 <= |output|
      requires !phase.Closed?
      modifies this
      ensures View() == WriteBytes(env, old(View()), io) && closed == phase.Closed?
    {
      closed := false;
      if byteQ != [] && byteQ[0].0 == nextId {
        match io {
          case Fatal => DoHandleClose(true); closed := true;
          case WouldBlock =>
          case Accepted(k) =>
            var n := Min(k, byteQ[0].1);
            emitted := emitted + Octets(output[..n]);
            output := output[n..];
            if 0 < n == byteQ[0].1 {
              byteQ := byteQ[1..];
              nextId := nextId + 1;
            } else {
              byteQ := [(byteQ[0].0, byteQ[0].1 - n)] + byteQ[1..];
            }
        }
      }
    }

    method WriteFrontFile(io: Io) returns (closed: bool)
      requires !phase.Closed?
      modifies this
      ensures View() == WriteFile(env, old(View()), io) && closed == phase.Closed?
    {
      closed := false;
      if fileQ != [] && fileQ[0].0 == nextId {
        match io {
          case Fatal => DoHandleClose(true); closed := true;
          case WouldBlock =>
          case Accepted(k) =>
            var f := fileQ[0].1;
            var n := Min(k, f.count);
            emitted := emitted + FileOctets(env, f.(count := n));
            if 0 < n == f.count {
              fileQ := fileQ[1..];
              nextId := nextId + 1;
            } else {
              fileQ := [(fileQ[0].0, File(f.fd, f.offset + n, f.count - n))] + fileQ[1..];
            }
        }
      }
    }

    method DoHandleWrite(byteIo: Io, fileIo: Io)
      requires Inv(env, View())
      modifies this
      ensures View() == HandleWrite(env, old(View()), byteIo, fileIo)
      ensures Inv(env, View())
    {
      HandleWriteKeepsInv(env, View(), byteIo, fileIo);
      if phase.Closed? || !writing { return; }
      HeadsAtLeast(View().q, nextId, sendId);
      var closed := WriteFrontBytes(byteIo);
      if closed { return; }
      closed := WriteFrontFile(fileIo);
      if closed { return; }
      RunFront();
      Finish();
    }

    method RunFront()
      modifies this
      ensures View() == RunHandler(env, old(View()))
    {
      if doneQ != [] && doneQ[0].0 == nextId {
        var h := doneQ[0].1;
        emitted := emitted + [Ran(h)];
        Callback(h.calls);
        doneQ := if doneQ == [] then [] else doneQ[1..];
        nextId := nextId + 1;
      }
    }

    method Finish()
      modifies this
      ensures View() == FinishWrite(env, old(View()))
    {
      if byteQ == [] && fileQ == [] && doneQ == [] {
        writing := false;
        if phase.Closing? { DoHandleClose(true); }
      }
    }
  }
}
