/** Exactly when a connection closes, and exactly what the kernel took, event by event and over
    whole runs (src/connection.cc:66-236). */
module ConnectionEnd {
  import opened Bytes
  import opened Connection
  import opened ConnectionProof
  import opened ConnectionRuns

  // ---------------------------------------------------------------- what closes a connection

  /** A close with no bytes and files queued. */
  predicate ClosesAtOnce(c: Conn, call: Call) { call.Close? && SendQueueEmpty(c.q) }

  /** A direct write or sendfile that is tried and fails for good. */
  predicate DirectFails(c: Conn, call: Call) {
    Direct(c) && ((call.Send? && call.io.Fatal?) || (call.SendFile? && call.io.Fatal?))
  }

  predicate CallCloses(c: Conn, call: Call) { ClosesAtOnce(c, call) || DirectFails(c, call) }

  /** One of the calls of a running handler closes. */
  predicate CallsClose(e: Env, c: Conn, calls: seq<Call>)
    decreases |calls|
  {
    calls != [] && (ClosesAtOnce(c, calls[0]) || CallsClose(e, DoCall(e, c, calls[0]), calls[1..]))
  }

  predicate BytesFail(c: Conn, io: Io) { HeadIs(c.q.byteQ, c.nextId) && io.Fatal? }

  predicate FileFails(c: Conn, io: Io) { HeadIs(c.q.fileQ, c.nextId) && io.Fatal? }

  /** The handler whose turn it is, if any, as it is when it starts to run. */
  predicate HandlerTurn(c: Conn) { HeadIs(c.q.doneQ, c.nextId) }

  function Started(c: Conn): Conn
    requires HandlerTurn(c)
  {
    c.(emitted := c.emitted + [Ran(c.q.doneQ[0].1)])
  }

  predicate HandlerCloses(e: Env, c: Conn) {
    HandlerTurn(c) && CallsClose(e, Started(c), c.q.doneQ[0].1.calls)
  }

  /** A close is pending and nothing is left to send or run. */
  predicate PendingEnds(c: Conn) { c.phase.Closing? && c.nextId == c.sendId }

  predicate WritableCloses(e: Env, c: Conn, b: Io, f: Io) {
    || BytesFail(c, b)
    || (var c1 := WriteBytes(e, c, b);
        || FileFails(c1, f)
        || (var c2 := WriteFile(e, c1, f); HandlerCloses(e, c2) || PendingEnds(RunHandler(e, c2))))
  }

  predicate EventCloses(e: Env, c: Conn, ev: Event) {
    match ev
    case Api(call) => CallCloses(c, call)
    case Writable(b, f) => c.writing && WritableCloses(e, c, b, f)
    case PeerEof => true
    case SocketError(fatal) => fatal
  }

  lemma CallClosesExactly(e: Env, c: Conn, call: Call)
    requires !c.phase.Closed?
    ensures var r := DoCall(e, c, call);
      && (r.phase.Closed? <==> CallCloses(c, call))
      && r.closes == c.closes + (if r.phase.Closed? then 1 else 0)
      && (!r.phase.Closed? ==> r.phase == if call.Close? then Closing else c.phase)
  {
    match call
    case Send(data, before, io) => CloseEffect(e, c.(submitted := c.submitted + Octets(data)), true);
    case SendFile(f, io) => CloseEffect(e, c.(submitted := c.submitted + FileOctets(e, f)), true);
    case OnComplete(h) =>
    case Close => CloseEffect(e, c, false);
  }

  /** While write interest is on, no call writes directly, and so only a close can close. */
  lemma {:induction false} CallsCloseExactly(e: Env, c: Conn, calls: seq<Call>, done: seq<Token>)
    requires !c.phase.Closed? && c.writing && c.nextId < c.sendId && Balanced(e, c, done)
    ensures var r := RunCalls(e, c, calls);
      && (r.phase.Closed? <==> CallsClose(e, c, calls))
      && r.closes == c.closes + (if r.phase.Closed? then 1 else 0)
      && (!r.phase.Closed? ==> r.phase == if Close in calls then Closing else c.phase)
    decreases |calls|
  {
    hide DoCall, Balanced;
    if calls != [] {
      var r := DoCall(e, c, calls[0]);
      CallClosesExactly(e, c, calls[0]);
      if r.phase.Closed? {
        ClosedIsFinal(e, r, calls[1..]);
      } else {
        CallGoesOn(e, c, calls[0], done);
        CallsCloseExactly(e, r, calls[1..], done);
      }
    }
  }

  lemma NoCloseOnceClosed(e: Env, c: Conn)
    requires c.phase.Closed?
    ensures FinishWrite(e, c).phase.Closed? && FinishWrite(e, c).closes == c.closes
  {
  }

  lemma BytesStageCloses(e: Env, c: Conn, io: Io)
    requires Mid(e, c)
    ensures var r := WriteBytes(e, c, io);
      && (r.phase.Closed? <==> BytesFail(c, io))
      && (r.phase.Closed? ==> r.closes == 1)
      && (!r.phase.Closed? ==> Mid(e, r) && r.phase == c.phase)
  {
    WriteBytesKeeps(e, c, io);
    CloseEffect(e, c, true);
  }

  lemma FileStageCloses(e: Env, c: Conn, io: Io)
    requires Mid(e, c)
    ensures var r := WriteFile(e, c, io);
      && (r.phase.Closed? <==> FileFails(c, io))
      && (r.phase.Closed? ==> r.closes == 1)
      && (!r.phase.Closed? ==> Mid(e, r) && r.phase == c.phase)
  {
    WriteFileKeeps(e, c, io);
    CloseEffect(e, c, true);
  }

  lemma HandlerStageCloses(e: Env, c: Conn)
    requires Mid(e, c)
    ensures var r := RunHandler(e, c);
      && (r.phase.Closed? <==> HandlerCloses(e, c))
      && (r.phase.Closed? ==> r.closes == 1)
      && (!r.phase.Closed? ==> Mid(e, r))
      && (!r.phase.Closed? ==>
            r.phase == if HandlerTurn(c) && Close in c.q.doneQ[0].1.calls then Closing else c.phase)
  {
    HeadsAtLeast(c.q, c.nextId, c.sendId);
    HeadUnique(c.q, c.nextId, c.sendId);
    RunHandlerKeeps(e, c);
    if HandlerTurn(c) {
      var h := c.q.doneQ[0].1;
      RunningHandler(e, c, h);
      CallsCloseExactly(e, Started(c), h.calls, c.emitted);
    }
  }

  lemma LastStageCloses(e: Env, c: Conn)
    requires Mid(e, c)
    ensures var r := FinishWrite(e, c);
      && (r.phase.Closed? <==> PendingEnds(c))
      && r.closes == (if r.phase.Closed? then 1 else 0)
      && (!r.phase.Closed? ==> r.phase == c.phase)
  {
    IdleQueues(c.q, c.nextId, c.sendId);
    CloseEffect(e, c.(writing := false), true);
  }

  lemma PendingIsOpen(e: Env, c: Conn)
    requires c.phase.Closed?
    ensures !PendingEnds(c)
  {
  }

  lemma WritableClosesExactly(e: Env, c: Conn, b: Io, f: Io)
    requires Mid(e, c)
    ensures var r := HandleWrite(e, c, b, f);
      && (r.phase.Closed? <==> WritableCloses(e, c, b, f))
      && r.closes == (if r.phase.Closed? then 1 else 0)
  {
    hide WriteBytes, WriteFile, RunHandler, FinishWrite, Balanced, HandlerCloses, PendingEnds, BytesFail, FileFails;
    BytesStageCloses(e, c, b);
    var c1 := WriteBytes(e, c, b);
    if !c1.phase.Closed? {
      FileStageCloses(e, c1, f);
      var c2 := WriteFile(e, c1, f);
      if !c2.phase.Closed? {
        HandlerStageCloses(e, c2);
        var c3 := RunHandler(e, c2);
        if c3.phase.Closed? { NoCloseOnceClosed(e, c3); PendingIsOpen(e, c3); } else { LastStageCloses(e, c3); }
      }
    }
  }

  lemma OpenIsMid(e: Env, c: Conn)
    requires Inv(e, c) && !c.phase.Closed? && c.writing
    ensures Mid(e, c)
  {
  }

  /** An event closes an open connection exactly if it is an end of file, a fatal read error, a
      write or sendfile that is really tried and fails for good, a close with no bytes and files
      queued, by the user or by the handler that runs, or the last step of a pending close. It then
      reports one close. */
  lemma ClosesExactly(e: Env, c: Conn, ev: Event)
    requires Inv(e, c) && !c.phase.Closed?
    ensures var r := Step(e, c, ev);
      && (r.phase.Closed? <==> EventCloses(e, c, ev))
      && r.closes == (if r.phase.Closed? then 1 else 0)
  {
    hide DoCall, HandleWrite, CallCloses, WritableCloses, Balanced;
    match ev
    case Api(call) => CallClosesExactly(e, c, call);
    case Writable(b, f) =>
      if c.writing { OpenIsMid(e, c); WritableClosesExactly(e, c, b, f); } else { IdleWritable(e, c, b, f); }
    case PeerEof => CloseEffect(e, c, true);
    case SocketError(fatal) => CloseEffect(e, c, true);
  }

  lemma IdleWritable(e: Env, c: Conn, b: Io, f: Io)
    requires !c.writing
    ensures HandleWrite(e, c, b, f) == c
  {
  }

  /** The end of the input and a fatal error put nothing out, and a passing error does nothing. */
  lemma InputEnds(e: Env, c: Conn)
    requires !c.phase.Closed?
    ensures var r := Step(e, c, PeerEof);
      r.phase.Closed? && r.closes == c.closes + 1 && r.emitted == c.emitted && r.submitted == c.submitted
    ensures Step(e, c, SocketError(true)) == Step(e, c, PeerEof) && Step(e, c, SocketError(false)) == c
  {
    CloseEffect(e, c, true);
  }

  /** Some event of the run closes the connection. */
  predicate RunCloses(e: Env, c: Conn, evs: seq<Event>)
    decreases |evs|
  {
    evs != [] && (EventCloses(e, c, evs[0]) || RunCloses(e, Step(e, c, evs[0]), evs[1..]))
  }

  lemma StaysClosed(e: Env, c: Conn, ev: Event)
    requires c.phase.Closed?
    ensures Step(e, c, ev).phase.Closed? && Step(e, c, ev).closes == c.closes
  {
    match ev
    case Api(call) => ClosedCall(e, c, call);
    case Writable(_, _) =>
    case PeerEof =>
    case SocketError(_) =>
  }

  lemma {:induction false} RunStaysClosed(e: Env, c: Conn, evs: seq<Event>)
    requires c.phase.Closed?
    ensures Run(e, c, evs).phase.Closed? && Run(e, c, evs).closes == c.closes
    decreases |evs|
  {
    hide Step;
    if evs != [] {
      StaysClosed(e, c, evs[0]);
      RunStaysClosed(e, Step(e, c, evs[0]), evs[1..]);
    }
  }

  /** A run ends closed exactly if one of its events closes, and then one close is reported. */
  lemma {:induction false} RunClosesExactly(e: Env, c: Conn, evs: seq<Event>)
    requires Inv(e, c) && !c.phase.Closed? && NeverBlockedDirect(e, c, evs)
    ensures var r := Run(e, c, evs);
      && (r.phase.Closed? <==> RunCloses(e, c, evs))
      && r.closes == (if r.phase.Closed? then 1 else 0)
    decreases |evs|
  {
    hide Step, EventCloses, Balanced, BlockedDirect;
    if evs != [] {
      var r := Step(e, c, evs[0]);
      ClosesExactly(e, c, evs[0]);
      StepKeepsInv(e, c, evs[0]);
      if r.phase.Closed? { RunStaysClosed(e, r, evs[1..]); } else { RunClosesExactly(e, r, evs[1..]); }
    }
  }

  // ---------------------------------------------------------------- when a close is pending

  /** The handler that a writable event runs calls close. */
  predicate HandlerAsks(e: Env, c: Conn, b: Io, f: Io) {
    var c2 := WriteFile(e, WriteBytes(e, c, b), f);
    HandlerTurn(c2) && Close in c2.q.doneQ[0].1.calls
  }

  predicate Asks(e: Env, c: Conn, ev: Event) {
    match ev
    case Api(call) => call.Close?
    case Writable(b, f) => c.writing && HandlerAsks(e, c, b, f)
    case _ => false
  }

  /** A connection that stays open is waiting to close exactly if it was, or close was called. */
  lemma ClosingExactly(e: Env, c: Conn, ev: Event)
    requires Inv(e, c) && !c.phase.Closed? && !Step(e, c, ev).phase.Closed?
    ensures Step(e, c, ev).phase.Closing? <==> c.phase.Closing? || Asks(e, c, ev)
  {
    hide DoCall, HandleWrite, HandlerAsks, Balanced;
    match ev
    case Api(call) => CallClosesExactly(e, c, call);
    case Writable(b, f) =>
      if c.writing { OpenIsMid(e, c); PendingAfterWrite(e, c, b, f); } else { IdleWritable(e, c, b, f); }
    case PeerEof => CloseEffect(e, c, true);
    case SocketError(fatal) => CloseEffect(e, c, true);
  }

  lemma PendingAfterWrite(e: Env, c: Conn, b: Io, f: Io)
    requires Mid(e, c) && !HandleWrite(e, c, b, f).phase.Closed?
    ensures HandleWrite(e, c, b, f).phase == if HandlerAsks(e, c, b, f) then Closing else c.phase
  {
    hide WriteBytes, WriteFile, RunHandler, FinishWrite, Balanced, HandlerCloses, PendingEnds, BytesFail, FileFails;
    BytesStageCloses(e, c, b);
    var c1 := WriteBytes(e, c, b);
    FileStageCloses(e, c1, f);
    var c2 := WriteFile(e, c1, f);
    HandlerStageCloses(e, c2);
    var c3 := RunHandler(e, c2);
    if c3.phase.Closed? { NoCloseOnceClosed(e, c3); } else { LastStageCloses(e, c3); }
  }

  // ---------------------------------------------------------------- what the kernel took

  /** The octets of `ts` that the kernel takes when it answers `io`. */
  function Taken(ts: seq<Token>, io: Io): seq<Token> { ts[..if io.Accepted? then Min(io.n, |ts|) else 0] }

  /** The front of the pipeline if it is a byte stream or a file. */
  function FrontOctets(e: Env, c: Conn, file: bool): seq<Token>
    requires Aligned(c.q, c.nextId, c.sendId)
  {
    if c.nextId < c.sendId && (if file then Head(c.q, c.nextId).Range? else Head(c.q, c.nextId).Chunk?)
    then Tokens(e, Head(c.q, c.nextId)) else []
  }

  lemma BytesStageTakes(e: Env, c: Conn, io: Io)
    requires Mid(e, c)
    ensures WriteBytes(e, c, io).emitted == c.emitted + Taken(FrontOctets(e, c, false), io)
  {
    HeadsAtLeast(c.q, c.nextId, c.sendId);
    HeadUnique(c.q, c.nextId, c.sendId);
    CloseEffect(e, c, true);
    if HeadIs(c.q.byteQ, c.nextId) {
      var all := Octets(c.q.output[..c.q.byteQ[0].1]);
      assert Head(c.q, c.nextId) == Chunk(c.q.output[..c.q.byteQ[0].1]);
      if io.Accepted? { assert Octets(c.q.output[..Min(io.n, |all|)]) == all[..Min(io.n, |all|)]; }
    }
  }

  lemma FileStageTakes(e: Env, c: Conn, io: Io)
    requires Mid(e, c)
    ensures WriteFile(e, c, io).emitted == c.emitted + Taken(FrontOctets(e, c, true), io)
  {
    HeadsAtLeast(c.q, c.nextId, c.sendId);
    HeadUnique(c.q, c.nextId, c.sendId);
    CloseEffect(e, c, true);
    if HeadIs(c.q.fileQ, c.nextId) {
      var f := c.q.fileQ[0].1;
      var all := FileOctets(e, f);
      assert Head(c.q, c.nextId) == Range(f);
      if io.Accepted? { assert FileOctets(e, f.(count := Min(io.n, f.count))) == all[..Min(io.n, f.count)]; }
    }
  }

  /** Octets and handlers go out exactly as the kernel answers: of the stream whose turn it is as
      many octets as `write` took, then of the file whose turn it then is as many as `sendfile`
      took, then the handler whose turn it then is. */
  lemma WritableTakes(e: Env, c: Conn, b: Io, f: Io)
    requires Inv(e, c) && !c.phase.Closed? && c.writing && !BytesFail(c, b)
    requires !FileFails(WriteBytes(e, c, b), f)
    ensures var c1 := WriteBytes(e, c, b); var c2 := WriteFile(e, c1, f);
      && Mid(e, c1) && Mid(e, c2)
      && HandleWrite(e, c, b, f).emitted
         == c.emitted + Taken(FrontOctets(e, c, false), b) + Taken(FrontOctets(e, c1, true), f)
            + if HandlerTurn(c2) then [Ran(c2.q.doneQ[0].1)] else []
  {
    hide WriteBytes, WriteFile, Balanced, FinishWrite, Taken, FrontOctets, RunHandler, HandlerCloses, PendingEnds,
         BytesFail, FileFails, HandlerTurn;
    OpenIsMid(e, c);
    BytesStageCloses(e, c, b);
    BytesStageTakes(e, c, b);
    var c1 := WriteBytes(e, c, b);
    FileStageCloses(e, c1, f);
    FileStageTakes(e, c1, f);
    var c2 := WriteFile(e, c1, f);
    HandlerEmits(e, c2);
    RunHandlerKeeps(e, c2);
    FinishWriteKeeps(e, RunHandler(e, c2));
  }

  lemma HandlerEmits(e: Env, c: Conn)
    requires Mid(e, c)
    ensures RunHandler(e, c).emitted == c.emitted + if HandlerTurn(c) then [Ran(c.q.doneQ[0].1)] else []
  {
    HeadsAtLeast(c.q, c.nextId, c.sendId);
    HeadUnique(c.q, c.nextId, c.sendId);
    if HandlerTurn(c) {
      RunningHandler(e, c, c.q.doneQ[0].1);
      CallsAppend(e, Started(c), c.q.doneQ[0].1.calls, c.emitted);
    }
  }

  /** What a call submits to an open connection. */
  function Submits(e: Env, call: Call): seq<Token> {
    match call
    case Send(data, _, _) => Octets(data)
    case SendFile(f, _) => FileOctets(e, f)
    case OnComplete(h) => [Ran(h)]
    case Close => []
  }

  /** The octets of a call that a direct write or sendfile takes. */
  function DirectlyTaken(e: Env, c: Conn, call: Call): seq<Token> {
    if Direct(c) && (call.Send? || call.SendFile?) then Taken(Submits(e, call), call.io) else []
  }

  /** A call on an open connection submits what it was given and puts out exactly what a direct
      write, tried only on an idle connection, took of it. */
  lemma CallTakes(e: Env, c: Conn, call: Call)
    requires !c.phase.Closed?
    ensures var r := DoCall(e, c, call);
      r.submitted == c.submitted + Submits(e, call) && r.emitted == c.emitted + DirectlyTaken(e, c, call)
  {
    match call
    case Send(data, before, io) =>
      CloseEffect(e, c.(submitted := c.submitted + Octets(data)), true);
      var n := if Direct(c) && io.Accepted? then Min(io.n, |data|) else 0;
      assert Octets(data[..n]) == Octets(data)[..n];
    case SendFile(f, io) =>
      CloseEffect(e, c.(submitted := c.submitted + FileOctets(e, f)), true);
      var n := if Direct(c) && io.Accepted? then Min(io.n, f.count) else 0;
      assert FileOctets(e, f.(count := n)) == FileOctets(e, f)[..n];
    case OnComplete(h) =>
    case Close => CloseEffect(e, c, false);
  }

  // ---------------------------------------------------------------- the close handler

  /** The send-complete handlers that calls on a closed connection set. */
  function Registered(calls: seq<Call>): seq<Handler> {
    if calls == [] then []
    else (if calls[0].OnComplete? then [calls[0].handler] else []) + Registered(calls[1..])
  }

  function Handlers(q: seq<(nat, Handler)>): seq<Handler> { seq(|q|, i requires 0 <= i < |q| => q[i].1) }

  lemma {:induction false} ClosedRegisters(e: Env, c: Conn, calls: seq<Call>)
    requires c.phase.Closed?
    ensures var r := RunCalls(e, c, calls);
      && Handlers(r.q.doneQ) == Handlers(c.q.doneQ) + Registered(calls)
      && r.q.byteQ == c.q.byteQ && r.q.fileQ == c.q.fileQ && r.q.output == c.q.output
    decreases |calls|
  {
    if calls != [] {
      var r := DoCall(e, c, calls[0]);
      ClosedCall(e, c, calls[0]);
      ClosedRegisters(e, r, calls[1..]);
      if calls[0].OnComplete? {
        assert Handlers(r.q.doneQ) == Handlers(c.q.doneQ) + [calls[0].handler];
      } else {
        assert r == c by { ClosedOthers(e, c, calls[0]); }
        assert [] + Registered(calls[1..]) == Registered(calls[1..]);
      }
    }
  }

  lemma ClosedOthers(e: Env, c: Conn, call: Call)
    requires c.phase.Closed? && !call.OnComplete?
    ensures DoCall(e, c, call) == c
  {
    match call
    case Send(data, before, io) => assert DoCall(e, c, call) == SendInLoop(e, c, data, before, io);
    case SendFile(f, io) => assert DoCall(e, c, call) == SendFileInLoop(e, c, f, io);
    case Close => assert DoCall(e, c, call) == HandleClose(e, c, false);
  }

  /** The close handler runs once, on a connection that is closed already: of all it does only the
      handlers it sets are left, and they never run. */
  lemma CloseHandlerRuns(e: Env, c: Conn)
    requires !c.phase.Closed?
    ensures var r := HandleClose(e, c, true);
      && Handlers(r.q.doneQ) == Handlers(c.q.doneQ) + Registered(e.onClose)
      && r.q.byteQ == c.q.byteQ && r.q.fileQ == c.q.fileQ && r.q.output == c.q.output
  {
    ClosedRegisters(e, c.(phase := Closed, writing := false, closes := c.closes + 1), e.onClose);
  }
}
