/** How connections come to their end (src/connection.cc): when a graceful close runs every
    send-complete handler, and how productive writable events drain the queues even if handlers
    send, queue handlers and close. */
module ConnectionClose {
  import opened Bytes
  import opened Connection
  import opened ConnectionProof
  import opened ConnectionRuns

  // ---------------------------------------------------------------- handlers and a graceful close

  /** A close that finds no bytes and files queued but more handlers than the `busy` one that is
      running: it closes at once, and they never run. */
  predicate Cuts(c: Conn, call: Call, busy: nat) {
    call.Close? && !c.phase.Closed? && SendQueueEmpty(c.q) && |c.q.doneQ| > busy
  }

  predicate CallsCut(e: Env, c: Conn, calls: seq<Call>, busy: nat)
    decreases |calls|
  {
    calls != [] && (Cuts(c, calls[0], busy) || CallsCut(e, DoCall(e, c, calls[0]), calls[1..], busy))
  }

  predicate HandlerCuts(e: Env, c: Conn) {
    && !c.phase.Closed? && HeadIs(c.q.doneQ, c.nextId)
    && CallsCut(e, c.(emitted := c.emitted + [Ran(c.q.doneQ[0].1)]), c.q.doneQ[0].1.calls, 1)
  }

  predicate EventCuts(e: Env, c: Conn, ev: Event) {
    match ev
    case Api(call) => Cuts(c, call, 0)
    case Writable(b, f) =>
      && !c.phase.Closed? && c.writing && !WriteBytes(e, c, b).phase.Closed?
      && HandlerCuts(e, WriteFile(e, WriteBytes(e, c, b), f))
    case _ => false
  }

  predicate RunCuts(e: Env, c: Conn, evs: seq<Event>)
    decreases |evs|
  {
    evs != [] && (EventCuts(e, c, evs[0]) || RunCuts(e, Step(e, c, evs[0]), evs[1..]))
  }

  /** A closed connection that got everything submitted out and ran every handler first. */
  predicate Complete(c: Conn) { c.phase.Closed? ==> c.emitted == c.submitted }

  /** With nothing but handlers queued there is one token for each. */
  lemma {:induction false} HandlersOwed(e: Env, q: Queues, id: nat, end: nat)
    requires Aligned(q, id, end) && SendQueueEmpty(q)
    ensures |q.doneQ| == end - id == |Pending(e, q, id, end)|
    decreases end - id
  {
    if id < end { HandlersOwed(e, Tail(q, id), id + 1, end); }
  }

  lemma {:induction false} NoCutsWhenClosed(e: Env, c: Conn, calls: seq<Call>, busy: nat)
    requires c.phase.Closed?
    ensures !CallsCut(e, c, calls, busy)
    decreases |calls|
  {
    if calls != [] {
      ClosedCall(e, c, calls[0]);
      NoCutsWhenClosed(e, DoCall(e, c, calls[0]), calls[1..], busy);
    }
  }

  /** The calls of a running handler. */
  lemma {:induction false} CallsCutExactly(e: Env, c: Conn, calls: seq<Call>, h: Handler, done: seq<Token>)
    requires !c.phase.Closed? && c.writing && c.nextId < c.sendId && Balanced(e, c, done)
    requires Head(c.q, c.nextId) == Callback(h) && c.emitted == done + [Ran(h)]
    ensures var r := RunCalls(e, c, calls);
      if CallsCut(e, c, calls, 1) then r.phase.Closed? && r.emitted != r.submitted else Complete(r)
    decreases |calls|
  {
    if calls != [] {
      var call, r := calls[0], DoCall(e, c, calls[0]);
      CallAppends(e, c, call, done);
      if r.phase.Closed? {
        ClosedIsFinal(e, r, calls[1..]);
        NoCutsWhenClosed(e, r, calls[1..], 1);
        ClosedByClose(e, c, call, done);
        LastHandler(e, c, h, done);
      } else {
        hide DoCall, RunCalls;
        assert !Cuts(c, call, 1) by { NoCutIfOpen(e, c, call, 1); }
        CallsCutExactly(e, r, calls[1..], h, done);
        CallsUnfold(e, c, calls);
      }
    }
  }

  lemma CallsUnfold(e: Env, c: Conn, calls: seq<Call>)
    requires calls != []
    ensures RunCalls(e, c, calls) == RunCalls(e, DoCall(e, c, calls[0]), calls[1..])
  {
  }

  lemma NoCutIfOpen(e: Env, c: Conn, call: Call, busy: nat)
    requires !DoCall(e, c, call).phase.Closed?
    ensures !Cuts(c, call, busy)
  {
    if Cuts(c, call, busy) { CloseEffect(e, c, false); }
  }

  lemma ClosedByClose(e: Env, c: Conn, call: Call, done: seq<Token>)
    requires !c.phase.Closed? && c.writing && c.nextId < c.sendId && Balanced(e, c, done)
    requires DoCall(e, c, call).phase.Closed?
    ensures call.Close?
  {
    match call
    case Send(data, before, io) => QueuedSendExtends(e, c, data, before, io, done);
    case SendFile(f, io) => QueuedFileExtends(e, c, f, io, done);
    case OnComplete(h) =>
    case Close =>
  }

  /** With no bytes and files queued, the running handler is all that was owed if and only if it is
      alone in its queue. */
  lemma LastHandler(e: Env, c: Conn, h: Handler, done: seq<Token>)
    requires c.nextId < c.sendId && Balanced(e, c, done) && SendQueueEmpty(c.q)
    requires Head(c.q, c.nextId) == Callback(h) && c.emitted == done + [Ran(h)]
    ensures c.emitted == c.submitted <==> |c.q.doneQ| <= 1
  {
    HandlersOwed(e, c.q, c.nextId, c.sendId);
    var rest := Pending(e, Tail(c.q, c.nextId), c.nextId + 1, c.sendId);
    assert Pending(e, c.q, c.nextId, c.sendId) == [Ran(h)] + rest;
    assert done + ([Ran(h)] + rest) == c.emitted + rest;
    assert |c.submitted| == |c.emitted| + |rest|;
  }

  lemma HandlerStage(e: Env, c: Conn)
    requires Mid(e, c)
    ensures var r := FinishWrite(e, RunHandler(e, c));
      if HandlerCuts(e, c) then r.phase.Closed? && r.emitted != r.submitted else Complete(r)
  {
    HeadsAtLeast(c.q, c.nextId, c.sendId);
    HeadUnique(c.q, c.nextId, c.sendId);
    RunHandlerKeeps(e, c);
    var r := RunHandler(e, c);
    if HeadIs(c.q.doneQ, c.nextId) {
      var h := c.q.doneQ[0].1;
      RunningHandler(e, c, h);
      CallsCutExactly(e, c.(emitted := c.emitted + [Ran(h)]), h.calls, h, c.emitted);
      hide CallsCut, RunCalls;
    }
    if !r.phase.Closed? { FinishEffect(e, r); }
  }

  lemma CloseCuts(e: Env, c: Conn)
    requires Inv(e, c) && !c.phase.Closed?
    ensures var r := HandleClose(e, c, false);
      if Cuts(c, Close, 0) then r.phase.Closed? && r.emitted != r.submitted else Complete(r)
  {
    CloseEffect(e, c, false);
    if SendQueueEmpty(c.q) {
      HandlersOwed(e, c.q, c.nextId, c.sendId);
      assert |c.submitted| == |c.emitted| + |c.q.doneQ|;
    }
  }

  lemma ClosedStep(e: Env, c: Conn, ev: Event)
    requires c.phase.Closed?
    ensures Step(e, c, ev).phase.Closed? && !EventCuts(e, c, ev)
    ensures Step(e, c, ev).emitted == c.emitted && Step(e, c, ev).submitted == c.submitted
  {
    match ev
    case Api(call) => ClosedCall(e, c, call);
    case Writable(_, _) =>
    case PeerEof =>
    case SocketError(_) =>
  }

  /** Exactly the events that cut handlers off end a connection with something undone. */
  lemma StepCuts(e: Env, c: Conn, ev: Event)
    requires Inv(e, c) && !c.phase.Closed? && Peaceful(ev) && !BlockedDirect(c, ev)
    ensures var r := Step(e, c, ev);
      if EventCuts(e, c, ev) then r.phase.Closed? && r.emitted != r.submitted else Complete(r)
  {
    match ev
    case Api(call) => if call.Close? { CloseCuts(e, c); } else { CallStaysOpen(e, c, call); }
    case Writable(b, f) => if c.writing { WriteCuts(e, c, b, f); }
    case SocketError(_) =>
  }

  lemma WriteCuts(e: Env, c: Conn, b: Io, f: Io)
    requires Mid(e, c) && !b.Fatal? && !f.Fatal?
    ensures var r := HandleWrite(e, c, b, f);
      if EventCuts(e, c, Writable(b, f)) then r.phase.Closed? && r.emitted != r.submitted else Complete(r)
  {
    WriteBytesKeeps(e, c, b);
    var c1 := WriteBytes(e, c, b);
    WriteFileKeeps(e, c1, f);
    HandlerStage(e, WriteFile(e, c1, f));
    hide WriteBytes, WriteFile, HandlerCuts, RunHandler, FinishWrite;
  }

  lemma {:induction false} ClosedRun(e: Env, c: Conn, evs: seq<Event>)
    requires c.phase.Closed?
    ensures Run(e, c, evs).phase.Closed? && !RunCuts(e, c, evs)
    ensures Run(e, c, evs).emitted == c.emitted && Run(e, c, evs).submitted == c.submitted
    decreases |evs|
  {
    hide Step, EventCuts;
    if evs != [] {
      ClosedStep(e, c, evs[0]);
      ClosedRun(e, Step(e, c, evs[0]), evs[1..]);
    }
  }

  /** In every run without peer EOF and fatal errors, a connection that has closed has handed over
      every octet and run every handler if and only if no close was called, by the user or by a
      handler, with no bytes and files but some other handler queued. */
  lemma {:induction false} HandlersRunUnlessCut(e: Env, c: Conn, evs: seq<Event>)
    requires Inv(e, c) && Complete(c) && NeverBlockedDirect(e, c, evs)
    requires forall i :: 0 <= i < |evs| ==> Peaceful(evs[i])
    ensures Run(e, c, evs).phase.Closed? ==>
      (Run(e, c, evs).emitted == Run(e, c, evs).submitted <==> !RunCuts(e, c, evs))
    decreases |evs|
  {
    hide Step, EventCuts, Inv;
    if c.phase.Closed? {
      ClosedRun(e, c, evs);
    } else if evs != [] {
      var r := Step(e, c, evs[0]);
      StepKeepsInv(e, c, evs[0]);
      StepCuts(e, c, evs[0]);
      if r.phase.Closed? { ClosedRun(e, r, evs[1..]); } else { HandlersRunUnlessCut(e, r, evs[1..]); }
    }
  }

  /** The smallest loss: a handler is queued on an idle connection and the connection closed. */
  lemma CloseDropsHandler(e: Env, h: Handler)
    ensures var c := Run(e, INIT, [Api(OnComplete(h)), Api(Close)]);
      c.phase.Closed? && c.submitted == [Ran(h)] && c.emitted == []
  {
    var c1 := Step(e, INIT, Api(OnComplete(h)));
    CloseEffect(e, c1, false);
    var c2 := Step(e, c1, Api(Close));
    assert [Api(OnComplete(h)), Api(Close)][1..] == [Api(Close)] && [Api(Close)][1..] == [];
    assert Run(e, c1, [Api(Close)]) == Run(e, c2, []);
  }

  // ---------------------------------------------------------------- draining

  /** What a handler can put out: itself, and all that its calls submit, nested handlers included. */
  function HandlerWeight(h: Handler): nat
    decreases h
  {
    1 + CallsWeight(h.calls)
  }

  function CallsWeight(calls: seq<Call>): nat
    decreases calls
  {
    if calls == [] then 0 else CallWeight(calls[0]) + CallsWeight(calls[1..])
  }

  function CallWeight(call: Call): nat
    decreases call
  {
    match call
    case Send(data, _, _) => |data|
    case SendFile(f, _) => f.count
    case OnComplete(h) => HandlerWeight(h)
    case Close => 0
  }

  /** No call, nested ones included, is a close. */
  predicate CallsGentle(calls: seq<Call>)
    decreases calls
  {
    calls == [] || (CallGentle(calls[0]) && CallsGentle(calls[1..]))
  }

  predicate CallGentle(call: Call)
    decreases call
  {
    match call
    case OnComplete(h) => CallsGentle(h.calls)
    case Close => false
    case _ => true
  }

  function TokenWeight(t: Token): nat { if t.Ran? then HandlerWeight(t.handler) else 1 }

  function Weight(ts: seq<Token>): nat { if ts == [] then 0 else TokenWeight(ts[0]) + Weight(ts[1..]) }

  predicate Gentle(ts: seq<Token>) { forall t :: t in ts && t.Ran? ==> CallsGentle(t.handler.calls) }

  lemma {:induction false} WeightAppend(a: seq<Token>, b: seq<Token>)
    ensures Weight(a + b) == Weight(a) + Weight(b)
  {
    if a == [] {
      assert a + b == b;
    } else {
      assert (a + b)[0] == a[0] && (a + b)[1..] == a[1..] + b;
      WeightAppend(a[1..], b);
    }
  }

  lemma {:induction false} WeightAtLeast(a: seq<Token>)
    ensures Weight(a) >= |a|
  {
    if a != [] { WeightAtLeast(a[1..]); }
  }

  lemma {:induction false} OctetsWeight(a: seq<Token>)
    requires forall t :: t in a ==> t.Octet?
    ensures Weight(a) == |a| && Gentle(a)
  {
    if a != [] {
      assert a[0] in a && forall t :: t in a[1..] ==> t in a;
      OctetsWeight(a[1..]);
    }
  }

  /** What an open connection has been given and has not put out yet. */
  function Left(c: Conn): seq<Token>
    requires c.emitted <= c.submitted
  {
    c.submitted[|c.emitted|..]
  }

  /** `r` has put out `out` more than `c` and been given `added` more. */
  predicate Moved(c: Conn, r: Conn, out: seq<Token>, added: seq<Token>) {
    r.emitted == c.emitted + out && r.submitted == c.submitted + added
  }

  lemma LeftMoved(c: Conn, r: Conn, out: seq<Token>, added: seq<Token>)
    requires c.emitted <= c.submitted && r.emitted <= r.submitted && Moved(c, r, out, added)
    ensures out + Left(r) == Left(c) + added
    ensures Weight(out) + Weight(Left(r)) == Weight(Left(c)) + Weight(added)
  {
    assert c.emitted + (out + Left(r)) == r.submitted;
    assert c.emitted + (Left(c) + added) == r.submitted;
    assert out + Left(r) == r.submitted[|c.emitted|..] == Left(c) + added;
    WeightAppend(out, Left(r));
    WeightAppend(Left(c), added);
  }

  /** A call made while write interest is on adds no more than its weight. */
  lemma CallAdds(e: Env, c: Conn, call: Call, done: seq<Token>) returns (added: seq<Token>)
    requires !c.phase.Closed? && c.writing && c.nextId < c.sendId && Balanced(e, c, done)
    ensures Moved(c, DoCall(e, c, call), [], added) && Weight(added) <= CallWeight(call)
    ensures CallGentle(call) ==> DoCall(e, c, call).phase == c.phase && Gentle(added)
  {
    CallAppends(e, c, call, done);
    match call
    case Send(data, _, _) =>
      added := Octets(data);
      OctetsWeight(added);
    case SendFile(f, _) =>
      added := FileOctets(e, f);
      OctetsWeight(added);
    case OnComplete(h) =>
      added := [Ran(h)];
      assert added[1..] == [];
      assert Weight(added) == TokenWeight(added[0]) + Weight(added[1..]);
    case Close =>
      CloseEffect(e, c, false);
      added := [];
  }

  lemma {:induction false} CallsAdd(e: Env, c: Conn, calls: seq<Call>, done: seq<Token>) returns (added: seq<Token>)
    requires !c.phase.Closed? && c.writing && c.nextId < c.sendId && Balanced(e, c, done)
    ensures Moved(c, RunCalls(e, c, calls), [], added) && Weight(added) <= CallsWeight(calls)
    ensures CallsGentle(calls) ==> RunCalls(e, c, calls).phase == c.phase && Gentle(added)
    decreases |calls|
  {
    hide DoCall, Balanced, CallWeight, CallGentle;
    if calls == [] {
      added := [];
    } else {
      var r := DoCall(e, c, calls[0]);
      var first := CallAdds(e, c, calls[0], done);
      var rest: seq<Token> := [];
      if r.phase.Closed? {
        ClosedIsFinal(e, r, calls[1..]);
      } else {
        CallGoesOn(e, c, calls[0], done);
        rest := CallsAdd(e, r, calls[1..], done);
      }
      added := first + rest;
      WeightAppend(first, rest);
      assert c.submitted + first + rest == c.submitted + added;
    }
  }

  /** The stages of a writable event before the last one. */
  lemma HandlerAdds(e: Env, c: Conn) returns (out: seq<Token>, added: seq<Token>)
    requires Mid(e, c)
    ensures Moved(c, RunHandler(e, c), out, added) && c.emitted + out <= c.submitted
    ensures out != [] ==> Weight(added) < Weight(out)
    ensures out == [] ==> added == []
    ensures Gentle(out) ==> RunHandler(e, c).phase == c.phase && Gentle(added)
  {
    HeadsAtLeast(c.q, c.nextId, c.sendId);
    HeadUnique(c.q, c.nextId, c.sendId);
    out, added := [], [];
    if HeadIs(c.q.doneQ, c.nextId) {
      var h := c.q.doneQ[0].1;
      var m := c.(emitted := c.emitted + [Ran(h)]);
      RunningHandler(e, c, h);
      out := [Ran(h)];
      added := CallsAdd(e, m, h.calls, c.emitted);
      assert out[1..] == [] && out[0] in out;
      assert Weight(out) == TokenWeight(out[0]) + Weight(out[1..]);
      assert m.emitted + [] == m.emitted;
    }
  }

  /** The byte and file stages only move octets from the queues to the socket. */
  lemma OctetStages(e: Env, c: Conn, ev: Event) returns (out: seq<Token>)
    requires Mid(e, c) && Moves(ev)
    ensures var c2 := WriteFile(e, WriteBytes(e, c, ev.byteIo), ev.fileIo);
      && Mid(e, c2) && !WriteBytes(e, c, ev.byteIo).phase.Closed?
      && Moved(c, c2, out, []) && c2.phase == c.phase
  {
    hide WriteBytes, WriteFile, Mid;
    WriteBytesKeeps(e, c, ev.byteIo);
    ByteStage(e, c, ev.byteIo);
    var c1 := WriteBytes(e, c, ev.byteIo);
    WriteFileKeeps(e, c1, ev.fileIo);
    FileStage(e, c1, ev.fileIo);
    var c2 := WriteFile(e, c1, ev.fileIo);
    out := c2.emitted[|c.emitted|..];
    assert c2.submitted == c.submitted + [];
  }

  lemma ByteStage(e: Env, c: Conn, io: Io)
    requires !c.phase.Closed? && io.Accepted?
    ensures WriteBytes(e, c, io).submitted == c.submitted && WriteBytes(e, c, io).phase == c.phase
  {
  }

  lemma FileStage(e: Env, c: Conn, io: Io)
    requires !c.phase.Closed? && io.Accepted?
    ensures WriteFile(e, c, io).submitted == c.submitted && WriteFile(e, c, io).phase == c.phase
  {
  }

  /** A productive event on a connection that owes something lowers the weight of what is left. */
  lemma MoveLightens(e: Env, c: Conn, ev: Event)
    requires Inv(e, c) && !c.phase.Closed? && c.nextId < c.sendId && Moves(ev)
    ensures var r := Step(e, c, ev);
      && Inv(e, r) && r.emitted <= r.submitted && c.submitted <= r.submitted
      && Weight(Left(r)) < Weight(Left(c))
      && (Gentle(Left(c)) ==>
            && (r.phase.Closed? ==> c.phase.Closing? && r.emitted == r.submitted)
            && (!r.phase.Closed? ==> r.phase == c.phase && Gentle(Left(r))))
  {
    hide WriteBytes, WriteFile, RunHandler, FinishWrite, Moved, Gentle, Weight, HandleWrite;
    WritableMakesProgress(e, c, ev.byteIo, ev.fileIo);
    HandleWriteKeepsInv(e, c, ev.byteIo, ev.fileIo);
    var out1 := OctetStages(e, c, ev);
    var c2 := WriteFile(e, WriteBytes(e, c, ev.byteIo), ev.fileIo);
    var out2, added := HandlerAdds(e, c2);
    var c3 := RunHandler(e, c2);
    RunHandlerKeeps(e, c2);
    if !c3.phase.Closed? { FinishEffect(e, c3); } else { FinishClosed(e, c3); }
    StagesInOrder(e, c, ev);
    Combine(c, c2, c3, out1, out2, added);
    Lighter(c, c2, c3, FinishWrite(e, c3), out1, out2, added);
  }

  lemma StagesInOrder(e: Env, c: Conn, ev: Event)
    requires Mid(e, c) && Moves(ev)
    requires var c1 := WriteBytes(e, c, ev.byteIo);
      !c1.phase.Closed? && !WriteFile(e, c1, ev.fileIo).phase.Closed?
    ensures Step(e, c, ev) == FinishWrite(e, RunHandler(e, WriteFile(e, WriteBytes(e, c, ev.byteIo), ev.fileIo)))
  {
    hide WriteBytes, WriteFile, RunHandler, FinishWrite;
  }

  lemma FinishClosed(e: Env, c: Conn)
    requires c.phase.Closed?
    ensures var r := FinishWrite(e, c); r.phase.Closed? && r.submitted == c.submitted && r.emitted == c.emitted
  {
  }

  /** The account of one event: octets out, then perhaps a handler that added what its calls say. */
  lemma Lighter(c: Conn, c2: Conn, c3: Conn, r: Conn, out1: seq<Token>, out2: seq<Token>, added: seq<Token>)
    requires c.emitted <= c.submitted && r.emitted <= r.submitted && |c.emitted| < |r.emitted|
    requires Moved(c, c2, out1, []) && Moved(c, c3, out1 + out2, added)
    requires r.emitted == c3.emitted && r.submitted == c3.submitted
    requires if out2 == [] then added == [] else Weight(added) < Weight(out2)
    requires |c.emitted| + |out1| + |out2| <= |c.submitted|
    ensures c.submitted <= r.submitted && Weight(Left(r)) < Weight(Left(c))
    ensures Gentle(Left(c)) ==> Gentle(out2)
    ensures Gentle(Left(c)) && Gentle(added) ==> Gentle(Left(r))
  {
    WeightAtLeast(out1);
    LeftMoved(c, r, out1 + out2, added);
    WeightAppend(out1, out2);
    assert |r.emitted| == |c.emitted| + |out1| + |out2|;
    HeadWasLeft(c, out1, out2, r, added);
    forall t | t in Left(r) ensures t in Left(c) || t in added {
      assert t in (out1 + out2) + Left(r);
    }
  }

  lemma Combine(c: Conn, c2: Conn, c3: Conn, out1: seq<Token>, out2: seq<Token>, added: seq<Token>)
    requires Moved(c, c2, out1, []) && Moved(c2, c3, out2, added) && c2.emitted + out2 <= c2.submitted
    ensures Moved(c, c3, out1 + out2, added)
    ensures |c.emitted| + |out1| + |out2| <= |c.submitted|
  {
    assert c.emitted + out1 + out2 == c.emitted + (out1 + out2);
    assert c.submitted + [] + added == c.submitted + added;
  }

  /** A handler that runs was among what was left. */
  lemma HeadWasLeft(c: Conn, out1: seq<Token>, out2: seq<Token>, r: Conn, added: seq<Token>)
    requires c.emitted <= c.submitted && r.emitted <= r.submitted && Moved(c, r, out1 + out2, added)
    requires |c.emitted| + |out1| + |out2| <= |c.submitted|
    ensures forall t :: t in out2 ==> t in Left(c)
  {
    forall t | t in out2 ensures t in Left(c) {
      var k :| 0 <= k < |out2| && out2[k] == t;
      var i := |c.emitted| + |out1| + k;
      assert r.emitted[i] == t && r.submitted[i] == t && c.submitted[i] == t;
      assert Left(c)[|out1| + k] == t;
    }
  }

  lemma NothingLeft(e: Env, c: Conn)
    requires Inv(e, c) && !c.phase.Closed?
    ensures c.nextId == c.sendId <==> Left(c) == []
    ensures c.emitted == c.submitted <==> Left(c) == []
  {
    assert Left(c) == Pending(e, c.q, c.nextId, c.sendId);
    if c.nextId < c.sendId { assert |Tokens(e, Head(c.q, c.nextId))| > 0; }
  }

  lemma {:induction false} QuietPending(e: Env, q: Queues, id: nat, end: nat)
    requires Aligned(q, id, end) && Quiet(q)
    ensures Weight(Pending(e, q, id, end)) == |Pending(e, q, id, end)|
    decreases end - id
  {
    if id < end {
      var head := Tokens(e, Head(q, id));
      QuietPending(e, Tail(q, id), id + 1, end);
      WeightAppend(head, Pending(e, Tail(q, id), id + 1, end));
      if Head(q, id).Callback? {
        assert |head| == 1 && head[1..] == [] && head[0].handler.calls == [];
        assert CallsWeight(head[0].handler.calls) == 0;
        assert HandlerWeight(head[0].handler) == 1;
        assert Weight(head) == TokenWeight(head[0]) + Weight(head[1..]);
      } else {
        OctetsWeight(head);
      }
    }
  }

  /** Handlers that make no calls weigh one token each. */
  lemma QuietWeight(e: Env, c: Conn)
    requires Inv(e, c) && !c.phase.Closed? && Quiet(c.q)
    ensures Weight(Left(c)) == |Left(c)|
  {
    QuietPending(e, c.q, c.nextId, c.sendId);
    assert Left(c) == Pending(e, c.q, c.nextId, c.sendId);
  }

  /** As many productive writable events as there are tokens left, those nested in handlers
      included, drain a connection: it is closed, or connected with everything out. If no handler
      closes it, everything is out and it has closed exactly if a close was pending; if no handler
      makes calls, nothing was added. */
  lemma {:induction false} DrainCompletes(e: Env, c: Conn, evs: seq<Event>)
    requires Inv(e, c) && !c.phase.Closed?
    requires forall i :: 0 <= i < |evs| ==> Moves(evs[i])
    requires |evs| >= Weight(Left(c))
    ensures var r := Run(e, c, evs);
      && (r.phase.Closed? || (r.phase.Connected? && r.nextId == r.sendId && r.emitted == r.submitted))
      && (Gentle(Left(c)) ==> r.emitted == r.submitted && (r.phase.Closed? <==> c.phase.Closing?))
      && (Quiet(c.q) ==> r.emitted == c.submitted)
    decreases |evs|
  {
    NothingLeft(e, c);
    if c.nextId < c.sendId {
      WeightAtLeast(Left(c));
      var r := Step(e, c, evs[0]);
      MoveLightens(e, c, evs[0]);
      if Quiet(c.q) { QuietWrite(e, c, evs[0]); }
      if r.phase.Closed? { ClosedIgnoresWritable(e, r, evs[1..]); } else { DrainCompletes(e, r, evs[1..]); }
    } else {
      if evs != [] {
        assert Step(e, c, evs[0]) == c;
        DrainCompletes(e, c, evs[1..]);
      }
    }
  }
}
