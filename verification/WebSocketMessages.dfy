/** Every message of every stream (src/websocket/ws-server.cc:65-91, 267-344): the messages delivered
    are the groups of frames between one final frame and the next, in order, none left out. */
module WebSocketMessages {
  import opened Bytes
  import opened WebSocketCodec
  import opened WebSocket

  /** Frame j completes a message: it is final and not a close, ping or pong. */
  predicate EndsMessage(fs: seq<Frame>, j: nat) {
    j < |fs| && fs[j].fin && CodeOf(fs[j].opcode).Ok?
  }

  /** The first frame of the group that frame j belongs to: the one behind the last final frame. */
  function Opener(fs: seq<Frame>, j: nat): (i: nat)
    requires j < |fs|
    ensures i <= j && (i == 0 || fs[i - 1].fin) && forall m :: i <= m < j ==> !fs[m].fin
  {
    if j == 0 || fs[j - 1].fin then j else Opener(fs, j - 1)
  }

  predicate TypeFits(opcode: int, isBinary: bool) {
    (opcode == 1 ==> !isBinary) && (opcode == 2 ==> isBinary)
  }

  /** The event is the message of the group that ends at frame j: the payloads from its opening frame
      to its final one, with the type that the opening frame declares. */
  predicate Tells(fs: seq<Frame>, j: nat, e: Event)
    requires j < |fs|
  {
    e.Message? && e.data == Payloads(fs[Opener(fs, j)..j + 1]) && TypeFits(fs[Opener(fs, j)].opcode, e.isBinary)
  }

  /** The frames handled before a close or an error ends the session. */
  function Taken(c: Ctx, fs: seq<Frame>): (n: nat)
    ensures n <= |fs|
    decreases |fs|
  {
    if fs == [] || !FragmentationOk(c.rcvFragment, fs[0].fin, fs[0].opcode) || fs[0].opcode == 8 then 0
    else 1 + Taken(Receive(c, fs[0].fin, fs[0].opcode, fs[0].payload), fs[1..])
  }

  function MessagesOf(es: seq<Event>): seq<Event> {
    if es == [] then [] else (if es[0].Message? then [es[0]] else []) + MessagesOf(es[1..])
  }

  /** The frames from n up to m that complete a message. */
  function Ends(fs: seq<Frame>, n: nat, m: nat): (js: seq<nat>)
    ensures forall j :: j in js <==> n <= j < m && EndsMessage(fs, j)
    decreases m - n
  {
    if n >= m then [] else (if EndsMessage(fs, n) then [n] else []) + Ends(fs, n + 1, m)
  }

  lemma EndsIncrease(fs: seq<Frame>, n: nat, m: nat)
    ensures forall a, b :: 0 <= a < b < |Ends(fs, n, m)| ==> Ends(fs, n, m)[a] < Ends(fs, n, m)[b]
    decreases m - n
  {
    hide EndsMessage;
    if n < m {
      EndsIncrease(fs, n + 1, m);
      var js, tail := Ends(fs, n, m), Ends(fs, n + 1, m);
      if EndsMessage(fs, n) {
        forall a, b | 0 <= a < b < |js| ensures js[a] < js[b] {
          assert js[b] == tail[b - 1] && tail[b - 1] in tail;
        }
      } else {
        assert js == tail;
      }
    }
  }

  /** Message k is that of the k-th completed group. */
  predicate Matches(fs: seq<Frame>, js: seq<nat>, ms: seq<Event>) {
    |ms| == |js| && forall k :: 0 <= k < |js| ==> js[k] < |fs| && Tells(fs, js[k], ms[k])
  }

  /** The context between frame n - 1 and frame n. */
  predicate Standing(fs: seq<Frame>, n: nat, c: Ctx)
    requires n <= |fs|
  {
    && (c.rcvFragment <==> n > 0 && !fs[n - 1].fin)
    && (c.rcvFragment ==>
          && c.decoded == Payloads(fs[Opener(fs, n - 1)..n])
          && TypeFits(fs[Opener(fs, n - 1)].opcode, c.isBinary))
  }

  lemma PayloadsSnoc(fs: seq<Frame>, f: Frame)
    ensures Payloads(fs + [f]) == Payloads(fs) + f.payload
  {
    if fs == [] {
      assert (fs + [f])[1..] == [] && fs + [f] == [f];
    } else {
      assert (fs + [f])[0] == fs[0] && (fs + [f])[1..] == fs[1..] + [f];
      PayloadsSnoc(fs[1..], f);
    }
  }

  /** The octets of the group that frame n belongs to, with it. */
  lemma GroupPayloads(fs: seq<Frame>, n: nat)
    requires n < |fs|
    ensures Payloads(fs[Opener(fs, n)..n + 1]) ==
      if n == 0 || fs[n - 1].fin then fs[n].payload else Payloads(fs[Opener(fs, n - 1)..n]) + fs[n].payload
  {
    var i := Opener(fs, n);
    assert fs[i..n + 1] == fs[i..n] + [fs[n]];
    PayloadsSnoc(fs[i..n], fs[n]);
    if n == 0 || fs[n - 1].fin { assert fs[i..n] == [] && [] + fs[n].payload == fs[n].payload; }
  }

  /** An accepted frame continues the open group or opens the next. */
  lemma GroupGrows(fs: seq<Frame>, n: nat, c: Ctx)
    requires n < |fs| && Standing(fs, n, c) && FragmentationOk(c.rcvFragment, fs[n].fin, fs[n].opcode)
    ensures var c' := Receive(c, fs[n].fin, fs[n].opcode, fs[n].payload);
      && c'.decoded == Payloads(fs[Opener(fs, n)..n + 1])
      && TypeFits(fs[Opener(fs, n)].opcode, c'.isBinary)
      && Standing(fs, n + 1, c')
  {
    GroupPayloads(fs, n);
    hide Payloads;
  }

  lemma SeenFirst(es: seq<Event>, rest: seq<Event>)
    requires |es| <= 1
    ensures MessagesOf(es + rest) == (if es != [] && es[0].Message? then es else []) + MessagesOf(rest)
  {
    if es == [] { assert es + rest == rest; } else { assert (es + rest)[1..] == rest; }
  }

  lemma MatchesCons(fs: seq<Frame>, j: nat, e: Event, js: seq<nat>, ms: seq<Event>)
    requires j < |fs| && Tells(fs, j, e) && Matches(fs, js, ms)
    ensures Matches(fs, [j] + js, [e] + ms)
  {
    hide Tells;
  }

  /** One frame that is taken. */
  lemma DeliverStep(c: Ctx, fs: seq<Frame>)
    requires fs != [] && FragmentationOk(c.rcvFragment, fs[0].fin, fs[0].opcode) && fs[0].opcode != 8
    ensures var c' := Receive(c, fs[0].fin, fs[0].opcode, fs[0].payload);
      && Taken(c, fs) == 1 + Taken(c', fs[1..])
      && Deliver(c, fs).events == Seen(CodeOf(fs[0].opcode), c') + Deliver(c', fs[1..]).events
  {
    hide Receive, Seen, CodeOf;
  }

  lemma {:induction false} DeliveredFrom(fs: seq<Frame>, n: nat, c: Ctx)
    requires n <= |fs| && Standing(fs, n, c)
    ensures Matches(fs, Ends(fs, n, n + Taken(c, fs[n..])), MessagesOf(Deliver(c, fs[n..]).events))
    decreases |fs| - n
  {
    hide Standing, Deliver, Taken, Tells, Matches, MessagesOf, Receive, Payloads;
    var rest := fs[n..];
    if rest != [] && FragmentationOk(c.rcvFragment, fs[n].fin, fs[n].opcode) && fs[n].opcode != 8 {
      var c' := Receive(c, fs[n].fin, fs[n].opcode, fs[n].payload);
      assert rest[0] == fs[n] && rest[1..] == fs[n + 1..];
      GroupGrows(fs, n, c);
      DeliverStep(c, rest);
      DeliveredFrom(fs, n + 1, c');
      Reopened(c, fs[n]);
      TakeOne(fs, n, c', Deliver(c', fs[n + 1..]).events, n + 1 + Taken(c', fs[n + 1..]));
    } else {
      NothingTaken(c, rest);
      NoMatches(fs);
    }
  }

  lemma Reopened(c: Ctx, f: Frame)
    ensures Receive(c, f.fin, f.opcode, f.payload).rcvFragment == !f.fin
  {
  }

  lemma NoMatches(fs: seq<Frame>)
    ensures Matches(fs, [], [])
  {
  }

  lemma NothingTaken(c: Ctx, fs: seq<Frame>)
    requires fs == [] || !FragmentationOk(c.rcvFragment, fs[0].fin, fs[0].opcode) || fs[0].opcode == 8
    ensures Taken(c, fs) == 0 && MessagesOf(Deliver(c, fs).events) == []
  {
    assert MessagesOf([ErrorSeen]) == [] by { assert [ErrorSeen][1..] == []; }
    assert MessagesOf([CloseSeen]) == [] by { assert [CloseSeen][1..] == []; }
  }

  lemma TakeOne(fs: seq<Frame>, n: nat, c: Ctx, rest: seq<Event>, m: nat)
    requires n < |fs| && n < m && fs[n].opcode != 8 && c.rcvFragment == !fs[n].fin
    requires c.decoded == Payloads(fs[Opener(fs, n)..n + 1]) && TypeFits(fs[Opener(fs, n)].opcode, c.isBinary)
    requires Matches(fs, Ends(fs, n + 1, m), MessagesOf(rest))
    ensures Matches(fs, Ends(fs, n, m), MessagesOf(Seen(CodeOf(fs[n].opcode), c) + rest))
  {
    hide Matches, MessagesOf, Payloads;
    var seen, js, ms := Seen(CodeOf(fs[n].opcode), c), Ends(fs, n + 1, m), MessagesOf(rest);
    SeenFirst(seen, rest);
    if EndsMessage(fs, n) {
      MatchesCons(fs, n, seen[0], js, ms);
      assert Ends(fs, n, m) == [n] + js && seen == [seen[0]];
    } else {
      assert Ends(fs, n, m) == [] + js == js && [] + ms == ms;
    }
  }

  /** On every stream of frames, up to the first close or error: the messages delivered are those of
      the groups that are completed, in order, each the concatenation of the payloads from its
      opening frame to its final one. */
  lemma MessagesAreGroups(c: Ctx, fs: seq<Frame>)
    requires !c.rcvFragment
    ensures Matches(fs, Ends(fs, 0, Taken(c, fs)), MessagesOf(Deliver(c, fs).events))
  {
    assert fs[0..] == fs;
    DeliveredFrom(fs, 0, c);
  }

  /** The same for octets in any reads. */
  lemma MessagesInAnyReads(c: Ctx, fs: seq<Frame>, pieces: seq<seq<byte>>)
    requires !c.rcvFragment && (forall i :: 0 <= i < |fs| ==> FrameOk(fs[i])) && Flatten(pieces) == FramesText(fs)
    ensures Matches(fs, Ends(fs, 0, Taken(c, fs)), MessagesOf(ReadAll(Session(c, [], false), pieces).events))
  {
    FramesInAnyReads(c, fs, pieces);
    MessagesAreGroups(c, fs);
  }

  lemma MessageKept(es: seq<Event>, e: Event)
    requires e in es && e.Message?
    ensures e in MessagesOf(es)
  {
    if es[0] != e { MessageKept(es[1..], e); }
  }

  /** Any single message: it is the concatenation of the payloads of some frames i to j of the stream,
      of which only j is final, and i stands behind a final frame or first. */
  lemma EachMessage(c: Ctx, fs: seq<Frame>, k: nat) returns (i: nat, j: nat)
    requires !c.rcvFragment && k < |Deliver(c, fs).events| && Deliver(c, fs).events[k].Message?
    ensures i <= j < |fs| && fs[j].fin && (i == 0 || fs[i - 1].fin) && forall m :: i <= m < j ==> !fs[m].fin
    ensures Deliver(c, fs).events[k].data == Payloads(fs[i..j + 1])
    ensures fs[i].opcode == 1 || fs[i].opcode == 2 ==> Deliver(c, fs).events[k].isBinary == (fs[i].opcode == 2)
  {
    hide Deliver, Taken, Payloads, Ends, MessagesOf, Opener;
    var es := Deliver(c, fs).events;
    MessagesAreGroups(c, fs);
    MessageKept(es, es[k]);
    var js, ms := Ends(fs, 0, Taken(c, fs)), MessagesOf(es);
    var at :| 0 <= at < |ms| && ms[at] == es[k];
    assert js[at] in js && Tells(fs, js[at], ms[at]);
    j := js[at];
    i := Opener(fs, j);
  }
}
