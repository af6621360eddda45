/** The poll and select back ends of the reactor (src/poll.cc, src/select.cc) and the interest flags
    of a channel (src/channel.cc). Both back ends keep the same map from descriptors to the events
    of interest. */
module Dispatch {

  datatype Event = Read | Write | Error

  /** The two events that a back end can be asked for. */
  function Wanted(events: set<Event>): set<Event> { events * {Read, Write} }

  type Interest = map<nat, set<Event>>

  function Add(m: Interest, fd: nat, events: set<Event>): Interest {
    m[fd := (if fd in m then m[fd] else {}) + Wanted(events)]
  }

  function Remove(m: Interest, fd: nat, events: set<Event>): Interest {
    if fd !in m then m
    else if m[fd] - Wanted(events) == {} then m - {fd}
    else m[fd := m[fd] - Wanted(events)]
  }

  datatype Call = AddCall(fd: nat, events: set<Event>) | RemoveCall(fd: nat, events: set<Event>)

  function Apply(m: Interest, c: Call): Interest {
    match c
    case AddCall(fd, events) => Add(m, fd, events)
    case RemoveCall(fd, events) => Remove(m, fd, events)
  }

  /** All calls in order. */
  function After(calls: seq<Call>): Interest {
    if calls == [] then map[] else Apply(After(calls[..|calls| - 1]), calls[|calls| - 1])
  }

  predicate Watched(m: Interest, fd: nat, e: Event) { fd in m && e in m[fd] }

  /** Call i asks for the event and no later call takes it back. */
  predicate AskedLast(calls: seq<Call>, i: nat, fd: nat, e: Event)
    requires i < |calls|
  {
    && calls[i].AddCall? && calls[i].fd == fd && e in Wanted(calls[i].events)
    && forall j :: i < j < |calls| ==> !(calls[j].RemoveCall? && calls[j].fd == fd && e in calls[j].events)
  }

  /** An event is watched if and only if the last call about it asked for it. */
  lemma {:induction false} WatchedMeans(calls: seq<Call>, fd: nat, e: Event)
    ensures Watched(After(calls), fd, e) <==> exists i :: 0 <= i < |calls| && AskedLast(calls, i, fd, e)
  {
    if calls != [] {
      var n := |calls| - 1;
      var before, c := calls[..n], calls[n];
      WatchedMeans(before, fd, e);
      assert forall i :: 0 <= i < n ==> before[i] == calls[i];
      NeverError(before, fd);
      ApplyWatched(After(before), c, fd, e);
      hide Apply, Watched;
      if c.AddCall? && c.fd == fd && e in Wanted(c.events) {
        assert AskedLast(calls, n, fd, e);
      } else if !(c.RemoveCall? && c.fd == fd && e in c.events) {
        assert forall i :: 0 <= i < n ==> AskedLast(before, i, fd, e) == AskedLast(calls, i, fd, e);
      }
    }
  }

  lemma ApplyWatched(m: Interest, c: Call, fd: nat, e: Event)
    requires !Watched(m, fd, Error)
    ensures Watched(Apply(m, c), fd, e) <==>
      if c.AddCall? && c.fd == fd && e in Wanted(c.events) then true
      else if c.RemoveCall? && c.fd == fd && e in c.events then false
      else Watched(m, fd, e)
  {
    if c.RemoveCall? && c.fd == fd && fd in m {
      var left := m[fd] - Wanted(c.events);
      assert e in left <==> e in m[fd] && e !in Wanted(c.events);
    }
  }

  lemma NeverError(calls: seq<Call>, fd: nat)
    ensures !Watched(After(calls), fd, Error)
  {
    if calls != [] { NeverError(calls[..|calls| - 1], fd); }
  }

  /** A back end knows no descriptor without an event, unless one was added for no event. */
  lemma {:induction false} NoIdleEntry(calls: seq<Call>)
    requires forall c :: c in calls && c.AddCall? ==> Wanted(c.events) != {}
    ensures forall fd :: fd in After(calls) ==> After(calls)[fd] != {}
  {
    if calls != [] {
      var c := calls[|calls| - 1];
      assert forall x :: x in calls[..|calls| - 1] ==> x in calls;
      NoIdleEntry(calls[..|calls| - 1]);
      assert c in calls;
      if c.AddCall? {
        var e :| e in Wanted(c.events);
        assert e in Add(After(calls[..|calls| - 1]), c.fd, c.events)[c.fd];
      }
    }
  }

  // ---------------------------------------------------------------- poll

  datatype PollFd = PollFd(fd: nat, events: set<Event>)

  /** The vector and the position of each descriptor in it. */
  datatype PollState = PollState(pollfds: seq<PollFd>, indexs: map<nat, nat>)

  /** The index is a bijection onto the slots. */
  predicate PollInv(p: PollState) {
    && (forall fd :: fd in p.indexs ==> p.indexs[fd] < |p.pollfds| && p.pollfds[p.indexs[fd]].fd == fd)
    && forall i :: 0 <= i < |p.pollfds| ==> p.pollfds[i].fd in p.indexs && p.indexs[p.pollfds[i].fd] == i
  }

  function PollInterest(p: PollState): Interest
    requires PollInv(p)
  {
    map fd | fd in p.indexs :: p.pollfds[p.indexs[fd]].events
  }

  function PollAdd(p: PollState, fd: nat, events: set<Event>): PollState
    requires PollInv(p)
  {
    if fd !in p.indexs then
      PollState(p.pollfds + [PollFd(fd, Wanted(events))], p.indexs[fd := |p.pollfds|])
    else
      var i := p.indexs[fd];
      p.(pollfds := p.pollfds[i := PollFd(fd, p.pollfds[i].events + Wanted(events))])
  }

  /** The last slot moves into the place of an emptied one. */
  function PollRemove(p: PollState, fd: nat, events: set<Event>): PollState
    requires PollInv(p)
  {
    if fd !in p.indexs then p
    else
      var i, last := p.indexs[fd], |p.pollfds| - 1;
      var left := p.pollfds[i].events - Wanted(events);
      if left != {} then p.(pollfds := p.pollfds[i := PollFd(fd, left)])
      else PollState(p.pollfds[i := p.pollfds[last]][..last], p.indexs[p.pollfds[last].fd := i] - {fd})
  }

  /** A slot gets other events. */
  lemma SlotChanged(p: PollState, fd: nat, events: set<Event>)
    requires PollInv(p) && fd in p.indexs
    ensures var q := p.(pollfds := p.pollfds[p.indexs[fd] := PollFd(fd, events)]);
      PollInv(q) && PollInterest(q) == PollInterest(p)[fd := events]
  {
  }

  /** The last slot takes the place of the one of `fd`. */
  lemma SlotDropped(p: PollState, fd: nat)
    requires PollInv(p) && fd in p.indexs
    ensures var i, last := p.indexs[fd], |p.pollfds| - 1;
      var q := PollState(p.pollfds[i := p.pollfds[last]][..last], p.indexs[p.pollfds[last].fd := i] - {fd});
      PollInv(q) && PollInterest(q) == PollInterest(p) - {fd}
  {
    var i, last := p.indexs[fd], |p.pollfds| - 1;
    var q := PollState(p.pollfds[i := p.pollfds[last]][..last], p.indexs[p.pollfds[last].fd := i] - {fd});
    assert p.pollfds[last].fd == fd <==> i == last;
    assert PollInv(q);
  }

  lemma PollAddRefines(p: PollState, fd: nat, events: set<Event>)
    requires PollInv(p)
    ensures PollInv(PollAdd(p, fd, events))
    ensures PollInterest(PollAdd(p, fd, events)) == Add(PollInterest(p), fd, events)
  {
    hide Wanted;
    if fd in p.indexs {
      SlotChanged(p, fd, p.pollfds[p.indexs[fd]].events + Wanted(events));
    } else {
      assert {} + Wanted(events) == Wanted(events);
    }
  }

  lemma PollRemoveRefines(p: PollState, fd: nat, events: set<Event>)
    requires PollInv(p)
    ensures PollInv(PollRemove(p, fd, events))
    ensures PollInterest(PollRemove(p, fd, events)) == Remove(PollInterest(p), fd, events)
  {
    hide Wanted;
    if fd in p.indexs {
      SlotChanged(p, fd, p.pollfds[p.indexs[fd]].events - Wanted(events));
      SlotDropped(p, fd);
      hide PollInv;
    }
  }

  // ---------------------------------------------------------------- select

  /** Descriptor sets hold descriptors below this bound. */
  const FD_SETSIZE := 1024

  datatype SelectState = SelectState(rdset: set<nat>, wrset: set<nat>, fds: set<nat>, maxfd: int)

  predicate SelectInv(s: SelectState) {
    && s.rdset <= s.fds && s.wrset <= s.fds && -1 <= s.maxfd < FD_SETSIZE
    && forall fd :: fd in s.fds ==> fd <= s.maxfd
  }

  function SelectInterest(s: SelectState): Interest {
    map fd | fd in s.fds :: Ready(s.rdset, s.wrset, fd)
  }

  function Ready(rd: set<nat>, wr: set<nat>, fd: nat): (r: set<Event>)
    ensures (Read in r <==> fd in rd) && (Write in r <==> fd in wr) && Error !in r
    ensures r == {} <==> fd !in rd && fd !in wr
  {
    (if fd in rd then {Read} else {}) + (if fd in wr then {Write} else {})
  }

  function SelectAdd(s: SelectState, fd: nat, events: set<Event>): SelectState {
    SelectState(
      if Read in events then s.rdset + {fd} else s.rdset,
      if Write in events then s.wrset + {fd} else s.wrset,
      s.fds + {fd},
      if fd !in s.fds && fd > s.maxfd then fd else s.maxfd)
  }

  function SelectRemove(s: SelectState, fd: nat, events: set<Event>): SelectState {
    var rdset := if Read in events then s.rdset - {fd} else s.rdset;
    var wrset := if Write in events then s.wrset - {fd} else s.wrset;
    if fd !in rdset && fd !in wrset then
      SelectState(rdset, wrset, s.fds - {fd}, if fd == s.maxfd then s.maxfd - 1 else s.maxfd)
    else SelectState(rdset, wrset, s.fds, s.maxfd)
  }

  lemma SameEvents(a: set<Event>, b: set<Event>)
    requires (Read in a <==> Read in b) && (Write in a <==> Write in b) && (Error in a <==> Error in b)
    ensures a == b
  {
    forall e ensures e in a <==> e in b { match e case Read => case Write => case Error => }
  }

  /** `maxfd` stays an upper bound even though it only steps down by one. */
  lemma SelectAddRefines(s: SelectState, fd: nat, events: set<Event>)
    requires SelectInv(s) && fd < FD_SETSIZE
    ensures SelectInv(SelectAdd(s, fd, events))
    ensures SelectInterest(SelectAdd(s, fd, events)) == Add(SelectInterest(s), fd, events)
  {
    hide Ready;
    var r := SelectAdd(s, fd, events);
    SameEvents(Ready(r.rdset, r.wrset, fd), Ready(s.rdset, s.wrset, fd) + Wanted(events));
    assert fd !in s.fds ==> Ready(s.rdset, s.wrset, fd) == {};
    forall k | k != fd ensures Ready(r.rdset, r.wrset, k) == Ready(s.rdset, s.wrset, k) {
      SameEvents(Ready(r.rdset, r.wrset, k), Ready(s.rdset, s.wrset, k));
    }
  }

  lemma SelectRemoveRefines(s: SelectState, fd: nat, events: set<Event>)
    requires SelectInv(s)
    ensures SelectInv(SelectRemove(s, fd, events))
    ensures SelectInterest(SelectRemove(s, fd, events)) == Remove(SelectInterest(s), fd, events)
  {
    hide Ready;
    var r := SelectRemove(s, fd, events);
    SameEvents(Ready(r.rdset, r.wrset, fd), Ready(s.rdset, s.wrset, fd) - Wanted(events));
    forall k | k != fd ensures Ready(r.rdset, r.wrset, k) == Ready(s.rdset, s.wrset, k) {
      SameEvents(Ready(r.rdset, r.wrset, k), Ready(s.rdset, s.wrset, k));
    }
  }

  // ---------------------------------------------------------------- both

  function PollApply(p: PollState, c: Call): (r: PollState)
    requires PollInv(p)
    ensures PollInv(r) && PollInterest(r) == Apply(PollInterest(p), c)
  {
    match c
    case AddCall(fd, events) => PollAddRefines(p, fd, events); PollAdd(p, fd, events)
    case RemoveCall(fd, events) => PollRemoveRefines(p, fd, events); PollRemove(p, fd, events)
  }

  function SelectApply(s: SelectState, c: Call): (r: SelectState)
    requires SelectInv(s) && c.fd < FD_SETSIZE
    ensures SelectInv(r) && SelectInterest(r) == Apply(SelectInterest(s), c)
  {
    match c
    case AddCall(fd, events) => SelectAddRefines(s, fd, events); SelectAdd(s, fd, events)
    case RemoveCall(fd, events) => SelectRemoveRefines(s, fd, events); SelectRemove(s, fd, events)
  }

  function PollRun(p: PollState, calls: seq<Call>): (r: PollState)
    requires PollInv(p)
    ensures PollInv(r)
    decreases |calls|
  {
    if calls == [] then p else PollRun(PollApply(p, calls[0]), calls[1..])
  }

  function SelectRun(s: SelectState, calls: seq<Call>): (r: SelectState)
    requires SelectInv(s) && forall c :: c in calls ==> c.fd < FD_SETSIZE
    ensures SelectInv(r)
    decreases |calls|
  {
    if calls == [] then s else SelectRun(SelectApply(s, calls[0]), calls[1..])
  }

  const NO_POLL := PollState([], map[])
  const NO_SELECT := SelectState({}, {}, {}, -1)

  function Run(m: Interest, calls: seq<Call>): Interest
    decreases |calls|
  {
    if calls == [] then m else Run(Apply(m, calls[0]), calls[1..])
  }

  lemma AfterSnoc(calls: seq<Call>, c: Call)
    ensures After(calls + [c]) == Apply(After(calls), c)
  {
    var next := calls + [c];
    assert next[..|next| - 1] == calls;
  }

  lemma RunIsAfter(calls: seq<Call>, more: seq<Call>)
    ensures Run(After(calls), more) == After(calls + more)
    decreases |more|
  {
    hide Apply, After;
    if more == [] {
      assert calls + more == calls;
    } else {
      AfterSnoc(calls, more[0]);
      RunIsAfter(calls + [more[0]], more[1..]);
      assert calls + [more[0]] + more[1..] == calls + more;
    }
  }

  lemma {:induction false} PollRunRefines(p: PollState, calls: seq<Call>)
    requires PollInv(p)
    ensures PollInterest(PollRun(p, calls)) == Run(PollInterest(p), calls)
    decreases |calls|
  {
    hide PollInterest, PollInv;
    if calls != [] { PollRunRefines(PollApply(p, calls[0]), calls[1..]); }
  }

  lemma {:induction false} SelectRunRefines(s: SelectState, calls: seq<Call>)
    requires SelectInv(s) && forall c :: c in calls ==> c.fd < FD_SETSIZE
    ensures SelectInterest(SelectRun(s, calls)) == Run(SelectInterest(s), calls)
    decreases |calls|
  {
    hide SelectInterest, SelectInv;
    if calls != [] { SelectRunRefines(SelectApply(s, calls[0]), calls[1..]); }
  }

  /** After every sequence of calls the two back ends watch the same events of the same
      descriptors, and these are the ones last asked for. */
  lemma BackendsAgree(calls: seq<Call>)
    requires forall c :: c in calls ==> c.fd < FD_SETSIZE
    ensures PollInterest(PollRun(NO_POLL, calls)) == After(calls)
    ensures SelectInterest(SelectRun(NO_SELECT, calls)) == After(calls)
  {
    PollRunRefines(NO_POLL, calls);
    SelectRunRefines(NO_SELECT, calls);
    RunIsAfter([], calls);
    assert [] + calls == calls;
    assert PollInterest(NO_POLL) == map[] && SelectInterest(NO_SELECT) == map[];
  }

  // ---------------------------------------------------------------- waiting

  datatype PollBit = In | Out | Err | Hup | Nval

  /** `evret`. */
  function Evret(r: set<PollBit>): set<Event> {
    if r == {In, Hup} then {Read, Write}
    else (if In in r then {Read} else {}) + (if Out in r then {Write} else {}) + (if Err in r then {Error} else {})
  }

  /** A readiness report without any of the three reported bits triggers no handler: a hang-up alone
      is delivered to nobody. */
  lemma HangupIgnored(r: set<PollBit>)
    ensures Evret(r) == {} <==> In !in r && Out !in r && Err !in r
  {
    if In in r { assert Read in Evret(r); }
    if Out in r { assert Write in Evret(r); }
    if Err in r { assert Error in Evret(r); }
  }

  /** The event of each bit. A report of POLLIN and POLLHUP alone, as of a failed connect, counts as
      readable and writable. */
  lemma EventPerBit(r: set<PollBit>)
    ensures Read in Evret(r) <==> In in r
    ensures Write in Evret(r) <==> Out in r || (In in r && Hup in r && Err !in r && Nval !in r)
    ensures Error in Evret(r) <==> Err in r
  {
    if In in r && Hup in r && Err !in r && Nval !in r && Out !in r {
      forall b ensures b in r <==> b in {In, Hup} { match b case In => case Out => case Err => case Hup => case Nval => }
      assert r == {In, Hup};
    }
  }

  /** The slots with a report, in order. */
  function Reported(fds: seq<PollFd>, rev: seq<set<PollBit>>): seq<(nat, set<Event>)>
    requires |fds| == |rev|
  {
    if fds == [] then []
    else (if rev[0] != {} then [(fds[0].fd, Evret(rev[0]))] else []) + Reported(fds[1..], rev[1..])
  }

  /** What slot i adds to the reports. */
  lemma ReportNext(fds: seq<PollFd>, rev: seq<set<PollBit>>, i: nat, active: seq<(nat, set<Event>)>)
    requires |fds| == |rev| && i < |fds|
    ensures var tail := Reported(fds[i + 1..], rev[i + 1..]);
      && |Reported(fds[i..], rev[i..])| == |tail| + (if rev[i] != {} then 1 else 0)
      && active + Reported(fds[i..], rev[i..])
        == (if rev[i] != {} then active + [(fds[i].fd, Evret(rev[i]))] else active) + tail
  {
    hide Evret;
    assert fds[i..][1..] == fds[i + 1..] && rev[i..][1..] == rev[i + 1..];
  }

  /** Every report reaches the channel of its descriptor, and nothing else does. */
  lemma {:induction false} ReportedMeans(fds: seq<PollFd>, rev: seq<set<PollBit>>, fd: nat, t: set<Event>)
    requires |fds| == |rev|
    ensures (fd, t) in Reported(fds, rev) <==>
      exists i :: 0 <= i < |fds| && fds[i].fd == fd && rev[i] != {} && t == Evret(rev[i])
  {
    if fds != [] {
      ReportedMeans(fds[1..], rev[1..], fd, t);
      assert forall i :: 0 <= i < |fds| - 1 ==> fds[1..][i] == fds[i + 1] && rev[1..][i] == rev[i + 1];
      if exists i :: 0 <= i < |fds| && fds[i].fd == fd && rev[i] != {} && t == Evret(rev[i]) {
        var i :| 0 <= i < |fds| && fds[i].fd == fd && rev[i] != {} && t == Evret(rev[i]);
        if i > 0 { assert fds[1..][i - 1].fd == fd && rev[1..][i - 1] == rev[i]; }
      }
    }
  }

  class PollBase {
    var pollfds: seq<PollFd>
    var indexs: map<nat, nat>

    function Abs(): PollState
      reads this
    {
      PollState(pollfds, indexs)
    }

    constructor ()
      ensures Abs() == NO_POLL
    {
      pollfds, indexs := [], map[];
    }

    method AddFd(fd: nat, events: set<Event>)
      requires PollInv(Abs())
      modifies this
      ensures PollInv(Abs()) && PollInterest(Abs()) == Add(old(PollInterest(Abs())), fd, events)
      ensures Abs() == PollAdd(old(Abs()), fd, events)
    {
      PollAddRefines(Abs(), fd, events);
      if fd !in indexs {
        pollfds := pollfds + [PollFd(fd, Wanted(events))];
        indexs := indexs[fd := |pollfds| - 1];
      } else {
        var it := indexs[fd];
        pollfds := pollfds[it := PollFd(fd, pollfds[it].events + Wanted(events))];
      }
    }

    method RemoveFd(fd: nat, events: set<Event>)
      requires PollInv(Abs())
      modifies this
      ensures PollInv(Abs()) && PollInterest(Abs()) == Remove(old(PollInterest(Abs())), fd, events)
      ensures Abs() == PollRemove(old(Abs()), fd, events)
    {
      PollRemoveRefines(Abs(), fd, events);
      if fd !in indexs { return; }
      var it := indexs[fd];
      pollfds := pollfds[it := PollFd(fd, pollfds[it].events - Wanted(events))];
      if pollfds[it].events == {} {
        var last := |pollfds| - 1;
        indexs := indexs[pollfds[last].fd := it];
        indexs := indexs - {fd};
        pollfds := pollfds[it := pollfds[last]][last := pollfds[it]];
        pollfds := pollfds[..last];
        assert Abs() == PollRemove(old(Abs()), fd, events);
      }
    }

    /** `rev` is what the kernel reports for each slot, `nevents` how many slots it reports on. */
    method Wait(rev: seq<set<PollBit>>, nevents: int) returns (active: seq<(nat, set<Event>)>)
      requires |rev| == |pollfds|
      requires nevents > 0 ==> nevents == |Reported(pollfds, rev)|
      ensures active == if nevents > 0 then Reported(pollfds, rev) else []
    {
      active := [];
      if nevents > 0 {
        hide Evret, Reported;
        var left := nevents;
        assert pollfds[0..] == pollfds && rev[0..] == rev;
        for i := 0 to |pollfds|
          invariant left > 0 && left == |Reported(pollfds[i..], rev[i..])|
          invariant active + Reported(pollfds[i..], rev[i..]) == Reported(pollfds, rev)
        {
          ReportNext(pollfds, rev, i, active);
          if rev[i] != {} {
            active := active + [(pollfds[i].fd, Evret(rev[i]))];
            left := left - 1;
            if left == 0 { return; }
          }
        }
        NoSlots();
      }
    }
  }

  lemma NoSlots()
    ensures |Reported([], [])| == 0
  {
  }

  class SelectBase {
    var rdset: set<nat>
    var wrset: set<nat>
    var fds: set<nat>
    var maxfd: int

    function Abs(): SelectState
      reads this
    {
      SelectState(rdset, wrset, fds, maxfd)
    }

    constructor ()
      ensures Abs() == NO_SELECT
    {
      rdset, wrset, fds, maxfd := {}, {}, {}, -1;
    }

    method AddFd(fd: nat, events: set<Event>)
      requires SelectInv(Abs()) && fd < FD_SETSIZE
      modifies this
      ensures SelectInv(Abs()) && SelectInterest(Abs()) == Add(old(SelectInterest(Abs())), fd, events)
      ensures Abs() == SelectAdd(old(Abs()), fd, events)
    {
      SelectAddRefines(Abs(), fd, events);
      if Read in events { rdset := rdset + {fd}; }
      if Write in events { wrset := wrset + {fd}; }
      if fd !in fds {
        fds := fds + {fd};
        maxfd := if maxfd < fd then fd else maxfd;
      }
    }

    method RemoveFd(fd: nat, events: set<Event>)
      requires SelectInv(Abs()) && fd < FD_SETSIZE
      modifies this
      ensures SelectInv(Abs()) && SelectInterest(Abs()) == Remove(old(SelectInterest(Abs())), fd, events)
      ensures Abs() == SelectRemove(old(Abs()), fd, events)
    {
      SelectRemoveRefines(Abs(), fd, events);
      if Read in events { rdset := rdset - {fd}; }
      if Write in events { wrset := wrset - {fd}; }
      if fd !in rdset && fd !in wrset {
        if fd == maxfd { maxfd := maxfd - 1; }
        fds := fds - {fd};
      }
    }

    /** `rd` and `wr` are what the kernel leaves set, `nevents` how many bits that is; `order` is
        the order in which the hash set is walked. Stopping early never misses a ready
        descriptor. */
    method Wait(rd: set<nat>, wr: set<nat>, nevents: int, order: seq<nat>) returns (active: seq<(nat, set<Event>)>)
      requires SelectInv(Abs()) && rd <= rdset && wr <= wrset
      requires nevents > 0 ==> nevents == |rd| + |wr|
      requires Listing(order, fds)
      ensures forall a :: a in active ==> a.0 in fds && a.1 == Ready(rd, wr, a.0)
      ensures nevents > 0 ==> forall fd :: fd in rd + wr ==> (fd, Ready(rd, wr, fd)) in active
    {
      active := [];
      assert Labelled(active, order, rd, wr);
      if nevents > 0 {
        hide Ready, CountReady, Listing, Labelled, SelectInv;
        var left := nevents;
        NoneCounted(rd, wr);
        assert order[..0] == [];
        for i := 0 to |order|
          invariant left > 0 && left == nevents - CountReady(order[..i], rd, wr)
          invariant |active| == i && Labelled(active, order, rd, wr)
        {
          CountNext(order, i, rd, wr);
          LabelNext(active, order, rd, wr);
          var trigger := Ready(rd, wr, order[i]);
          active := active + [(order[i], trigger)];
          if trigger != {} {
            left := left - 1;
            if left == 0 { break; }
          }
        }
        SetsListed(Abs(), rd, wr);
        AllVisited(fds, order, |active|, rd, wr);
        ActiveHas(order, active, fds, rd, wr);
      }
    }
  }

  lemma SetsListed(s: SelectState, rd: set<nat>, wr: set<nat>)
    requires SelectInv(s) && rd <= s.rdset && wr <= s.wrset
    ensures rd + wr <= s.fds
  {
  }

  /** The first descriptors of a walk with what is ready on them. */
  predicate Labelled(active: seq<(nat, set<Event>)>, order: seq<nat>, rd: set<nat>, wr: set<nat>) {
    |active| <= |order| && forall j :: 0 <= j < |active| ==> active[j] == (order[j], Ready(rd, wr, order[j]))
  }

  lemma LabelNext(active: seq<(nat, set<Event>)>, order: seq<nat>, rd: set<nat>, wr: set<nat>)
    requires |active| < |order| && Labelled(active, order, rd, wr)
    ensures Labelled(active + [(order[|active|], Ready(rd, wr, order[|active|]))], order, rd, wr)
  {
    hide Ready;
  }

  /** Every member once, in some order. */
  ghost predicate Listing(order: seq<nat>, fds: set<nat>) {
    (forall fd :: fd in order <==> fd in fds) && forall i, j :: 0 <= i < j < |order| ==> order[i] != order[j]
  }

  lemma ActiveHas(order: seq<nat>, active: seq<(nat, set<Event>)>, fds: set<nat>, rd: set<nat>, wr: set<nat>)
    requires Listing(order, fds) && Labelled(active, order, rd, wr)
    requires forall fd :: fd in rd + wr ==> exists j :: 0 <= j < |active| && order[j] == fd
    ensures forall a :: a in active ==> a.0 in fds && a.1 == Ready(rd, wr, a.0)
    ensures forall fd :: fd in rd + wr ==> (fd, Ready(rd, wr, fd)) in active
  {
    hide Ready;
    assert forall j :: 0 <= j < |order| ==> order[j] in fds;
    forall fd | fd in rd + wr ensures (fd, Ready(rd, wr, fd)) in active {
      var j :| 0 <= j < |active| && order[j] == fd;
      assert active[j] == (fd, Ready(rd, wr, fd));
    }
  }

  /** How many of the descriptors are ready. */
  function CountReady(order: seq<nat>, rd: set<nat>, wr: set<nat>): nat {
    if order == [] then 0
    else CountReady(order[..|order| - 1], rd, wr) + if Ready(rd, wr, order[|order| - 1]) != {} then 1 else 0
  }

  lemma NoneCounted(rd: set<nat>, wr: set<nat>)
    ensures CountReady([], rd, wr) == 0
  {
  }

  lemma CountNext(order: seq<nat>, i: nat, rd: set<nat>, wr: set<nat>)
    requires i < |order|
    ensures CountReady(order[..i + 1], rd, wr)
      == CountReady(order[..i], rd, wr) + if Ready(rd, wr, order[i]) != {} then 1 else 0
  {
    assert order[..i + 1][..i] == order[..i];
  }

  /** Distinct ready descriptors are counted one by one. */
  lemma CountedSet(order: seq<nat>, k: nat, rd: set<nat>, wr: set<nat>) returns (seen: set<nat>)
    requires k <= |order| && forall i, j :: 0 <= i < j < |order| ==> order[i] != order[j]
    ensures seen <= rd + wr && |seen| == CountReady(order[..k], rd, wr)
    ensures forall fd :: fd in seen ==> exists j :: 0 <= j < k && order[j] == fd
  {
    hide CountReady;
    if k == 0 {
      NoneCounted(rd, wr);
      assert order[..0] == [];
      seen := {};
    } else {
      CountNext(order, k - 1, rd, wr);
      seen := CountedSet(order, k - 1, rd, wr);
      if Ready(rd, wr, order[k - 1]) != {} {
        seen := seen + {order[k - 1]};
      }
    }
  }

  /** As many ready descriptors as reported bits means all of them. */
  lemma AllVisited(fds: set<nat>, order: seq<nat>, k: nat, rd: set<nat>, wr: set<nat>)
    requires k <= |order| && Listing(order, fds) && rd + wr <= fds
    requires k == |order| || CountReady(order[..k], rd, wr) == |rd| + |wr|
    ensures forall fd :: fd in rd + wr ==> exists j :: 0 <= j < k && order[j] == fd
  {
    if k < |order| {
      var seen := CountedSet(order, k, rd, wr);
      AllSeen(seen, rd, wr);
    }
  }

  lemma AllSeen(seen: set<nat>, rd: set<nat>, wr: set<nat>)
    requires seen <= rd + wr && |seen| == |rd| + |wr|
    ensures seen == rd + wr
  {
    assert |rd + wr| <= |rd| + |wr| by { assert rd + wr == rd + (wr - rd); }
    if seen != rd + wr {
      var x :| x in (rd + wr) && x !in seen;
      assert seen <= rd + wr - {x};
      Smaller(seen, rd + wr - {x});
    }
  }

  lemma Smaller(a: set<nat>, b: set<nat>)
    requires a <= b
    ensures |a| <= |b|
  {
    assert b == a + (b - a);
  }

  // ---------------------------------------------------------------- channel

  /** A channel and the back end of its loop. */
  class Channel {
    const fd: nat
    const dispatcher: PollBase
    var filter: set<Event>

    /** The back end watches exactly what the filter says. */
    ghost predicate InStep()
      reads this, dispatcher
    {
      && PollInv(dispatcher.Abs()) && filter <= {Read, Write}
      && (fd in PollInterest(dispatcher.Abs()) <==> filter != {})
      && (filter != {} ==> PollInterest(dispatcher.Abs())[fd] == filter)
    }

    /** Other descriptors are left alone. */
    twostate predicate OthersKept()
      reads this, dispatcher
    {
      && old(PollInv(dispatcher.Abs())) && PollInv(dispatcher.Abs())
      && PollInterest(dispatcher.Abs()) - {fd} == old(PollInterest(dispatcher.Abs())) - {fd}
    }

    constructor (fd: nat, dispatcher: PollBase)
      requires PollInv(dispatcher.Abs()) && fd !in PollInterest(dispatcher.Abs())
      ensures this.fd == fd && this.dispatcher == dispatcher && filter == {} && InStep()
    {
      this.fd, this.dispatcher, filter := fd, dispatcher, {};
    }

    method Enable(e: Event)
      requires InStep() && e != Error
      modifies this, dispatcher
      ensures InStep() && filter == old(filter) + {e} && OthersKept()
    {
      if e !in filter {
        filter := filter + {e};
        dispatcher.AddFd(fd, {e});
        assert Wanted({e}) == {e};
      }
    }

    method Disable(e: Event)
      requires InStep() && e != Error
      modifies this, dispatcher
      ensures InStep() && filter == old(filter) - {e} && OthersKept()
    {
      if e in filter {
        filter := filter - {e};
        dispatcher.RemoveFd(fd, {e});
        assert Wanted({e}) == {e};
      }
    }

    method DisableAll()
      requires InStep()
      modifies this, dispatcher
      ensures InStep() && filter == {} && OthersKept()
      ensures fd !in PollInterest(dispatcher.Abs())
    {
      if filter != {} {
        dispatcher.RemoveFd(fd, filter);
        assert Wanted(filter) == filter;
        filter := {};
      }
    }
  }
}
