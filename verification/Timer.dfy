/** The timer store (src/timer.cc, src/timer.h): an ordered multiset of tasks and an index by
    id, kept in step, with catch-up of periodic tasks.

    A callback is a name; what it calls may differ at every run. Times are milliseconds. Sequence order stands
    for the multiset: equal expire times keep insertion order. */
module Timer {

  datatype Op =
    | Schedule(expire: int, interval: int, cb: nat)
    | Cancel(id: nat)

  datatype Task = Task(id: nat, expire: int, interval: int, cb: nat)

  /** The timer calls that callback `cb` makes when it is the n-th callback to run. */
  type Calls = (nat, nat) -> seq<Op>

  /** `fired` is history: id and expire time of every callback run. */
  datatype Store = Store(tasks: seq<Task>, byId: map<nat, Task>, nextId: nat, fired: seq<(nat, int)>)

  const EMPTY := Store([], map[], 1, [])

  // ---------------------------------------------------------------- operations

  /** Behind every task that expires no later, as `multiset::emplace`. */
  function Insert(ts: seq<Task>, t: Task): seq<Task> {
    if ts == [] || t.expire < ts[0].expire then [t] + ts else [ts[0]] + Insert(ts[1..], t)
  }

  /** Where `multiset::equal_range` begins. */
  function LowerBound(ts: seq<Task>, e: int): (k: nat)
    ensures k <= |ts| && (k < |ts| ==> ts[k].expire >= e) && forall i :: 0 <= i < k ==> ts[i].expire < e
  {
    if ts == [] || ts[0].expire >= e then 0 else 1 + LowerBound(ts[1..], e)
  }

  function Remove(ts: seq<Task>, id: nat): seq<Task> {
    if ts == [] then [] else if ts[0].id == id then ts[1..] else [ts[0]] + Remove(ts[1..], id)
  }

  /** `add_timer_in_loop`; an id that is already indexed keeps its entry. */
  function AddTask(s: Store, t: Task): Store {
    s.(tasks := Insert(s.tasks, t), byId := if t.id in s.byId then s.byId else s.byId[t.id := t])
  }

  /** `cancel_timer_in_loop`. */
  function CancelTask(s: Store, id: nat): Store {
    if id !in s.byId then s else s.(tasks := Remove(s.tasks, id), byId := s.byId - {id})
  }

  /** One timer call of a callback, on the loop thread. */
  function RunOp(s: Store, op: Op): Store {
    match op
    case Schedule(e, v, cb) => AddTask(s.(nextId := s.nextId + 1), Task(s.nextId, e, v, cb))
    case Cancel(id) => CancelTask(s, id)
  }

  function RunOps(s: Store, ops: seq<Op>): Store
    decreases |ops|
  {
    if ops == [] then s else RunOps(RunOp(s, ops[0]), ops[1..])
  }

  /** The first task leaves both containers to run. */
  function Popped(s: Store): Store
    requires s.tasks != []
  {
    var cur := s.tasks[0];
    s.(tasks := s.tasks[1..], byId := s.byId - {cur.id}, fired := s.fired + [(cur.id, cur.expire)])
  }

  /** The turn of `tick` for the first task: it leaves both containers, its callback runs, and a
      periodic task comes back one interval later. */
  function Fire(w: Calls, s: Store): Store
    requires s.tasks != []
  {
    var cur := s.tasks[0];
    var s2 := RunOps(Popped(s), w(cur.cb, |s.fired|));
    if cur.interval > 0 then AddTask(s2, cur.(expire := cur.expire + cur.interval)) else s2
  }

  // ---------------------------------------------------------------- consistency

  function MapOf(ts: seq<Task>): map<nat, Task> {
    if ts == [] then map[] else MapOf(ts[1..])[ts[0].id := ts[0]]
  }

  predicate Sorted(ts: seq<Task>) { forall i, j :: 0 <= i < j < |ts| ==> ts[i].expire <= ts[j].expire }

  predicate Distinct(ts: seq<Task>) { forall i, j :: 0 <= i < j < |ts| ==> ts[i].id != ts[j].id }

  /** Set and index hold the same tasks, in expire order, under distinct ids below the counter. */
  predicate Inv(s: Store) {
    && Sorted(s.tasks) && Distinct(s.tasks) && s.byId == MapOf(s.tasks)
    && forall id :: id in s.byId ==> id < s.nextId && s.byId[id].id == id
  }

  lemma Known(s: Store, id: nat)
    requires Inv(s) && id in s.byId
    ensures id < s.nextId && s.byId[id].id == id
  {
  }

  lemma MapOfKeys(ts: seq<Task>)
    ensures forall id :: id in MapOf(ts) ==> MapOf(ts)[id] in ts && MapOf(ts)[id].id == id
    ensures forall x :: x in ts ==> x.id in MapOf(ts)
    ensures Distinct(ts) ==> forall x :: x in ts ==> MapOf(ts)[x.id] == x
  {
    hide Distinct;
    forall id | id in MapOf(ts) ensures MapOf(ts)[id] in ts && MapOf(ts)[id].id == id { MapOfKey(ts, id); }
    forall x | x in ts ensures x.id in MapOf(ts) && (Distinct(ts) ==> MapOf(ts)[x.id] == x) { MapOfTask(ts, x); }
  }

  lemma MapOfKey(ts: seq<Task>, id: nat)
    requires id in MapOf(ts)
    ensures MapOf(ts)[id] in ts && MapOf(ts)[id].id == id
  {
    if ts[0].id != id { MapOfKey(ts[1..], id); }
  }

  lemma MapOfTask(ts: seq<Task>, x: Task)
    requires x in ts
    ensures x.id in MapOf(ts)
    ensures Distinct(ts) ==> MapOf(ts)[x.id] == x
  {
    if ts[0] != x {
      MapOfTask(ts[1..], x);
      var i :| 0 <= i < |ts| && ts[i] == x;
      assert i > 0;
    }
  }

  lemma InsertContents(ts: seq<Task>, t: Task)
    ensures forall x :: x in Insert(ts, t) <==> x == t || x in ts
    ensures |Insert(ts, t)| == |ts| + 1
  {
    if ts != [] && t.expire >= ts[0].expire { InsertContents(ts[1..], t); }
  }

  lemma InsertMap(ts: seq<Task>, t: Task)
    requires t.id !in MapOf(ts)
    ensures MapOf(Insert(ts, t)) == MapOf(ts)[t.id := t]
  {
    if ts != [] && t.expire >= ts[0].expire {
      InsertMap(ts[1..], t);
      ConsMap(ts[0], Insert(ts[1..], t));
    } else {
      ConsMap(t, ts);
    }
  }

  lemma ConsMap(t: Task, ts: seq<Task>)
    ensures MapOf([t] + ts) == MapOf(ts)[t.id := t]
  {
    var u := [t] + ts;
    assert u[1..] == ts;
  }

  lemma InsertKeeps(ts: seq<Task>, t: Task)
    requires Sorted(ts) && Distinct(ts) && t.id !in MapOf(ts)
    ensures Sorted(Insert(ts, t)) && Distinct(Insert(ts, t))
  {
    MapOfKeys(ts);
    assert forall x :: x in ts ==> x.id != t.id;
    InsertKeepsOrder(ts, t);
  }

  lemma InsertKeepsOrder(ts: seq<Task>, t: Task)
    requires Sorted(ts) && Distinct(ts) && forall x :: x in ts ==> x.id != t.id
    ensures Sorted(Insert(ts, t)) && Distinct(Insert(ts, t))
  {
    hide Sorted, Distinct;
    if ts == [] {
      ConsKeeps(t, ts);
    } else {
      HeadFirst(ts);
      if t.expire >= ts[0].expire {
        InsertKeepsOrder(ts[1..], t);
        InsertContents(ts[1..], t);
        ConsKeeps(ts[0], Insert(ts[1..], t));
      } else {
        forall x | x in ts ensures t.expire <= x.expire { assert x == ts[0] || x in ts[1..]; }
        ConsKeeps(t, ts);
      }
    }
  }

  lemma HeadFirst(ts: seq<Task>)
    requires Sorted(ts) && Distinct(ts) && ts != []
    ensures forall x :: x in ts[1..] ==> ts[0].expire <= x.expire && ts[0].id != x.id
    ensures Sorted(ts[1..]) && Distinct(ts[1..])
  {
    forall x | x in ts[1..] ensures ts[0].expire <= x.expire && ts[0].id != x.id {
      var i :| 0 <= i < |ts[1..]| && ts[1..][i] == x;
      assert ts[i + 1] == x;
    }
  }

  lemma ConsKeeps(t: Task, ts: seq<Task>)
    requires Sorted(ts) && Distinct(ts)
    requires forall x :: x in ts ==> t.expire <= x.expire && t.id != x.id
    ensures Sorted([t] + ts) && Distinct([t] + ts)
  {
    var u := [t] + ts;
    forall i, j | 0 <= i < j < |u| ensures u[i].expire <= u[j].expire && u[i].id != u[j].id {
      assert u[j] == ts[j - 1] && u[j] in ts;
    }
  }

  lemma RemoveKeeps(ts: seq<Task>, id: nat)
    requires Sorted(ts) && Distinct(ts)
    ensures Sorted(Remove(ts, id)) && Distinct(Remove(ts, id))
    ensures forall x :: x in Remove(ts, id) <==> x in ts && x.id != id
  {
    hide Sorted, Distinct;
    if ts != [] {
      HeadFirst(ts);
      if ts[0].id != id {
        RemoveKeeps(ts[1..], id);
        ConsKeeps(ts[0], Remove(ts[1..], id));
      }
    }
  }

  lemma RemoveMap(ts: seq<Task>, id: nat)
    requires Sorted(ts) && Distinct(ts)
    ensures MapOf(Remove(ts, id)) == MapOf(ts) - {id}
  {
    hide Sorted, Distinct;
    if ts != [] {
      HeadFirst(ts);
      if ts[0].id != id {
        RemoveMap(ts[1..], id);
        ConsMap(ts[0], Remove(ts[1..], id));
      } else if id in MapOf(ts[1..]) {
        MapOfKey(ts[1..], id);
        assert false;
      }
    }
  }

  lemma AddKeepsInv(s: Store, t: Task)
    requires Inv(s) && t.id !in s.byId && t.id < s.nextId
    ensures Inv(AddTask(s, t)) && AddTask(s, t).byId == s.byId[t.id := t]
  {
    InsertKeeps(s.tasks, t);
    InsertMap(s.tasks, t);
  }

  lemma CancelKeepsInv(s: Store, id: nat)
    requires Inv(s)
    ensures Inv(CancelTask(s, id)) && CancelTask(s, id).byId == s.byId - {id}
  {
    RemoveKeeps(s.tasks, id);
    RemoveMap(s.tasks, id);
    assert id !in s.byId ==> s.byId - {id} == s.byId;
  }

  lemma OpKeepsInv(s: Store, op: Op)
    requires Inv(s)
    ensures Inv(RunOp(s, op)) && RunOp(s, op).fired == s.fired && s.nextId <= RunOp(s, op).nextId
  {
    match op
    case Schedule(e, v, cb) => AddKeepsInv(s.(nextId := s.nextId + 1), Task(s.nextId, e, v, cb));
    case Cancel(id) => CancelKeepsInv(s, id);
  }

  /** An id that exists before a callback and that the callback does not cancel keeps its task; a
      cancelled one is gone; every new task is one that the callback scheduled. */
  lemma {:induction false} OpsEffect(s: Store, ops: seq<Op>)
    requires Inv(s)
    ensures var r := RunOps(s, ops);
      Inv(r) && r.fired == s.fired && s.nextId <= r.nextId
    ensures forall id :: id < s.nextId ==>
              (id in RunOps(s, ops).byId <==> id in s.byId && Cancel(id) !in ops)
    ensures forall id :: id < s.nextId && id in RunOps(s, ops).byId && id in s.byId ==> RunOps(s, ops).byId[id] == s.byId[id]
    ensures forall id :: id >= s.nextId && id in RunOps(s, ops).byId ==>
              exists op :: op in ops && op.Schedule? && RunOps(s, ops).byId[id].expire == op.expire
    decreases |ops|
  {
    if ops != [] {
      var op, s1 := ops[0], RunOp(s, ops[0]);
      var r := RunOps(s1, ops[1..]);
      OpKeepsInv(s, op);
      OpEffect(s, op);
      OpsEffect(s1, ops[1..]);
      assert ops == [op] + ops[1..];
      hide RunOp, MapOf, Sorted, Distinct;
      forall id | id >= s.nextId && id in r.byId
        ensures exists op :: op in ops && op.Schedule? && r.byId[id].expire == op.expire
      {
        if id < s1.nextId { assert op in ops; }
      }
    }
  }

  lemma OpEffect(s: Store, op: Op)
    requires Inv(s)
    ensures var r := RunOp(s, op);
      && r.byId == (match op
           case Schedule(e, v, cb) => s.byId[s.nextId := Task(s.nextId, e, v, cb)]
           case Cancel(id) => s.byId - {id})
      && r.nextId == (if op.Schedule? then s.nextId + 1 else s.nextId)
  {
    match op
    case Schedule(e, v, cb) => AddKeepsInv(s.(nextId := s.nextId + 1), Task(s.nextId, e, v, cb));
    case Cancel(id) => CancelKeepsInv(s, id);
  }

  lemma PopKeepsInv(s: Store)
    requires Inv(s) && s.tasks != []
    ensures Inv(Popped(s)) && s.tasks[0].id in s.byId && s.byId[s.tasks[0].id] == s.tasks[0]
  {
    HeadFirst(s.tasks);
    MapOfKeys(s.tasks);
    MapOfKeys(s.tasks[1..]);
  }

  /** Between the callback and the return of a periodic task. */
  lemma CallbackReady(w: Calls, s: Store)
    requires Inv(s) && s.tasks != []
    ensures Inv(Popped(s)) && Inv(RunOps(Popped(s), w(s.tasks[0].cb, |s.fired|)))
    ensures var s2 := RunOps(Popped(s), w(s.tasks[0].cb, |s.fired|));
      s.tasks[0].id !in s2.byId && s.tasks[0].id < s2.nextId
  {
    hide RunOps, Sorted, Distinct, MapOf;
    PopKeepsInv(s);
    OpsEffect(Popped(s), w(s.tasks[0].cb, |s.fired|));
  }

  /** The whole effect of one turn of `tick`, task by task. */
  lemma FireEffect(w: Calls, s: Store)
    requires Inv(s) && s.tasks != []
    ensures Inv(Fire(w, s)) && Fire(w, s).fired == s.fired + [(s.tasks[0].id, s.tasks[0].expire)]
    ensures s.nextId <= Fire(w, s).nextId
    ensures s.tasks[0].id in s.byId && s.byId[s.tasks[0].id] == s.tasks[0]
    ensures var cur := s.tasks[0];
      if cur.interval > 0 then
        cur.id in Fire(w, s).byId && Fire(w, s).byId[cur.id] == cur.(expire := cur.expire + cur.interval)
      else cur.id !in Fire(w, s).byId
    ensures forall id :: id < s.nextId && id != s.tasks[0].id ==>
              (id in Fire(w, s).byId <==> id in s.byId && Cancel(id) !in w(s.tasks[0].cb, |s.fired|))
    ensures forall id :: id < s.nextId && id != s.tasks[0].id && id in Fire(w, s).byId && id in s.byId ==>
              Fire(w, s).byId[id] == s.byId[id]
    ensures forall id :: id >= s.nextId && id in Fire(w, s).byId ==>
              exists op :: op in w(s.tasks[0].cb, |s.fired|) && op.Schedule? && Fire(w, s).byId[id].expire == op.expire
  {
    hide MapOf, Sorted, Distinct, RunOps, CancelTask;
    var cur, s1 := s.tasks[0], Popped(s);
    PopKeepsInv(s);
    OpsEffect(s1, w(cur.cb, |s.fired|));
    var s2 := RunOps(s1, w(cur.cb, |s.fired|));
    if cur.interval > 0 { AddKeepsInv(s2, cur.(expire := cur.expire + cur.interval)); }
  }

  // ---------------------------------------------------------------- the whole index

  /** The tasks that the calls leave alone. */
  function Survivors(m: map<nat, Task>, ops: seq<Op>): map<nat, Task> {
    map id | id in m && Cancel(id) !in ops :: m[id]
  }

  /** The tasks that the calls schedule, numbered from `next`, without those that a later call of
      the same callback cancels. */
  function NewTasks(ops: seq<Op>, next: nat): map<nat, Task> {
    if ops == [] then map[]
    else match ops[0]
      case Schedule(e, v, cb) =>
        var rest := NewTasks(ops[1..], next + 1);
        if Cancel(next) in ops[1..] then rest else rest[next := Task(next, e, v, cb)]
      case Cancel(_) => NewTasks(ops[1..], next)
  }

  function Schedules(ops: seq<Op>): nat {
    if ops == [] then 0 else (if ops[0].Schedule? then 1 else 0) + Schedules(ops[1..])
  }

  lemma NewIds(ops: seq<Op>, next: nat)
    ensures forall id :: id in NewTasks(ops, next) ==> next <= id < next + Schedules(ops)
  {
    if ops != [] {
      NewIds(ops[1..], next + 1);
      NewIds(ops[1..], next);
    }
  }

  /** Call i schedules the task with the next free id; it is there, with its expire time, interval
      and callback, if and only if no later call cancels it. */
  lemma {:induction false} NewTaskAt(ops: seq<Op>, next: nat, i: nat)
    requires i < |ops| && ops[i].Schedule?
    ensures var id := next + Schedules(ops[..i]);
      && (id in NewTasks(ops, next) <==> Cancel(id) !in ops[i + 1..])
      && (id in NewTasks(ops, next) ==>
            NewTasks(ops, next)[id] == Task(id, ops[i].expire, ops[i].interval, ops[i].cb))
  {
    var rest := ops[1..];
    if i == 0 {
      NewIds(rest, next + 1);
      assert Schedules(ops[..0]) == 0;
    } else {
      var next' := if ops[0].Schedule? then next + 1 else next;
      NewTaskAt(rest, next', i - 1);
      assert ops[..i][1..] == rest[..i - 1] && rest[i..] == ops[i + 1..];
      assert next + Schedules(ops[..i]) == next' + Schedules(rest[..i - 1]);
    }
  }

  /** After the calls of a callback the index holds exactly the tasks they left alone and the tasks
      they scheduled and did not cancel again. */
  lemma {:induction false} OpsIndex(s: Store, ops: seq<Op>)
    requires Inv(s)
    ensures RunOps(s, ops).byId == Survivors(s.byId, ops) + NewTasks(ops, s.nextId)
    ensures RunOps(s, ops).nextId == s.nextId + Schedules(ops)
    decreases |ops|
  {
    if ops == [] {
      assert Survivors(s.byId, ops) + map[] == s.byId;
    } else {
      var op, rest, s1 := ops[0], ops[1..], RunOp(s, ops[0]);
      OpKeepsInv(s, op);
      OpEffect(s, op);
      OpsIndex(s1, rest);
      assert ops == [op] + rest;
      hide RunOp, Inv, Survivors, NewTasks;
      match op
      case Schedule(e, v, cb) =>
        assert forall id :: id in s.byId ==> id < s.nextId by { IdsBelow(s); }
        ScheduledIndex(s.byId, s.nextId, op, rest);
      case Cancel(id) => CancelledIndex(s.byId, s.nextId, id, rest);
    }
  }

  lemma IdsBelow(s: Store)
    requires Inv(s)
    ensures forall id :: id in s.byId ==> id < s.nextId
  {
  }

  lemma ScheduledIndex(m: map<nat, Task>, next: nat, op: Op, rest: seq<Op>)
    requires op.Schedule? && forall id :: id in m ==> id < next
    ensures var t := Task(next, op.expire, op.interval, op.cb);
      Survivors(m[next := t], rest) + NewTasks(rest, next + 1) == Survivors(m, [op] + rest) + NewTasks([op] + rest, next)
  {
    var ops, t, n := [op] + rest, Task(next, op.expire, op.interval, op.cb), NewTasks(rest, next + 1);
    assert ops[1..] == rest;
    NewIds(rest, next + 1);
    assert NewTasks(ops, next) == if Cancel(next) in rest then n else n[next := t];
    hide NewTasks;
    var a, b := Survivors(m[next := t], rest) + n, Survivors(m, ops) + NewTasks(ops, next);
    assert forall id :: Cancel(id) in ops <==> Cancel(id) in rest;
    assert a.Keys == b.Keys;
  }

  lemma CancelledIndex(m: map<nat, Task>, next: nat, id: nat, rest: seq<Op>)
    ensures Survivors(m - {id}, rest) + NewTasks(rest, next)
      == Survivors(m, [Cancel(id)] + rest) + NewTasks([Cancel(id)] + rest, next)
  {
    var ops := [Cancel(id)] + rest;
    assert ops[1..] == rest;
    assert forall j :: Cancel(j) in ops <==> j == id || Cancel(j) in rest;
    assert Survivors(m - {id}, rest) == Survivors(m, ops);
  }

  /** The index after one turn of `tick`: what the callback left alone, what it scheduled and did
      not cancel again, and the running timer one interval later if it is periodic. */
  lemma FireIndex(w: Calls, s: Store)
    requires Inv(s) && s.tasks != []
    ensures var cur, ops := s.tasks[0], w(s.tasks[0].cb, |s.fired|);
      var m := Survivors(s.byId - {cur.id}, ops) + NewTasks(ops, s.nextId);
      && Fire(w, s).byId == (if cur.interval > 0 then m[cur.id := cur.(expire := cur.expire + cur.interval)] else m)
      && Fire(w, s).nextId == s.nextId + Schedules(ops)
  {
    hide MapOf, Sorted, Distinct, RunOps, CancelTask, Survivors, NewTasks;
    var cur, s1, ops := s.tasks[0], Popped(s), w(s.tasks[0].cb, |s.fired|);
    PopKeepsInv(s);
    OpsEffect(s1, ops);
    OpsIndex(s1, ops);
    if cur.interval > 0 { AddKeepsInv(RunOps(s1, ops), cur.(expire := cur.expire + cur.interval)); }
  }

  /** Cancelling from inside a callback works for every other timer, and for the running timer
      itself if and only if it is not periodic: a periodic timer comes back. */
  lemma CancelFromCallback(w: Calls, s: Store, id: nat)
    requires Inv(s) && s.tasks != [] && id < s.nextId && Cancel(id) in w(s.tasks[0].cb, |s.fired|)
    ensures id in Fire(w, s).byId <==> id == s.tasks[0].id && s.tasks[0].interval > 0
  {
    hide Fire, Inv;
    FireEffect(w, s);
  }

  // ---------------------------------------------------------------- one tick

  /** The callback schedules nothing that is already due. */
  predicate Quiet(ops: seq<Op>, now: int) {
    forall op :: op in ops && op.Schedule? ==> op.expire > now
  }

  /** No due task schedules a task that is already due. */
  ghost predicate Calm(w: Calls, s: Store, now: int) {
    forall id, n :: id in s.byId && s.byId[id].expire <= now ==> Quiet(w(s.byId[id].cb, n), now)
  }

  /** The sum of now - expire + 1 over the due tasks. */
  function Lateness(ts: seq<Task>, now: int): (n: nat) {
    if ts == [] then 0 else Late(ts[0], now) + Lateness(ts[1..], now)
  }

  function Late(t: Task, now: int): nat { if t.expire <= now then now - t.expire + 1 else 0 }

  lemma InsertLate(ts: seq<Task>, t: Task, now: int)
    ensures Lateness(Insert(ts, t), now) == Lateness(ts, now) + Late(t, now)
  {
    if ts != [] && t.expire >= ts[0].expire { InsertLate(ts[1..], t, now); }
  }

  lemma RemoveLate(ts: seq<Task>, id: nat, now: int)
    ensures Lateness(Remove(ts, id), now) <= Lateness(ts, now)
  {
    if ts != [] && ts[0].id != id { RemoveLate(ts[1..], id, now); }
  }

  lemma OpsLate(s: Store, ops: seq<Op>, now: int)
    requires Quiet(ops, now)
    ensures Lateness(RunOps(s, ops).tasks, now) <= Lateness(s.tasks, now)
    decreases |ops|
  {
    if ops != [] {
      match ops[0] {
        case Schedule(e, v, cb) => InsertLate(s.tasks, Task(s.nextId, e, v, cb), now);
        case Cancel(id) => RemoveLate(s.tasks, id, now);
      }
      OpsLate(RunOp(s, ops[0]), ops[1..], now);
    }
  }

  predicate IsDue(s: Store, now: int) { s.tasks != [] && s.tasks[0].expire <= now }

  /** A turn of `tick` keeps the store calm and takes something off its lateness. */
  lemma {:induction false} FireSettles(w: Calls, s: Store, now: int)
    requires Inv(s) && Calm(w, s, now) && IsDue(s, now)
    ensures Inv(Fire(w, s)) && Calm(w, Fire(w, s), now)
    ensures Lateness(Fire(w, s).tasks, now) < Lateness(s.tasks, now)
  {
    hide Inv, RunOps, Lateness;
    FireEffect(w, s);
    FireLate(w, s, now);
    var cur, r := s.tasks[0], Fire(w, s);
    NewNotDue(w, s, now);
    hide Fire;
    assert forall id :: id in r.byId && r.byId[id].expire <= now ==> id < s.nextId;
  }

  lemma NewNotDue(w: Calls, s: Store, now: int)
    requires Inv(s) && Calm(w, s, now) && IsDue(s, now)
    ensures forall id :: id in Fire(w, s).byId && id >= s.nextId ==> Fire(w, s).byId[id].expire > now
  {
    hide Fire, Inv;
    FireEffect(w, s);
    assert Quiet(w(s.tasks[0].cb, |s.fired|), now);
  }

  lemma FireLate(w: Calls, s: Store, now: int)
    requires Inv(s) && Calm(w, s, now) && IsDue(s, now)
    ensures Lateness(Fire(w, s).tasks, now) < Lateness(s.tasks, now)
  {
    hide RunOps, MapOf;
    MapOfKeys(s.tasks);
    var cur, s1 := s.tasks[0], Popped(s);
    OpsLate(s1, w(cur.cb, |s.fired|), now);
    InsertLate(RunOps(s1, w(cur.cb, |s.fired|)).tasks, cur.(expire := cur.expire + cur.interval), now);
  }

  /** `tick` at a fixed time. */
  ghost function Tick(w: Calls, s: Store, now: int): Store
    requires Inv(s) && Calm(w, s, now)
    decreases Lateness(s.tasks, now)
  {
    if !IsDue(s, now) then s else FireSettles(w, s, now); Tick(w, Fire(w, s), now)
  }

  lemma TickTurn(w: Calls, s: Store, now: int)
    requires Inv(s) && Calm(w, s, now)
    ensures IsDue(s, now) ==>
      Inv(Fire(w, s)) && Calm(w, Fire(w, s), now) && Lateness(Fire(w, s).tasks, now) < Lateness(s.tasks, now)
    ensures Tick(w, s, now) == if IsDue(s, now) then Tick(w, Fire(w, s), now) else s
  {
    if IsDue(s, now) { FireSettles(w, s, now); }
  }

  /** What a tick runs, in order. */
  ghost function TickLog(w: Calls, s: Store, now: int): seq<(nat, int)>
    requires Inv(s) && Calm(w, s, now)
    decreases Lateness(s.tasks, now)
  {
    if !IsDue(s, now) then []
    else
      FireSettles(w, s, now);
      [(s.tasks[0].id, s.tasks[0].expire)] + TickLog(w, Fire(w, s), now)
  }

  /** In expire order, none after `now`. */
  predicate InOrder(log: seq<(nat, int)>, now: int) {
    && (forall i :: 0 <= i < |log| ==> log[i].1 <= now)
    && forall i, j :: 0 <= i < j < |log| ==> log[i].1 <= log[j].1
  }

  lemma ConsInOrder(x: (nat, int), log: seq<(nat, int)>, now: int)
    requires InOrder(log, now) && x.1 <= now && (log != [] ==> x.1 <= log[0].1)
    ensures InOrder([x] + log, now)
  {
  }

  /** A tick keeps the two containers in step, leaves nothing due, and runs callbacks in expire
      order, none of them early. */
  lemma {:induction false} TickInOrder(w: Calls, s: Store, now: int)
    requires Inv(s) && Calm(w, s, now)
    ensures Inv(Tick(w, s, now)) && Tick(w, s, now).fired == s.fired + TickLog(w, s, now)
    ensures forall id :: id in Tick(w, s, now).byId ==> Tick(w, s, now).byId[id].expire > now
    ensures InOrder(TickLog(w, s, now), now)
    ensures TickLog(w, s, now) != [] ==> s.tasks != [] && TickLog(w, s, now)[0].1 == s.tasks[0].expire
    decreases Lateness(s.tasks, now)
  {
    hide Fire, Inv, InOrder, Calm, Lateness;
    if !IsDue(s, now) {
      NothingDue(s, now);
      NothingRuns(w, s, now);
    } else {
      FireSettles(w, s, now);
      TickInOrder(w, Fire(w, s), now);
      FiredHead(w, s, now);
      HeadStaysLeast(w, s, now);
      var first, rest := (s.tasks[0].id, s.tasks[0].expire), TickLog(w, Fire(w, s), now);
      ConsInOrder(first, rest, now);
      assert s.fired + [first] + rest == s.fired + ([first] + rest);
    }
  }

  lemma NothingRuns(w: Calls, s: Store, now: int)
    requires Inv(s) && Calm(w, s, now) && !IsDue(s, now)
    ensures Tick(w, s, now) == s && TickLog(w, s, now) == [] && InOrder([], now) && s.fired == s.fired + []
  {
  }

  lemma FiredHead(w: Calls, s: Store, now: int)
    requires Inv(s) && IsDue(s, now)
    ensures s.tasks != [] && s.tasks[0].expire <= now
    ensures Fire(w, s).fired == s.fired + [(s.tasks[0].id, s.tasks[0].expire)]
  {
    FireEffect(w, s);
  }

  lemma NothingDue(s: Store, now: int)
    requires Inv(s) && !IsDue(s, now)
    ensures forall id :: id in s.byId ==> s.byId[id].expire > now
  {
    hide MapOf;
    MapOfKeys(s.tasks);
    forall id | id in s.byId ensures s.byId[id].expire > now {
      var i :| 0 <= i < |s.tasks| && s.tasks[i] == s.byId[id];
      assert i > 0 ==> s.tasks[0].expire <= s.tasks[i].expire;
    }
  }

  lemma HeadStaysLeast(w: Calls, s: Store, now: int)
    requires Inv(s) && Calm(w, s, now) && IsDue(s, now)
    ensures Fire(w, s).tasks != [] ==> s.tasks[0].expire <= Fire(w, s).tasks[0].expire
  {
    hide Fire, MapOf;
    FireEffect(w, s);
    MapOfKeys(s.tasks);
    MapOfKeys(Fire(w, s).tasks);
    var cur, r := s.tasks[0], Fire(w, s);
    if r.tasks != [] {
      var t := r.tasks[0];
      if t.id != cur.id {
        if t.id < s.nextId {
          var i :| 0 <= i < |s.tasks| && s.tasks[i] == t;
        } else {
          assert Quiet(w(cur.cb, |s.fired|), now);
        }
      }
    }
  }

  // ---------------------------------------------------------------- catching up

  /** The expire times at or before `now` of a task with interval v. */
  function Due(e: int, v: int, now: int): (d: seq<int>)
    decreases if e <= now then now - e + 1 else 0
  {
    if e > now then [] else if v <= 0 then [e] else [e] + Due(e + v, v, now)
  }

  /** A periodic task is due floor((now - e) / v) + 1 times, one interval apart; the next time is
      after now and a whole number of intervals from the first. */
  lemma {:induction false} DueCount(e: int, v: int, now: int)
    requires v >= 1 && e <= now
    ensures |Due(e, v, now)| == (now - e) / v + 1
    ensures forall i :: 0 <= i < |Due(e, v, now)| ==> Due(e, v, now)[i] == e + i * v
    ensures now < e + |Due(e, v, now)| * v <= now + v
    decreases now - e
  {
    if e + v <= now {
      DueCount(e + v, v, now);
      OneLess(now - e, v);
      Shifted(e, v, Due(e + v, v, now));
    } else {
      Quotient(now - e, 0, now - e, v);
    }
  }

  lemma Shifted(e: int, v: int, r: seq<int>)
    requires forall i :: 0 <= i < |r| ==> r[i] == e + v + i * v
    ensures forall i :: 0 <= i < |r| + 1 ==> ([e] + r)[i] == e + i * v
    ensures (|r| + 1) * v == |r| * v + v
  {
    forall i | 0 <= i < |r| + 1 ensures ([e] + r)[i] == e + i * v {
      if i > 0 { assert e + v + (i - 1) * v == e + i * v; }
    }
  }

  lemma OneLess(a: int, v: int)
    requires v >= 1 && a >= v
    ensures (a - v) / v == a / v - 1
  {
    var q, r := a / v, a % v;
    assert a - v == (q - 1) * v + r;
    Quotient(a - v, q - 1, r, v);
  }

  lemma Quotient(a: int, q: int, r: int, v: int)
    requires 0 <= r < v && a == q * v + r
    ensures a / v == q
  {
    var d := a / v - q;
    assert a == (a / v) * v + a % v;
    assert d * v == r - a % v;
    Multiple(d, v);
  }

  lemma Multiple(d: int, v: int)
    requires v > 0
    ensures d >= 1 ==> d * v >= v
    ensures d <= -1 ==> d * v <= -v
  {
    if d >= 1 { assert d * v == (d - 1) * v + v; }
    if d <= -1 { assert -(d * v) == (-d - 1) * v + v; }
  }

  function FiresOf(log: seq<(nat, int)>, id: nat): seq<int> {
    if log == [] then []
    else (if log[0].0 == id then [log[0].1] else []) + FiresOf(log[1..], id)
  }

  /** Some other due task cancels timer `id`. */
  ghost predicate OtherCancels(w: Calls, s: Store, now: int, id: nat) {
    exists j, n :: j in s.byId && j != id && s.byId[j].expire <= now && Cancel(id) in w(s.byId[j].cb, n)
  }

  /** What one tick does to a task: caught up and put forward past now if periodic, run once and
      dropped if one-shot, left alone if not due. */
  predicate CaughtUp(t: Task, r: Store, fires: seq<int>, now: int) {
    && fires == Due(t.expire, t.interval, now)
    && (t.expire > now || t.interval > 0 ==>
          && t.id in r.byId
          && r.byId[t.id] == t.(expire := t.expire + |fires| * t.interval))
    && (t.expire <= now && t.interval <= 0 ==> t.id !in r.byId)
  }

  /** A timer that no other due task cancels runs once for each of its due times, whatever its
      own callback and the callbacks of the others schedule or cancel. */
  lemma {:induction false} TickCatchesUp(w: Calls, s: Store, now: int, id: nat)
    requires Inv(s) && Calm(w, s, now) && id in s.byId && !OtherCancels(w, s, now, id)
    ensures CaughtUp(s.byId[id], Tick(w, s, now), FiresOf(TickLog(w, s, now), id), now)
    decreases Lateness(s.tasks, now)
  {
    hide Fire, OtherCancels, FiresOf, Inv, CaughtUp;
    if !IsDue(s, now) {
      NotDueCaughtUp(w, s, now, id);
    } else {
      var r := Fire(w, s);
      FireSettles(w, s, now);
      FireEffect(w, s);
      StaysUncancelled(w, s, now, id);
      Known(s, id);
      LogHead((s.tasks[0].id, s.tasks[0].expire), TickLog(w, r, now), id);
      if id in r.byId { TickCatchesUp(w, r, now, id); } else { NeverReturns(w, r, now, id); }
      hide Calm, Lateness;
      if id == s.tasks[0].id {
        OneTurn(s.byId[id], r, Tick(w, r, now), FiresOf(TickLog(w, r, now), id), now);
      }
    }
  }

  lemma NotDueCaughtUp(w: Calls, s: Store, now: int, id: nat)
    requires Inv(s) && Calm(w, s, now) && id in s.byId && !IsDue(s, now)
    ensures CaughtUp(s.byId[id], Tick(w, s, now), FiresOf(TickLog(w, s, now), id), now)
  {
    hide MapOf;
    NothingDue(s, now);
  }

  lemma OneTurn(t: Task, r: Store, f: Store, rest: seq<int>, now: int)
    requires t.expire <= now
    requires t.interval > 0 ==> t.id in r.byId && r.byId[t.id] == t.(expire := t.expire + t.interval)
    requires t.id in r.byId ==> t.interval > 0 && CaughtUp(r.byId[t.id], f, rest, now)
    requires t.id !in r.byId ==> t.id !in f.byId && rest == []
    ensures CaughtUp(t, f, [t.expire] + rest, now)
  {
    var n := |rest|;
    assert (n + 1) * t.interval == n * t.interval + t.interval;
  }

  lemma LogHead(x: (nat, int), log: seq<(nat, int)>, id: nat)
    ensures FiresOf([x] + log, id) == if x.0 == id then [x.1] + FiresOf(log, id) else FiresOf(log, id)
  {
    var l := [x] + log;
    assert l[1..] == log;
  }

  lemma StaysUncancelled(w: Calls, s: Store, now: int, id: nat)
    requires Inv(s) && Calm(w, s, now) && IsDue(s, now) && id in s.byId && !OtherCancels(w, s, now, id)
    ensures !OtherCancels(w, Fire(w, s), now, id)
    ensures id != s.tasks[0].id ==> id in Fire(w, s).byId && Fire(w, s).byId[id] == s.byId[id]
  {
    hide Fire, Sorted, Distinct, MapOf;
    FireEffect(w, s);
    NewNotDue(w, s, now);
    var cur, r := s.tasks[0], Fire(w, s);
    forall j, n | j in r.byId && j != id && r.byId[j].expire <= now ensures Cancel(id) !in w(r.byId[j].cb, n) {
      assert j in s.byId && s.byId[j].expire <= now && s.byId[j].cb == r.byId[j].cb;
    }
  }

  /** Ids are never used again: one that is gone stays gone and does not run. */
  lemma {:induction false} NeverReturns(w: Calls, s: Store, now: int, id: nat)
    requires Inv(s) && Calm(w, s, now) && id < s.nextId && id !in s.byId
    ensures id !in Tick(w, s, now).byId && FiresOf(TickLog(w, s, now), id) == []
    decreases Lateness(s.tasks, now)
  {
    hide Fire, Inv;
    if IsDue(s, now) {
      FireSettles(w, s, now);
      FireEffect(w, s);
      NeverReturns(w, Fire(w, s), now, id);
      LogHead((s.tasks[0].id, s.tasks[0].expire), TickLog(w, Fire(w, s), now), id);
    }
  }

  /** Cancelled or not, no timer runs more often in a tick than it is due, or out of turn. */
  lemma {:induction false} TickNeverExtra(w: Calls, s: Store, now: int, id: nat)
    requires Inv(s) && Calm(w, s, now) && id in s.byId
    ensures FiresOf(TickLog(w, s, now), id) <= Due(s.byId[id].expire, s.byId[id].interval, now)
    decreases Lateness(s.tasks, now)
  {
    hide Fire, Inv;
    if IsDue(s, now) {
      FireSettles(w, s, now);
      FireEffect(w, s);
      LogHead((s.tasks[0].id, s.tasks[0].expire), TickLog(w, Fire(w, s), now), id);
      Known(s, id);
      if id in Fire(w, s).byId { TickNeverExtra(w, Fire(w, s), now, id); } else { NeverReturns(w, Fire(w, s), now, id); }
    }
  }

  // ---------------------------------------------------------------- timers of equal expire time

  /** Task x stands before task y. */
  predicate Before(ts: seq<Task>, x: Task, y: Task) {
    exists i, j :: 0 <= i < j < |ts| && ts[i] == x && ts[j] == y
  }

  lemma BeforeCons(t: Task, ts: seq<Task>, x: Task, y: Task)
    requires Before(ts, x, y) || (t == x && y in ts)
    ensures Before([t] + ts, x, y)
  {
    var u := [t] + ts;
    if Before(ts, x, y) {
      var i, j :| 0 <= i < j < |ts| && ts[i] == x && ts[j] == y;
      assert u[i + 1] == x && u[j + 1] == y;
    } else {
      var j :| 0 <= j < |ts| && ts[j] == y;
      assert u[0] == x && u[j + 1] == y;
    }
  }

  lemma BeforeTail(ts: seq<Task>, x: Task, y: Task)
    requires Before(ts, x, y)
    ensures ts != [] && y in ts[1..] && x in ts && (ts[0] == x || Before(ts[1..], x, y))
  {
    var i, j :| 0 <= i < j < |ts| && ts[i] == x && ts[j] == y;
    assert ts[1..][j - 1] == y;
    if i > 0 { assert ts[1..][i - 1] == x; }
  }

  /** A new task comes behind every task that expires no later, and disturbs no order. */
  lemma {:induction false} InsertBehind(ts: seq<Task>, t: Task, x: Task, y: Task)
    requires Sorted(ts)
    ensures x in ts && x.expire <= t.expire ==> Before(Insert(ts, t), x, t)
    ensures x in ts && x.expire > t.expire ==> Before(Insert(ts, t), t, x)
    ensures Before(ts, x, y) ==> Before(Insert(ts, t), x, y)
  {
    hide Sorted, Before;
    InsertContents(ts, t);
    if ts == [] {
      if Before(ts, x, y) { BeforeTail(ts, x, y); }
    } else if t.expire < ts[0].expire {
      NoneEarlier(ts);
      if x in ts { BeforeCons(t, ts, t, x); }
      if Before(ts, x, y) { BeforeCons(t, ts, x, y); }
    } else {
      var rest := ts[1..];
      SortedTail(ts);
      InsertBehind(rest, t, x, y);
      InsertContents(rest, t);
      assert x in ts ==> x == ts[0] || x in rest;
      if x == ts[0] && x.expire <= t.expire { BeforeCons(ts[0], Insert(rest, t), x, t); }
      if x in rest && x.expire <= t.expire { BeforeCons(ts[0], Insert(rest, t), x, t); }
      if x in rest && x.expire > t.expire { BeforeCons(ts[0], Insert(rest, t), t, x); }
      if Before(ts, x, y) {
        BeforeTail(ts, x, y);
        BeforeCons(ts[0], Insert(rest, t), x, y);
      }
    }
  }

  lemma NoneEarlier(ts: seq<Task>)
    requires Sorted(ts) && ts != []
    ensures forall x :: x in ts ==> ts[0].expire <= x.expire
  {
  }

  lemma SortedTail(ts: seq<Task>)
    requires Sorted(ts) && ts != []
    ensures Sorted(ts[1..])
  {
  }

  lemma RemoveStable(ts: seq<Task>, id: nat, x: Task, y: Task)
    requires Before(ts, x, y) && x.id != id && y.id != id
    ensures Before(Remove(ts, id), x, y)
  {
    hide Before;
    BeforeTail(ts, x, y);
    if ts[0].id != id {
      if ts[0] == x {
        StaysIn(ts[1..], id, y);
      } else {
        RemoveStable(ts[1..], id, x, y);
      }
      BeforeCons(ts[0], Remove(ts[1..], id), x, y);
    }
  }

  lemma StaysIn(ts: seq<Task>, id: nat, y: Task)
    requires y in ts && y.id != id
    ensures y in Remove(ts, id)
  {
    if ts[0].id != id && ts[0] != y { StaysIn(ts[1..], id, y); }
  }

  lemma OpStable(s: Store, op: Op, x: Task, y: Task)
    requires Inv(s) && Before(s.tasks, x, y) && op != Cancel(x.id) && op != Cancel(y.id)
    ensures Before(RunOp(s, op).tasks, x, y)
  {
    hide Before;
    match op
    case Schedule(e, v, cb) => InsertBehind(s.tasks, Task(s.nextId, e, v, cb), x, y);
    case Cancel(id) => RemoveStable(s.tasks, id, x, y);
  }

  lemma {:induction false} OpsStable(s: Store, ops: seq<Op>, x: Task, y: Task)
    requires Inv(s) && Before(s.tasks, x, y) && Cancel(x.id) !in ops && Cancel(y.id) !in ops
    ensures Before(RunOps(s, ops).tasks, x, y)
    decreases |ops|
  {
    hide Before, Inv, RunOp;
    if ops != [] {
      assert ops[0] in ops;
      OpStable(s, ops[0], x, y);
      OpKeepsInv(s, ops[0]);
      OpsStable(RunOp(s, ops[0]), ops[1..], x, y);
    }
  }

  /** A turn of tick keeps the order of the tasks that the callback does not cancel. */
  lemma FireStable(w: Calls, s: Store, x: Task, y: Task)
    requires Inv(s) && Before(s.tasks, x, y) && s.tasks[0] != x
    requires Cancel(x.id) !in w(s.tasks[0].cb, |s.fired|) && Cancel(y.id) !in w(s.tasks[0].cb, |s.fired|)
    ensures Before(Fire(w, s).tasks, x, y)
  {
    hide Before, Inv, RunOps;
    BeforeTail(s.tasks, x, y);
    var cur := s.tasks[0];
    PopKeepsInv(s);
    OpsStable(Popped(s), w(cur.cb, |s.fired|), x, y);
    CallbackReady(w, s);
    var s2 := RunOps(Popped(s), w(cur.cb, |s.fired|));
    InSet(s2);
    if cur.interval > 0 { InsertBehind(s2.tasks, cur.(expire := cur.expire + cur.interval), x, y); }
  }

  lemma InSet(s: Store)
    requires Inv(s)
    ensures Sorted(s.tasks)
  {
  }

  /** In a tick a timer never runs before one that stands before it, equal expire times included,
      unless a callback of another due timer cancels that one. */
  lemma {:induction false} FirstComeFirstRun(w: Calls, s: Store, now: int, x: Task, y: Task, j: nat)
    requires Inv(s) && Calm(w, s, now) && Before(s.tasks, x, y) && !OtherCancels(w, s, now, x.id)
    requires j < |TickLog(w, s, now)| && TickLog(w, s, now)[j] == (y.id, y.expire)
    ensures exists i :: 0 <= i < j && TickLog(w, s, now)[i] == (x.id, x.expire)
    decreases Lateness(s.tasks, now)
  {
    hide Before, Inv, Fire, OtherCancels, Calm, Lateness;
    BeforeTail(s.tasks, x, y);
    BeforeDiffers(s, x, y);
    var z, log := s.tasks[0], TickLog(w, s, now);
    LogUnfolds(w, s, now);
    if z == x {
      assert log[0] == (x.id, x.expire);
    } else {
      var r := Fire(w, s);
      FireSettles(w, s, now);
      NotCancelled(w, s, now, x.id);
      StaysUncancelled(w, s, now, x.id);
      if Cancel(y.id) in w(z.cb, |s.fired|) {
        FireEffect(w, s);
        NeverReturns(w, r, now, y.id);
        NotFired(TickLog(w, r, now), y.id, j - 1);
      } else {
        FireStable(w, s, x, y);
        FirstComeFirstRun(w, r, now, x, y, j - 1);
        var i :| 0 <= i < j - 1 && TickLog(w, r, now)[i] == (x.id, x.expire);
        assert log[i + 1] == (x.id, x.expire);
      }
    }
  }

  lemma LogUnfolds(w: Calls, s: Store, now: int)
    requires Inv(s) && Calm(w, s, now) && TickLog(w, s, now) != []
    ensures IsDue(s, now) && Inv(Fire(w, s)) && Calm(w, Fire(w, s), now)
    ensures TickLog(w, s, now) == [(s.tasks[0].id, s.tasks[0].expire)] + TickLog(w, Fire(w, s), now)
  {
    if IsDue(s, now) { FireSettles(w, s, now); }
  }

  lemma BeforeDiffers(s: Store, x: Task, y: Task)
    requires Inv(s) && Before(s.tasks, x, y)
    ensures x.id != y.id && s.tasks[0].id != y.id && (s.tasks[0] != x ==> s.tasks[0].id != x.id)
    ensures x.id in s.byId && y.id in s.byId && x.id < s.nextId && y.id < s.nextId
  {
    MapOfKeys(s.tasks);
    var i, j :| 0 <= i < j < |s.tasks| && s.tasks[i] == x && s.tasks[j] == y;
    assert x in s.tasks && y in s.tasks;
  }

  lemma NotCancelled(w: Calls, s: Store, now: int, id: nat)
    requires Inv(s) && IsDue(s, now) && !OtherCancels(w, s, now, id) && s.tasks[0].id != id
    ensures Cancel(id) !in w(s.tasks[0].cb, |s.fired|)
  {
    MapOfKeys(s.tasks);
    assert s.tasks[0] in s.tasks;
  }

  lemma NotFired(log: seq<(nat, int)>, id: nat, k: nat)
    requires k < |log| && FiresOf(log, id) == []
    ensures log[k].0 != id
  {
    if k > 0 { NotFired(log[1..], id, k - 1); }
  }

  lemma TwoOps(s: Store, a: Op, b: Op)
    ensures RunOps(s, [a, b]) == RunOp(RunOp(s, a), b)
  {
    hide RunOp;
    assert [a, b][1..] == [b] && [b][1..] == [];
    assert RunOps(RunOp(s, a), [b]) == RunOps(RunOp(RunOp(s, a), b), []);
  }

  /** Two timers set for the same time run in the order in which they were set. */
  lemma SetFirstRunsFirst(s: Store, e: int, v1: int, cb1: nat, v2: int, cb2: nat)
    requires Inv(s)
    ensures var r := RunOps(s, [Schedule(e, v1, cb1), Schedule(e, v2, cb2)]);
      Inv(r) && Before(r.tasks, Task(s.nextId, e, v1, cb1), Task(s.nextId + 1, e, v2, cb2))
  {
    hide Before, Inv, RunOps, Insert;
    var a, b := Schedule(e, v1, cb1), Schedule(e, v2, cb2);
    var x, y := Task(s.nextId, e, v1, cb1), Task(s.nextId + 1, e, v2, cb2);
    TwoOps(s, a, b);
    var s1 := RunOp(s, a);
    OpKeepsInv(s, a);
    OpKeepsInv(s1, b);
    InsertContents(s.tasks, x);
    InSet(s1);
    InsertBehind(s1.tasks, y, x, y);
  }

  // ---------------------------------------------------------------- the object

  class TimerQueue {
    var timerSet: seq<Task>
    var timerMap: map<nat, Task>
    var timerId: nat
    var fired: seq<(nat, int)>

    ghost function Abs(): Store
      reads this
    {
      Store(timerSet, timerMap, timerId, fired)
    }

    constructor ()
      ensures Abs() == EMPTY && Inv(Abs())
    {
      timerSet, timerMap, timerId, fired := [], map[], 1, [];
    }

    /** Milliseconds until the first task is due, 0 if it is late and -1 if there is none. */
    method Timeout(now: int) returns (t: int)
      requires Inv(Abs())
      ensures t == -1 <==> timerMap == map[]
      ensures t == 0 ==> exists id :: id in timerMap && timerMap[id].expire <= now
      ensures t > 0 ==> exists id :: id in timerMap && timerMap[id].expire == now + t
      ensures t >= 0 ==> forall id :: id in timerMap ==> timerMap[id].expire >= now + t || t == 0
    {
      MapOfKeys(timerSet);
      if timerSet != [] {
        var first := timerSet[0];
        assert first.id in timerMap && timerMap[first.id] == first;
        if first.expire > now { NothingDue(Abs(), first.expire - 1); }
        t := first.expire - now;
        t := if t > 0 then t else 0;
      } else {
        t := -1;
      }
    }

    method AddTimerInLoop(task: Task)
      requires Inv(Abs()) && task.id !in timerMap && task.id < timerId
      modifies this
      ensures Abs() == AddTask(old(Abs()), task) && Inv(Abs())
    {
      AddKeepsInv(Abs(), task);
      timerSet := Insert(timerSet, task);
      timerMap := timerMap[task.id := task];
    }

    /** Looks for the id among the tasks that share its expire time. */
    method CancelTimerInLoop(id: nat)
      requires Inv(Abs())
      modifies this
      ensures Abs() == CancelTask(old(Abs()), id) && Inv(Abs())
    {
      CancelKeepsInv(Abs(), id);
      if id !in timerMap { return; }
      MapOfKeys(timerSet);
      var e := timerMap[id].expire;
      ghost var at :| 0 <= at < |timerSet| && timerSet[at] == timerMap[id];
      var it := LowerBound(timerSet, e);
      while timerSet[it].id != id
        invariant 0 <= it <= at
        decreases |timerSet| - it
      {
        it := it + 1;
      }
      RemoveAt(timerSet, it);
      timerSet := timerSet[..it] + timerSet[it + 1..];
      timerMap := timerMap - {id};
    }

    /** The timer calls of one callback. */
    method RunCallback(ops: seq<Op>)
      requires Inv(Abs())
      modifies this
      ensures Abs() == RunOps(old(Abs()), ops) && Inv(Abs())
    {
      var i := 0;
      while i < |ops|
        invariant 0 <= i <= |ops| && Inv(Abs())
        invariant RunOps(old(Abs()), ops) == RunOps(Abs(), ops[i..])
      {
        assert ops[i..][1..] == ops[i + 1..];
        match ops[i] {
          case Schedule(e, v, cb) =>
            var id := timerId;
            timerId := timerId + 1;
            AddTimerInLoop(Task(id, e, v, cb));
          case Cancel(id) =>
            CancelTimerInLoop(id);
        }
        i := i + 1;
      }
    }

    /** Ends because the lateness of the store goes down with every callback. */
    method TickNow(w: Calls, now: int)
      requires Inv(Abs()) && Calm(w, Abs(), now)
      modifies this
      ensures Abs() == Tick(w, old(Abs()), now) && Inv(Abs())
    {
      hide Inv, Calm, RunOps, Tick, Lateness;
      while timerSet != []
        invariant Inv(Abs()) && Calm(w, Abs(), now)
        invariant Tick(w, old(Abs()), now) == Tick(w, Abs(), now)
        decreases Lateness(timerSet, now)
      {
        var cur := timerSet[0];
        TickTurn(w, Abs(), now);
        if cur.expire > now { break; }
        ghost var before := Abs();
        CallbackReady(w, before);
        timerSet, timerMap := timerSet[1..], timerMap - {cur.id};
        fired := fired + [(cur.id, cur.expire)];
        RunCallback(w(cur.cb, |fired| - 1));
        if cur.interval > 0 {
          AddTimerInLoop(cur.(expire := cur.expire + cur.interval));
        }
        assert Abs() == Fire(w, before);
      }
      TickTurn(w, Abs(), now);
    }
  }

  lemma TailDistinct(ts: seq<Task>, k: nat)
    requires 0 < k < |ts| && Distinct(ts)
    ensures Distinct(ts[1..]) && ts[0].id != ts[k].id
  {
  }

  lemma Splice(ts: seq<Task>, k: nat)
    requires 0 < k < |ts|
    ensures [ts[0]] + (ts[1..][..k - 1] + ts[1..][k..]) == ts[..k] + ts[k + 1..]
  {
    assert ts[..k] == [ts[0]] + ts[1..][..k - 1];
    assert ts[1..][k..] == ts[k + 1..];
  }

  lemma RemoveAt(ts: seq<Task>, k: nat)
    requires k < |ts| && Distinct(ts)
    ensures Remove(ts, ts[k].id) == ts[..k] + ts[k + 1..]
  {
    hide Distinct;
    if k > 0 {
      TailDistinct(ts, k);
      RemoveAt(ts[1..], k - 1);
      Splice(ts, k);
    }
  }
}
