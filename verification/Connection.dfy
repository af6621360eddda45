/** The ordered send pipeline and the life cycle of a connection
    (src/connection.cc, include/angel/connection.h, src/channel.cc).

    Three queues (byte streams, files, send-complete handlers) share one id counter.
    Kernel answers to `write` and `sendfile` are inputs, and so is what a user callback
    does with the connection. The fields `submitted`, `emitted` and `closes` are history:
    what callers asked for, what reached the socket or ran, and the close callbacks made. */
module Connection {
  import opened Bytes

  datatype Phase = Connected | Closing | Closed

  /** Answer of `write` or `sendfile`: a count, EAGAIN/EINTR, or any other errno. */
  datatype Io = Accepted(n: nat) | WouldBlock | Fatal

  datatype File = File(fd: int, offset: int, count: nat)

  /** A call made on the loop thread. `io` answers the direct write, if one is tried, and
      `before` is the octet that memory holds just in front of the caller's data. */
  datatype Call =
    | Send(data: seq<byte>, before: byte, io: Io)
    | SendFile(file: File, io: Io)
    | OnComplete(handler: Handler)
    | Close

  /** A send-complete handler, as the calls it makes on its own connection. */
  datatype Handler = Handler(tag: nat, calls: seq<Call>)

  datatype Event =
    | Api(call: Call)
    | Writable(byteIo: Io, fileIo: Io)
    | PeerEof
    | SocketError(fatal: bool)

  /** One observable unit of output. */
  datatype Token = Octet(b: byte) | Ran(handler: Handler)

  /** File contents by descriptor and position, and the calls made by the close handler. */
  datatype Env = Env(disk: (int, int) -> byte, onClose: seq<Call>)

  datatype Queues = Queues(
    byteQ: seq<(nat, nat)>,
    fileQ: seq<(nat, File)>,
    doneQ: seq<(nat, Handler)>,
    output: seq<byte>)

  const NO_QUEUES := Queues([], [], [], [])

  datatype Conn = Conn(
    phase: Phase,
    sendId: nat,
    nextId: nat,
    q: Queues,
    writing: bool,
    submitted: seq<Token>,
    emitted: seq<Token>,
    closes: nat)

  const INIT := Conn(Connected, 1, 1, NO_QUEUES, false, [], [], 0)

  // ---------------------------------------------------------------- operations

  function Octets(s: seq<byte>): (r: seq<Token>)
    ensures |r| == |s| && forall i :: 0 <= i < |s| ==> r[i] == Octet(s[i])
  {
    seq(|s|, i requires 0 <= i < |s| => Octet(s[i]))
  }

  function FileOctets(e: Env, f: File): (r: seq<Token>)
    ensures |r| == f.count
    ensures forall i :: 0 <= i < f.count ==> r[i] == Octet(e.disk(f.fd, f.offset + i))
  {
    seq(f.count, i => Octet(e.disk(f.fd, f.offset + i)))
  }

  predicate SendQueueEmpty(q: Queues) { q.byteQ == [] && q.fileQ == [] }

  function Rank(p: Phase): nat {
    match p case Connected => 2 case Closing => 1 case Closed => 0
  }

  function OpenRank(c: Conn): nat { if c.phase.Closed? then 0 else 1 }

  function HandleClose(e: Env, c: Conn, forced: bool): (r: Conn)
    ensures Rank(r.phase) <= Rank(c.phase)
    decreases OpenRank(c), 0, 1
  {
    if c.phase.Closed? then c
    else if !forced && !SendQueueEmpty(c.q) then c.(phase := Closing)
    else RunCalls(e, c.(phase := Closed, writing := false, closes := c.closes + 1), e.onClose)
  }

  function Enqueue(c: Conn, rest: seq<byte>): Conn {
    c.(q := c.q.(output := c.q.output + rest, byteQ := c.q.byteQ + [(c.sendId, |rest|)]),
       sendId := c.sendId + 1, writing := true)
  }

  predicate Direct(c: Conn) { !c.writing && SendQueueEmpty(c.q) }

  function SendInLoop(e: Env, c: Conn, data: seq<byte>, before: byte, io: Io): (r: Conn)
    ensures Rank(r.phase) <= Rank(c.phase)
    decreases OpenRank(c), 0, 2
  {
    if c.phase.Closed? then c
    else
      var c0 := c.(submitted := c.submitted + Octets(data));
      if Direct(c) && io.Fatal? then HandleClose(e, c0, true)
      else if Direct(c) && io.WouldBlock? then
        // the pointer handed to append is data + n with n == -1
        if data == [] then c0 else Enqueue(c0, [before] + data[..|data| - 1])
      else
        var n := if Direct(c) then Min(io.n, |data|) else 0;
        var c1 := c0.(emitted := c0.emitted + Octets(data[..n]));
        if n < |data| then Enqueue(c1, data[n..]) else c1
  }

  function SendFileInLoop(e: Env, c: Conn, f: File, io: Io): (r: Conn)
    ensures Rank(r.phase) <= Rank(c.phase)
    decreases OpenRank(c), 0, 2
  {
    if c.phase.Closed? then c
    else
      var c0 := c.(submitted := c.submitted + FileOctets(e, f));
      if Direct(c) && io.Fatal? then HandleClose(e, c0, true)
      else
        var n := if Direct(c) && io.Accepted? then Min(io.n, f.count) else 0;
        var c1 := c0.(emitted := c0.emitted + FileOctets(e, f.(count := n)));
        if n < f.count then
          c1.(q := c1.q.(fileQ := c1.q.fileQ + [(c1.sendId, File(f.fd, f.offset + n, f.count - n))]),
              sendId := c1.sendId + 1, writing := true)
        else c1
  }

  /** Not guarded by the state: on a closed connection the handler is queued and never runs. */
  function SetSendCompleteHandler(c: Conn, h: Handler): (r: Conn)
    ensures r.phase == c.phase
  {
    c.(q := c.q.(doneQ := c.q.doneQ + [(c.sendId, h)]), sendId := c.sendId + 1, writing := true,
       submitted := if c.phase.Closed? then c.submitted else c.submitted + [Ran(h)])
  }

  function DoCall(e: Env, c: Conn, call: Call): (r: Conn)
    ensures Rank(r.phase) <= Rank(c.phase)
    decreases OpenRank(c), 0, 3
  {
    match call
    case Send(data, before, io) => SendInLoop(e, c, data, before, io)
    case SendFile(f, io) => SendFileInLoop(e, c, f, io)
    case OnComplete(h) => SetSendCompleteHandler(c, h)
    case Close => HandleClose(e, c, false)
  }

  function RunCalls(e: Env, c: Conn, calls: seq<Call>): (r: Conn)
    ensures Rank(r.phase) <= Rank(c.phase)
    decreases OpenRank(c), |calls|
  {
    if calls == [] then c else RunCalls(e, DoCall(e, c, calls[0]), calls[1..])
  }

  /** First stage of `handle_write`: the byte stream whose turn it is. */
  function WriteBytes(e: Env, c: Conn, io: Io): (r: Conn)
    ensures Rank(r.phase) <= Rank(c.phase)
  {
    if c.q.byteQ == [] || c.q.byteQ[0].0 != c.nextId then c
    else match io
      case Fatal => HandleClose(e, c, true)
      case WouldBlock => c
      case Accepted(k) => AcceptBytes(c, Min(Min(k, c.q.byteQ[0].1), |c.q.output|))
  }

  /** The byte queue after its head gives up `n` octets. */
  function TakeBytes(q: Queues, n: nat): Queues
    requires q.byteQ != [] && n <= q.byteQ[0].1 && n <= |q.output|
  {
    var (id, len) := q.byteQ[0];
    q.(output := q.output[n..], byteQ := if 0 < n == len then q.byteQ[1..] else [(id, len - n)] + q.byteQ[1..])
  }

  function AcceptBytes(c: Conn, n: nat): (r: Conn)
    requires c.q.byteQ != [] && n <= c.q.byteQ[0].1 && n <= |c.q.output|
    ensures r.phase == c.phase
  {
    c.(q := TakeBytes(c.q, n), emitted := c.emitted + Octets(c.q.output[..n]),
       nextId := if 0 < n == c.q.byteQ[0].1 then c.nextId + 1 else c.nextId)
  }

  /** Second stage: the file whose turn it is. */
  function WriteFile(e: Env, c: Conn, io: Io): (r: Conn)
    ensures Rank(r.phase) <= Rank(c.phase)
  {
    if c.q.fileQ == [] || c.q.fileQ[0].0 != c.nextId then c
    else match io
      case Fatal => HandleClose(e, c, true)
      case WouldBlock => c
      case Accepted(k) => AcceptFile(e, c, Min(k, c.q.fileQ[0].1.count))
  }

  /** The file queue after its head gives up `n` octets. */
  function TakeFile(q: Queues, n: nat): Queues
    requires q.fileQ != [] && n <= q.fileQ[0].1.count
  {
    var (id, f) := q.fileQ[0];
    q.(fileQ := if 0 < n == f.count then q.fileQ[1..]
                else [(id, File(f.fd, f.offset + n, f.count - n))] + q.fileQ[1..])
  }

  function AcceptFile(e: Env, c: Conn, n: nat): (r: Conn)
    requires c.q.fileQ != [] && n <= c.q.fileQ[0].1.count
    ensures r.phase == c.phase
  {
    c.(q := TakeFile(c.q, n), emitted := c.emitted + FileOctets(e, c.q.fileQ[0].1.(count := n)),
       nextId := if 0 < n == c.q.fileQ[0].1.count then c.nextId + 1 else c.nextId)
  }

  /** Third stage: the handler whose turn it is runs, and only then leaves its queue. */
  function RunHandler(e: Env, c: Conn): (r: Conn)
    ensures Rank(r.phase) <= Rank(c.phase)
  {
    if c.q.doneQ == [] || c.q.doneQ[0].0 != c.nextId then c
    else
      var h := c.q.doneQ[0].1;
      var c1 := RunCalls(e, c.(emitted := c.emitted + [Ran(h)]), h.calls);
      c1.(q := c1.q.(doneQ := if c1.q.doneQ == [] then [] else c1.q.doneQ[1..]), nextId := c1.nextId + 1)
  }

  /** Last stage: with nothing left, drop write interest and finish a pending close. */
  function FinishWrite(e: Env, c: Conn): (r: Conn)
    ensures Rank(r.phase) <= Rank(c.phase)
  {
    if SendQueueEmpty(c.q) && c.q.doneQ == [] then
      var c1 := c.(writing := false);
      if c1.phase.Closing? then HandleClose(e, c1, true) else c1
    else c
  }

  function HandleWrite(e: Env, c: Conn, byteIo: Io, fileIo: Io): (r: Conn)
    ensures Rank(r.phase) <= Rank(c.phase)
  {
    if c.phase.Closed? || !c.writing then c
    else
      var c1 := WriteBytes(e, c, byteIo);
      if c1.phase.Closed? then c1
      else
        var c2 := WriteFile(e, c1, fileIo);
        if c2.phase.Closed? then c2
        else FinishWrite(e, RunHandler(e, c2))
  }

  function Step(e: Env, c: Conn, ev: Event): (r: Conn)
    ensures Rank(r.phase) <= Rank(c.phase)
  {
    match ev
    case Api(call) => DoCall(e, c, call)
    case Writable(b, f) => HandleWrite(e, c, b, f)
    case PeerEof => HandleClose(e, c, true)
    case SocketError(fatal) => if fatal then HandleClose(e, c, true) else c
  }

  function Run(e: Env, c: Conn, evs: seq<Event>): Conn
    decreases |evs|
  {
    if evs == [] then c else Run(e, Step(e, c, evs[0]), evs[1..])
  }

  // ---------------------------------------------------------------- queue discipline

  /** A queue entry, whichever queue holds it. */
  datatype Item = Chunk(data: seq<byte>) | Range(file: File) | Callback(handler: Handler)

  function Tokens(e: Env, item: Item): seq<Token> {
    match item
    case Chunk(d) => Octets(d)
    case Range(f) => FileOctets(e, f)
    case Callback(h) => [Ran(h)]
  }

  function Push(q: Queues, id: nat, item: Item): Queues {
    match item
    case Chunk(d) => q.(byteQ := q.byteQ + [(id, |d|)], output := q.output + d)
    case Range(f) => q.(fileQ := q.fileQ + [(id, f)])
    case Callback(h) => q.(doneQ := q.doneQ + [(id, h)])
  }

  predicate HeadIs<T>(s: seq<(nat, T)>, id: nat) { s != [] && s[0].0 == id }

  predicate HasHead(q: Queues, id: nat) {
    if HeadIs(q.byteQ, id) then 0 < q.byteQ[0].1 <= |q.output|
    else if HeadIs(q.fileQ, id) then q.fileQ[0].1.count > 0
    else HeadIs(q.doneQ, id)
  }

  function Head(q: Queues, id: nat): Item
    requires HasHead(q, id)
  {
    if HeadIs(q.byteQ, id) then Chunk(q.output[..q.byteQ[0].1])
    else if HeadIs(q.fileQ, id) then Range(q.fileQ[0].1)
    else Callback(q.doneQ[0].1)
  }

  function Tail(q: Queues, id: nat): Queues
    requires HasHead(q, id)
  {
    if HeadIs(q.byteQ, id) then q.(byteQ := q.byteQ[1..], output := q.output[q.byteQ[0].1..])
    else if HeadIs(q.fileQ, id) then q.(fileQ := q.fileQ[1..])
    else q.(doneQ := q.doneQ[1..])
  }

  /** Together the three queues hold exactly the ids from `id` up to `end`, in order, each once. */
  predicate Aligned(q: Queues, id: nat, end: nat)
    decreases end - id
  {
    if id >= end then id == end && q == NO_QUEUES
    else HasHead(q, id) && Aligned(Tail(q, id), id + 1, end)
  }

  /** What the queues still owe, in id order. */
  function Pending(e: Env, q: Queues, id: nat, end: nat): (r: seq<Token>)
    requires Aligned(q, id, end)
    decreases end - id
  {
    if id >= end then [] else Tokens(e, Head(q, id)) + Pending(e, Tail(q, id), id + 1, end)
  }

  predicate NonEmpty(item: Item) {
    match item
    case Chunk(d) => d != []
    case Range(f) => f.count > 0
    case Callback(_) => true
  }

  lemma {:induction false} HeadsAtLeast(q: Queues, id: nat, end: nat)
    requires Aligned(q, id, end)
    ensures q.byteQ != [] ==> id <= q.byteQ[0].0 < end
    ensures q.fileQ != [] ==> id <= q.fileQ[0].0 < end
    ensures q.doneQ != [] ==> id <= q.doneQ[0].0 < end
    decreases end - id
  {
    if id < end { HeadsAtLeast(Tail(q, id), id + 1, end); }
  }

  lemma PushKeepsHead(q: Queues, id: nat, end: nat, item: Item)
    requires id < end && Aligned(q, id, end)
    ensures HasHead(Push(q, end, item), id)
    ensures Head(Push(q, end, item), id) == Head(q, id)
    ensures Tail(Push(q, end, item), id) == Push(Tail(q, id), end, item)
  {
    var p := Push(q, end, item);
    if HeadIs(q.byteQ, id) {
      assert p.byteQ[1..] == Push(Tail(q, id), end, item).byteQ;
      assert p.output[q.byteQ[0].1..] == Push(Tail(q, id), end, item).output;
    } else if HeadIs(q.fileQ, id) {
      assert p.fileQ[1..] == Push(Tail(q, id), end, item).fileQ;
    } else {
      assert p.doneQ[1..] == Push(Tail(q, id), end, item).doneQ;
    }
  }

  lemma PushOnEmpty(e: Env, id: nat, item: Item)
    requires NonEmpty(item)
    ensures Aligned(Push(NO_QUEUES, id, item), id, id + 1)
    ensures Pending(e, Push(NO_QUEUES, id, item), id, id + 1) == Tokens(e, item)
  {
    var p := Push(NO_QUEUES, id, item);
    assert HasHead(p, id) && Head(p, id) == item;
    assert Tail(p, id) == NO_QUEUES;
    assert Aligned(NO_QUEUES, id + 1, id + 1);
  }

  /** Pushing at the shared counter extends what is owed at its end and disturbs no head. */
  lemma {:induction false} PushLast(e: Env, q: Queues, id: nat, end: nat, item: Item)
    requires Aligned(q, id, end) && NonEmpty(item)
    ensures Aligned(Push(q, end, item), id, end + 1)
    ensures Pending(e, Push(q, end, item), id, end + 1) == Pending(e, q, id, end) + Tokens(e, item)
    ensures id < end ==> Head(Push(q, end, item), id) == Head(q, id)
    decreases end - id
  {
    hide Push, Head, Tail, HasHead, Tokens;
    if id < end {
      PushKeepsHead(q, id, end, item);
      PushLast(e, Tail(q, id), id + 1, end, item);
      var head, owed := Tokens(e, Head(q, id)), Pending(e, Tail(q, id), id + 1, end);
      assert head + (owed + Tokens(e, item)) == head + owed + Tokens(e, item);
    } else {
      PushOnEmpty(e, id, item);
    }
  }

  function Sum(s: seq<(nat, nat)>): nat { if s == [] then 0 else s[0].1 + Sum(s[1..]) }

  predicate Increasing<T>(s: seq<(nat, T)>) {
    forall i, j :: 0 <= i < j < |s| ==> s[i].0 < s[j].0
  }

  function Ids<T>(s: seq<(nat, T)>): set<nat> { set i | 0 <= i < |s| :: s[i].0 }

  lemma ConsIds<T>(s: seq<(nat, T)>)
    requires s != []
    ensures Ids(s) == {s[0].0} + Ids(s[1..])
  {
    forall x | x in Ids(s) ensures x in {s[0].0} + Ids(s[1..]) {
      var i :| 0 <= i < |s| && s[i].0 == x;
      if i > 0 { assert s[1..][i - 1].0 == x; }
    }
    forall x | x in Ids(s[1..]) ensures x in Ids(s) {
      var i :| 0 <= i < |s[1..]| && s[1..][i].0 == x;
      assert s[i + 1].0 == x;
    }
  }

  lemma {:induction false} QueueIdSets(q: Queues, id: nat, end: nat)
    requires Aligned(q, id, end)
    ensures Ids(q.byteQ) !! Ids(q.fileQ) !! Ids(q.doneQ)
    ensures forall x :: x in Ids(q.byteQ) + Ids(q.fileQ) + Ids(q.doneQ) <==> id <= x < end
    decreases end - id
  {
    if id < end {
      var t := Tail(q, id);
      QueueIdSets(t, id + 1, end);
      var all := Ids(t.byteQ) + Ids(t.fileQ) + Ids(t.doneQ);
      assert id !in all;
      if HeadIs(q.byteQ, id) { ConsIds(q.byteQ); }
      else if HeadIs(q.fileQ, id) { ConsIds(q.fileQ); }
      else { ConsIds(q.doneQ); }
      assert Ids(q.byteQ) + Ids(q.fileQ) + Ids(q.doneQ) == {id} + all;
    }
  }

  /** The ids of the three queues are increasing, disjoint and exactly `id..end-1`, and the
      queued lengths account for every buffered octet. */
  lemma {:induction false} QueueIds(q: Queues, id: nat, end: nat)
    requires Aligned(q, id, end)
    ensures Increasing(q.byteQ) && Increasing(q.fileQ) && Increasing(q.doneQ)
    ensures Ids(q.byteQ) !! Ids(q.fileQ) !! Ids(q.doneQ)
    ensures forall x :: x in Ids(q.byteQ) + Ids(q.fileQ) + Ids(q.doneQ) <==> id <= x < end
    ensures Sum(q.byteQ) == |q.output|
    decreases end - id
  {
    QueueIdSets(q, id, end);
    if id < end {
      var t := Tail(q, id);
      QueueIds(t, id + 1, end);
      var all := Ids(t.byteQ) + Ids(t.fileQ) + Ids(t.doneQ);
      assert forall x :: x in all ==> id < x;
      if HeadIs(q.byteQ, id) { IncreasingCons(q.byteQ); }
      else if HeadIs(q.fileQ, id) { IncreasingCons(q.fileQ); }
      else { IncreasingCons(q.doneQ); }
    }
  }

  lemma IncreasingCons<T>(s: seq<(nat, T)>)
    requires s != [] && Increasing(s[1..])
    requires forall x :: x in Ids(s[1..]) ==> s[0].0 < x
    ensures Increasing(s)
  {
    forall i, j | 0 <= i < j < |s| ensures s[i].0 < s[j].0 {
      assert s[1..][j - 1].0 in Ids(s[1..]);
      if i > 0 { assert s[1..][i - 1].0 < s[1..][j - 1].0; }
    }
  }
}
