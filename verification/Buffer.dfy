/** The network buffer (src/buffer.cc, include/angel/buffer.h): an array with a read and a write
    index that holds a first-in first-out queue of octets. */
module Buffer {
  import opened Bytes

  // ---------------------------------------------------------------- the queue it stands for

  datatype Op = Append(data: seq<byte>) | Retrieve(n: nat)

  /** `retrieve` of more than there is takes all there is. */
  function Rest(s: seq<byte>, n: nat): seq<byte> { if n < |s| then s[n..] else [] }

  function After(s: seq<byte>, ops: seq<Op>): seq<byte>
    decreases |ops|
  {
    if ops == [] then s
    else After(match ops[0] case Append(d) => s + d case Retrieve(n) => Rest(s, n), ops[1..])
  }

  function Appended(ops: seq<Op>): seq<byte> {
    if ops == [] then [] else (if ops[0].Append? then ops[0].data else []) + Appended(ops[1..])
  }

  /** What the calls to `retrieve` took, in order. */
  function Taken(s: seq<byte>, ops: seq<Op>): seq<byte>
    decreases |ops|
  {
    if ops == [] then []
    else match ops[0]
      case Append(d) => Taken(s + d, ops[1..])
      case Retrieve(n) => s[..Min(n, |s|)] + Taken(Rest(s, n), ops[1..])
  }

  /** Octets leave in the order they came; none is lost and none appears. */
  lemma {:induction false} FirstInFirstOut(s: seq<byte>, ops: seq<Op>)
    ensures Taken(s, ops) + After(s, ops) == s + Appended(ops)
    decreases |ops|
  {
    if ops == [] {
      assert s + [] == s;
    } else {
      match ops[0]
      case Append(d) =>
        FirstInFirstOut(s + d, ops[1..]);
        assert s + d + Appended(ops[1..]) == s + (d + Appended(ops[1..]));
      case Retrieve(n) =>
        FirstInFirstOut(Rest(s, n), ops[1..]);
        var k := Min(n, |s|);
        assert s[..k] + Rest(s, n) == s;
        assert s[..k] + (Taken(Rest(s, n), ops[1..]) + After(Rest(s, n), ops[1..]))
          == s[..k] + Taken(Rest(s, n), ops[1..]) + After(Rest(s, n), ops[1..]);
        assert s[..k] + (Rest(s, n) + Appended(ops[1..])) == s + ([] + Appended(ops[1..]));
    }
  }

  lemma Slice(s: seq<byte>, r: nat, w: nat, i: nat, n: nat)
    requires r + i + n <= w <= |s|
    ensures s[r..w][i..i + n] == s[r + i..r + i + n]
  {
    var a, b := s[r..w][i..i + n], s[r + i..r + i + n];
    assert |a| == |b| == n;
    assert forall k :: 0 <= k < n ==> a[k] == s[r + i + k] == b[k];
  }

  // ---------------------------------------------------------------- the object

  const EXTRA_SIZE := 65536

  /** Answer of `readv`: octets, none at the end of the stream, or a failure. */
  datatype Reading = Arrived(data: seq<byte>) | Failed

  class Buffer {
    var buf: array<byte>
    var readIndex: nat
    var writeIndex: nat

    ghost predicate Valid()
      reads this
    {
      readIndex <= writeIndex <= buf.Length
    }

    ghost function Contents(): seq<byte>
      reads this, buf
      requires Valid()
    {
      buf[readIndex..writeIndex]
    }

    constructor (size: nat)
      ensures Valid() && fresh(buf) && buf.Length == size && Contents() == []
    {
      buf := new byte[size];
      readIndex, writeIndex := 0, 0;
    }

    function Prependable(): nat
      reads this
    {
      readIndex
    }

    function Readable(): nat
      reads this
      requires Valid()
    {
      writeIndex - readIndex
    }

    function Writeable(): nat
      reads this
      requires Valid()
    {
      buf.Length - writeIndex
    }

    /** Room for `len` octets behind the contents: by moving them to the front if that is enough,
        else by growing. */
    method MakeSpace(len: nat)
      requires Valid()
      modifies this, buf
      ensures Valid() && Contents() == old(Contents()) && Writeable() >= len
      ensures buf == old(buf) || fresh(buf)
      ensures len <= old(Writeable() + Prependable()) ==> buf == old(buf)
    {
      if len > Writeable() {
        if len <= Writeable() + Prependable() {
          MoveToFront();
        } else {
          Grow(writeIndex + len);
        }
      }
    }

    /** `std::copy` of the contents to the front of the same array. */
    method MoveToFront()
      requires Valid()
      modifies this, buf
      ensures Valid() && buf == old(buf) && readIndex == 0 && Contents() == old(Contents())
    {
      var n := Readable();
      ghost var was := Contents();
      for i := 0 to n
        invariant buf == old(buf) && readIndex == old(readIndex) && writeIndex == old(writeIndex)
        invariant forall k :: 0 <= k < i ==> buf[k] == was[k]
        invariant forall k :: i <= k < n ==> buf[readIndex + k] == was[k]
      {
        buf[i] := buf[readIndex + i];
      }
      readIndex, writeIndex := 0, n;
    }

    /** `buf.resize`. */
    method Grow(size: nat)
      requires Valid() && size >= writeIndex
      modifies this
      ensures Valid() && fresh(buf) && buf.Length == size && Contents() == old(Contents())
      ensures readIndex == old(readIndex) && writeIndex == old(writeIndex)
    {
      var old_ := buf;
      var bigger := new byte[size];
      forall k | 0 <= k < writeIndex { bigger[k] := old_[k]; }
      buf := bigger;
    }

    method AppendBytes(data: seq<byte>)
      requires Valid()
      modifies this, buf
      ensures Valid() && Contents() == old(Contents()) + data
      ensures buf == old(buf) || fresh(buf)
    {
      MakeSpace(|data|);
      CopyIn(data);
      writeIndex := writeIndex + |data|;
    }

    /** Octets behind the contents, not yet counted. */
    method CopyIn(data: seq<byte>)
      requires Valid() && |data| <= Writeable()
      modifies buf
      ensures Contents() == old(Contents()) && buf[writeIndex..writeIndex + |data|] == data
      ensures buf[readIndex..writeIndex + |data|] == old(Contents()) + data
    {
      forall k | 0 <= k < |data| { buf[writeIndex + k] := data[k]; }
    }

    method RetrieveBytes(len: nat)
      requires Valid()
      modifies this
      ensures Valid() && buf == old(buf) && Contents() == Rest(old(Contents()), len)
    {
      if len < Readable() {
        readIndex := readIndex + len;
      } else {
        readIndex, writeIndex := 0, 0;
      }
    }

    /** A terminating zero behind the contents, which stay what they are. */
    method CStr()
      requires Valid()
      modifies this, buf
      ensures Valid() && Contents() == old(Contents())
      ensures writeIndex < buf.Length && buf[writeIndex] == 0
      ensures buf == old(buf) || fresh(buf)
    {
      MakeSpace(1);
      buf[writeIndex] := 0;
    }

    /** `io` is what `readv` delivers into the free part and the extra buffer. */
    method ReadFd(io: Reading) returns (n: int)
      requires Valid() && (io.Arrived? ==> |io.data| <= Writeable() + EXTRA_SIZE)
      modifies this, buf
      ensures Valid() && (buf == old(buf) || fresh(buf))
      ensures io.Arrived? ==> n == |io.data| && Contents() == old(Contents()) + io.data
      ensures io.Failed? ==> n == -1 && Contents() == old(Contents())
    {
      n := if io.Arrived? then |io.data| else -1;
      var writen := Writeable();
      if n > 0 {
        var arrived := io.data;
        if n <= writen {
          CopyIn(arrived);
          writeIndex := writeIndex + n;
        } else {
          CopyIn(arrived[..writen]);
          writeIndex := writeIndex + writen;
          AppendBytes(arrived[writen..]);
          assert arrived == arrived[..writen] + arrived[writen..];
          assert old(Contents()) + arrived[..writen] + arrived[writen..] == old(Contents()) + arrived;
        }
      }
    }

    method Swap(other: Buffer)
      requires Valid() && other.Valid()
      modifies this, other
      ensures Valid() && other.Valid()
      ensures Contents() == old(other.Contents()) && other.Contents() == old(Contents())
    {
      buf, other.buf := other.buf, buf;
      readIndex, other.readIndex := other.readIndex, readIndex;
      writeIndex, other.writeIndex := other.writeIndex, writeIndex;
    }

    method HasPrefix(s: seq<byte>) returns (yes: bool)
      requires Valid()
      ensures yes <==> StartsWith(Contents(), s)
    {
      yes := Readable() >= |s| && buf[readIndex..readIndex + |s|] == s;
    }

    /** `std::search` over the contents; a search that ends at the end means not found, also for an
        empty pattern in an empty buffer. */
    method Search(pattern: seq<byte>) returns (p: int)
      requires Valid()
      ensures p == if Contents() == [] then -1 else Find(Contents(), pattern)
    {
      var i := 0;
      while i + |pattern| <= Readable()
        invariant forall j :: 0 <= j < i ==> !Occurs(Contents(), pattern, j)
        decreases Readable() - i
      {
        assert Contents()[i..i + |pattern|] == buf[readIndex + i..readIndex + i + |pattern|] by {
          Slice(buf[..], readIndex, writeIndex, i, |pattern|);
        }
        if buf[readIndex + i..readIndex + i + |pattern|] == pattern {
          FindIs(Contents(), pattern, i);
          return if i == Readable() then -1 else i;
        }
        i := i + 1;
      }
      return -1;
    }
  }
}
