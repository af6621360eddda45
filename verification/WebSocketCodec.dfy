/** WebSocket frames (src/websocket/ws-server.cc), after sections 5.2 to 5.4 of RFC 6455. */
module WebSocketCodec {
  import opened Bytes

  // ---------------------------------------------------------------- numbers and masks

  const TWO64 := 0x1_0000_0000_0000_0000

  /** Addition in uint64_t. */
  function Wrap64(n: nat): (r: nat)
    ensures n < TWO64 ==> r == n
  {
    n % TWO64
  }

  function Pow256(k: nat): nat { if k == 0 then 1 else 256 * Pow256(k - 1) }

  /** Network byte order in `k` octets. */
  function ToNet(n: nat, k: nat): (r: seq<byte>)
    ensures |r| == k
  {
    if k == 0 then [] else ToNet(n / 256, k - 1) + [n % 256]
  }

  function FromNet(s: seq<byte>): nat {
    if s == [] then 0 else FromNet(s[..|s| - 1]) * 256 + s[|s| - 1]
  }

  lemma {:induction false} NetRoundTrip(n: nat, k: nat)
    requires n < Pow256(k)
    ensures FromNet(ToNet(n, k)) == n
    decreases k
  {
    if k > 0 {
      NetRoundTrip(n / 256, k - 1);
      assert ToNet(n, k)[..k - 1] == ToNet(n / 256, k - 1);
    }
  }

  lemma Powers()
    ensures Pow256(2) == 0x1_0000 && Pow256(8) == TWO64
  {
    assert Pow256(2) == 256 * Pow256(1) == 65536;
    assert Pow256(4) == 256 * Pow256(3) == 256 * (256 * Pow256(2));
    assert Pow256(6) == 256 * Pow256(5) == 256 * (256 * Pow256(4));
    assert Pow256(8) == 256 * Pow256(7) == 256 * (256 * Pow256(6));
  }

  function Pow2(n: nat): nat { if n == 0 then 1 else 2 * Pow2(n - 1) }

  /** Bitwise exclusive or of the low `n` bits. */
  function XorBits(a: nat, b: nat, n: nat): (r: nat)
    ensures r < Pow2(n)
  {
    if n == 0 then 0 else (if a % 2 == b % 2 then 0 else 1) + 2 * XorBits(a / 2, b / 2, n - 1)
  }

  lemma {:induction false} XorBitsTwice(a: nat, b: nat, n: nat)
    requires a < Pow2(n)
    ensures XorBits(XorBits(a, b, n), b, n) == a
  {
    if n > 0 {
      XorBitsTwice(a / 2, b / 2, n - 1);
      var x, rest := XorBits(a, b, n), XorBits(a / 2, b / 2, n - 1);
      var bit := if a % 2 == b % 2 then 0 else 1;
      assert x == bit + 2 * rest;
      assert x / 2 == rest && x % 2 == bit;
    }
  }

  lemma EightBits()
    ensures Pow2(8) == 256
  {
    assert Pow2(8) == 2 * Pow2(7) == 4 * Pow2(6);
    assert Pow2(6) == 2 * Pow2(5) == 4 * Pow2(4);
    assert Pow2(4) == 2 * Pow2(3) == 4 * Pow2(2);
  }

  function Xor(a: byte, b: byte): byte { EightBits(); XorBits(a, b, 8) }

  lemma XorTwice(a: byte, b: byte)
    ensures Xor(Xor(a, b), b) == a
  {
    EightBits();
    XorBitsTwice(a, b, 8);
  }

  /** Bit `k` of a number. */
  predicate Bit(a: nat, k: nat) { if k == 0 then a % 2 == 1 else Bit(a / 2, k - 1) }

  lemma {:induction false} XorBitsBit(a: nat, b: nat, n: nat, k: nat)
    requires k < n
    ensures Bit(XorBits(a, b, n), k) <==> Bit(a, k) != Bit(b, k)
  {
    var rest := XorBits(a / 2, b / 2, n - 1);
    var x := XorBits(a, b, n);
    assert x == (if a % 2 == b % 2 then 0 else 1) + 2 * rest;
    if k > 0 {
      assert x / 2 == rest;
      XorBitsBit(a / 2, b / 2, n - 1, k - 1);
    }
  }

  /** Masking flips exactly the bits that are set in the key octet. */
  lemma XorFlipsBits(a: byte, b: byte, k: nat)
    requires k < 8
    ensures Bit(Xor(a, b), k) <==> Bit(a, k) != Bit(b, k)
  {
    EightBits();
    XorBitsBit(a, b, 8, k);
  }

  type Key = k: seq<byte> | |k| == 4 witness [0, 0, 0, 0]

  function Mask(data: seq<byte>, key: Key): (r: seq<byte>)
    ensures |r| == |data|
    ensures forall i :: 0 <= i < |data| ==> r[i] == Xor(data[i], key[i % 4])
  {
    seq(|data|, i requires 0 <= i < |data| => Xor(data[i], key[i % 4]))
  }

  /** Bit by bit: an octet is masked with the octet of the key whose turn it is (section 5.3 of
      RFC 6455). */
  lemma MaskFlipsBits(data: seq<byte>, key: Key, i: nat, k: nat)
    requires i < |data| && k < 8
    ensures Bit(Mask(data, key)[i], k) <==> Bit(data[i], k) != Bit(key[i % 4], k)
  {
    XorFlipsBits(data[i], key[i % 4], k);
  }

  lemma MaskTwice(data: seq<byte>, key: Key)
    ensures Mask(Mask(data, key), key) == data
  {
    forall i | 0 <= i < |data| ensures Mask(Mask(data, key), key)[i] == data[i] {
      XorTwice(data[i], key[i % 4]);
    }
  }

  // ---------------------------------------------------------------- decoding

  /** The receiving half of `WebSocketContext`. */
  datatype Ctx = Ctx(rcvFragment: bool, decoded: seq<byte>, isBinary: bool)

  datatype Code = Ok | Ping | Pong | Close

  /** Overrun is the one case outside the source's own logic: the 64-bit sum of header and payload
      length wraps around, and the copy that follows reads past the buffer. */
  datatype Outcome =
    | NotEnough
    | Error
    | Overrun
    | Decoded(code: Code, ctx: Ctx, consumed: nat)

  /** `check_fragmentation`. */
  predicate FragmentationOk(fragment: bool, fin: bool, opcode: int) {
    if !fin then (if !fragment then opcode != 0 else opcode == 0)
    else !fragment || opcode == 0
  }

  /** The length part of `decode_payload_len`: payload length and offset just behind the length. */
  datatype Length = Short | Length(payload: nat, at: nat)

  function PayloadLength(b: seq<byte>): (r: Length)
    requires |b| >= 2
    ensures r.Length? ==> 2 <= r.at <= |b|
  {
    var len7 := b[1] % 128;
    if len7 == 127 then (if |b| < 10 then Short else Length(FromNet(b[2..10]), 10))
    else if len7 == 126 then (if |b| < 4 then Short else Length(FromNet(b[2..4]), 4))
    else Length(len7, 2)
  }

  function CodeOf(opcode: int): Code {
    if opcode == 8 then Close else if opcode == 9 then Ping else if opcode == 10 then Pong else Ok
  }

  /** Effect of a frame on the receiving context. */
  function Receive(c: Ctx, fin: bool, opcode: int, payload: seq<byte>): Ctx {
    Ctx(!fin, if c.rcvFragment then c.decoded + payload else payload,
        if opcode == 1 then false else if opcode == 2 then true else c.isBinary)
  }

  /** The payload of a frame whose header and length field are complete. */
  function DecodeBody(c: Ctx, b: seq<byte>, fin: bool, opcode: int, mask: bool, len: Length): (r: Outcome)
    requires len.Length? && 2 <= len.at <= |b|
    ensures r.Decoded? ==> 2 <= r.consumed <= |b|
  {
    var start := len.at + (if mask then 4 else 0);
    if |b| < Wrap64(start + len.payload) then NotEnough
    else if start + len.payload >= TWO64 then Overrun
    else
      var raw := b[start..start + len.payload];
      var payload := if mask then Mask(raw, b[len.at..len.at + 4]) else raw;
      Decoded(CodeOf(opcode), Receive(c, fin, opcode, payload), start + len.payload)
  }

  /** `WebSocketContext::decode` on the readable bytes. */
  function Decode(c: Ctx, b: seq<byte>): (r: Outcome)
    ensures r.Decoded? ==> 2 <= r.consumed <= |b|
  {
    if |b| < 2 then NotEnough
    else
      var fin, opcode, mask := b[0] >= 128, b[0] % 16, b[1] >= 128;
      if !FragmentationOk(c.rcvFragment, fin, opcode) then Error
      else if opcode >= 8 && b[1] % 128 > 125 then Error
      else
        var len := PayloadLength(b);
        if len.Short? then NotEnough else DecodeBody(c, b, fin, opcode, mask, len)
  }

  // ---------------------------------------------------------------- the read handler

  datatype Event =
    | Message(data: seq<byte>, isBinary: bool)
    | PingSeen
    | PongSeen
    | CloseSeen
    | ErrorSeen
    | OverrunSeen

  /** The established connection: context, unread bytes, and whether it was given up. */
  datatype Session = Session(ctx: Ctx, buf: seq<byte>, stopped: bool)

  datatype Handled = Handled(events: seq<Event>, session: Session)

  /** The Establish branch of `message_handler`. */
  function Handle(c: Ctx, b: seq<byte>): (r: Handled)
    decreases |b|
  {
    if b == [] then Handled([], Session(c, b, false))
    else match Decode(c, b)
      case NotEnough => Handled([], Session(c, b, false))
      case Error => Handled([ErrorSeen], Session(c, b, true))
      case Overrun => Handled([OverrunSeen], Session(c, b, true))
      case Decoded(Close, c', n) => Handled([CloseSeen], Session(c', b[n..], true))
      case Decoded(code, c', n) => Emit(Seen(code, c'), Handle(c', b[n..]))
  }

  function Seen(code: Code, c: Ctx): seq<Event> {
    match code
    case Ok => if c.rcvFragment then [] else [Message(c.decoded, c.isBinary)]
    case Ping => [PingSeen]
    case Pong => [PongSeen]
    case Close => [CloseSeen]
  }

  function Emit(es: seq<Event>, h: Handled): Handled { h.(events := es + h.events) }

  /** One read; a connection that was given up only accumulates bytes. */
  function Read(s: Session, piece: seq<byte>): Handled {
    if s.stopped then Handled([], s.(buf := s.buf + piece)) else Handle(s.ctx, s.buf + piece)
  }

  function ReadAll(s: Session, pieces: seq<seq<byte>>): Handled
    decreases |pieces|
  {
    if pieces == [] then Handled([], s)
    else
      var h := Read(s, pieces[0]);
      Emit(h.events, ReadAll(h.session, pieces[1..]))
  }

  // ---------------------------------------------------------------- split independence

  lemma LengthStable(b: seq<byte>, more: seq<byte>)
    requires |b| >= 2 && PayloadLength(b).Length?
    ensures PayloadLength(b + more) == PayloadLength(b)
  {
    var s := b + more;
    assert s[1] == b[1];
    if |b| >= 10 { assert s[2..10] == b[2..10]; }
    if |b| >= 4 { assert s[2..4] == b[2..4]; }
  }

  lemma BodyStable(c: Ctx, b: seq<byte>, more: seq<byte>, fin: bool, opcode: int, mask: bool, len: Length)
    requires len.Length? && 2 <= len.at <= |b|
    requires !DecodeBody(c, b, fin, opcode, mask, len).NotEnough?
    ensures DecodeBody(c, b + more, fin, opcode, mask, len) == DecodeBody(c, b, fin, opcode, mask, len)
  {
    hide Mask, Receive, Wrap64;
    var start, s := len.at + (if mask then 4 else 0), b + more;
    if start + len.payload < TWO64 {
      assert s[start..start + len.payload] == b[start..start + len.payload];
      if mask { assert s[len.at..len.at + 4] == b[len.at..len.at + 4]; }
    }
  }

  /** More bytes never change the outcome of a frame that could be decided. */
  lemma DecodeStable(c: Ctx, b: seq<byte>, more: seq<byte>)
    requires !Decode(c, b).NotEnough?
    ensures Decode(c, b + more) == Decode(c, b)
  {
    assert (b + more)[0] == b[0] && (b + more)[1] == b[1];
    var len := PayloadLength(b);
    if len.Length? {
      LengthStable(b, more);
      hide PayloadLength, DecodeBody;
      var fin, opcode, mask := b[0] >= 128, b[0] % 16, b[1] >= 128;
      if FragmentationOk(c.rcvFragment, fin, opcode) && (opcode < 8 || b[1] % 128 <= 125) {
        BodyStable(c, b, more, fin, opcode, mask, len);
      }
    }
  }

  /** Handling a buffer and then the rest equals handling both at once. */
  lemma {:induction false} HandleAppend(c: Ctx, b: seq<byte>, more: seq<byte>)
    ensures Handle(c, b + more) == Emit(Handle(c, b).events, Read(Handle(c, b).session, more))
    decreases |b|
  {
    hide Decode, Seen;
    if b == [] {
      assert b + more == more;
    } else {
      match Decode(c, b)
      case NotEnough =>
      case Decoded(code, c', n) =>
        DecodeStable(c, b, more);
        assert (b + more)[n..] == b[n..] + more;
        if !code.Close? {
          HandleAppend(c', b[n..], more);
          EmitTwice(Seen(code, c'), Handle(c', b[n..]).events, Read(Handle(c', b[n..]).session, more));
        }
      case _ => DecodeStable(c, b, more);
    }
  }

  lemma EmitTwice(a: seq<Event>, b: seq<Event>, h: Handled)
    ensures Emit(a, Emit(b, h)) == Emit(a + b, h)
  {
  }

  /** The events and the final session do not depend on how the stream is split into reads. */
  lemma {:induction false} SplitIndependent(s: Session, pieces: seq<seq<byte>>)
    requires s.stopped || Handle(s.ctx, s.buf) == Handled([], s)
    ensures ReadAll(s, pieces) == Read(s, Flatten(pieces))
    decreases |pieces|
  {
    if pieces == [] {
      assert s.buf + [] == s.buf;
    } else {
      var h := Read(s, pieces[0]);
      var rest := Flatten(pieces[1..]);
      assert s.buf + Flatten(pieces) == (s.buf + pieces[0]) + rest;
      if !s.stopped {
        HandleAppend(s.ctx, s.buf + pieces[0], rest);
        HandleSettles(s.ctx, s.buf + pieces[0]);
      }
      SplitIndependent(h.session, pieces[1..]);
    }
  }

  /** What the handler leaves unread cannot be decoded further. */
  lemma {:induction false} HandleSettles(c: Ctx, b: seq<byte>)
    ensures var t := Handle(c, b).session; t.stopped || Handle(t.ctx, t.buf) == Handled([], t)
    decreases |b|
  {
    if b != [] {
      match Decode(c, b)
      case Decoded(code, c', n) => if !code.Close? { HandleSettles(c', b[n..]); }
      case _ =>
    }
  }
}
