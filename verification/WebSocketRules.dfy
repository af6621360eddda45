/** The rules a received frame is held to and the event each opcode gives
    (src/websocket/ws-server.cc:65-91, 245-344), and how much the sender holds back. */
module WebSocketRules {
  import opened Bytes
  import opened WebSocketCodec
  import opened WebSocket

  /** A frame breaks the order exactly if it is not a continuation while a message is open, or is a
      continuation that opens a message without ending it. */
  lemma OrderExactly(c: Ctx, f: Frame, rest: seq<byte>)
    requires FrameOk(f)
    ensures Decode(c, FrameText(f) + rest).Error? <==> if c.rcvFragment then f.opcode != 0 else !f.fin && f.opcode == 0
    ensures !Decode(c, FrameText(f) + rest).Error? ==> Decode(c, FrameText(f) + rest).Decoded?
  {
    FrameDecodes(c, f, rest);
  }

  /** A control frame whose length does not fit in seven bits is refused. */
  lemma LongControlRefused(c: Ctx, b: seq<byte>)
    requires |b| >= 2 && b[0] % 16 >= 8 && b[1] % 128 > 125
    ensures Decode(c, b).Error?
  {
  }

  /** The payload length that a header declares in eight octets. */
  function Declared(b: seq<byte>): nat
    requires |b| >= 10
  {
    FromNet(b[2..10])
  }

  /** The sum of header and payload length wraps around, and the frame is read past the buffer,
      exactly for a declared length that close to 2^64, once so many octets are there as the wrapped
      sum says. */
  lemma OverrunExactly(c: Ctx, b: seq<byte>)
    requires |b| >= 10 && b[1] % 128 == 127 && b[0] % 16 < 8 && FragmentationOk(c.rcvFragment, b[0] >= 128, b[0] % 16)
    ensures Decode(c, b).Overrun? <==>
      var header := if b[1] >= 128 then 14 else 10;
      header + Declared(b) >= TWO64 && |b| >= header + Declared(b) - TWO64
  {
    hide FromNet;
    DeclaredBelow(b);
  }

  lemma DeclaredBelow(b: seq<byte>)
    requires |b| >= 10
    ensures Declared(b) < TWO64
  {
    NetBelow(b[2..10]);
    Powers();
  }

  lemma NetBelow(s: seq<byte>)
    ensures FromNet(s) < Pow256(|s|)
  {
    if s != [] { NetBelow(s[..|s| - 1]); }
  }

  /** The event of a frame that stands alone: by its opcode a close, a ping, a pong or a message,
      which is binary for opcode 2, text for opcode 1 and else what the last one was. */
  function Alone(c: Ctx, f: Frame): Event {
    if f.opcode == 8 then CloseSeen
    else if f.opcode == 9 then PingSeen
    else if f.opcode == 10 then PongSeen
    else Message(f.payload, f.opcode == 2 || (f.opcode != 1 && c.isBinary))
  }

  /** Over octets in any reads: a final frame with no message open gives the event of its opcode, and
      only a close ends the session. */
  lemma OpcodeDecides(c: Ctx, f: Frame, pieces: seq<seq<byte>>)
    requires FrameOk(f) && f.fin && !c.rcvFragment && Flatten(pieces) == FrameText(f)
    ensures ReadAll(Session(c, [], false), pieces).events == [Alone(c, f)]
    ensures ReadAll(Session(c, [], false), pieces).session.stopped <==> f.opcode == 8
  {
    hide FrameText, ReadAll, Handle;
    var none: seq<Frame> := [];
    var fs := [f] + none;
    assert fs[1..] == none && FrameText(f) + FramesText(none) == FramesText(fs) == FrameText(f) + [];
    FramesInAnyReads(c, fs, pieces);
    var c' := Receive(c, f.fin, f.opcode, f.payload);
    assert Deliver(c', none) == Delivery([], c', false);
    StreamDelivers(c, fs);
    SessionStart(c);
    SplitIndependent(Session(c, [], false), pieces);
    assert [] + Flatten(pieces) == FramesText(fs);
  }

  lemma SessionStart(c: Ctx)
    ensures Handle(c, []) == Handled([], Session(c, [], false))
  {
  }

  /** A frame that breaks the order is reported as an error and ends the session. */
  lemma DisorderReported(c: Ctx, f: Frame, rest: seq<byte>)
    requires FrameOk(f) && (if c.rcvFragment then f.opcode != 0 else !f.fin && f.opcode == 0)
    ensures Handle(c, FrameText(f) + rest) == Handled([ErrorSeen], Session(c, FrameText(f) + rest, true))
  {
    hide FrameText, Decode;
    OrderExactly(c, f, rest);
    TextNotEmpty(f);
  }

  /** The length is written in the fewest octets, as section 5.2 of RFC 6455 demands. */
  lemma LengthIsShortest(n: nat, form: Form, masked: bool)
    requires FormFits(form, n)
    ensures FormFits(Shortest(n), n) && |LengthText(n, Shortest(n), masked)| <= |LengthText(n, form, masked)|
  {
  }

  /** Less than 4096 octets of fragments ever wait, and a fragment is held back exactly if it is not
      the final one and all that waits stays below that. */
  lemma SenderHoldsLittle(s: Sender, m: seq<byte>, final: bool)
    requires |m| < TWO64 - 14 && |s.encoded| < BUFFERED_SIZE
    ensures var t := SendFragment(s, m, final); var waiting := |s.encoded| + |FrameText(FragmentFrame(s, m, final))|;
      && |t.encoded| < BUFFERED_SIZE
      && (!final && waiting < BUFFERED_SIZE ==> t.sent == s.sent)
      && (final || waiting >= BUFFERED_SIZE ==> t.encoded == [])
  {
    var p := Prefix(FragmentFrame(s, m, final));
    hide Prefix;
    assert FrameText(FragmentFrame(s, m, final)) == p + m;
  }
}
