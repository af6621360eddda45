/** Whole frames, fragmented messages and the sending half of a WebSocket
    (src/websocket/ws-server.cc, include/angel/websocket.h). */
module WebSocket {
  import opened Bytes
  import opened WebSocketCodec

  // ---------------------------------------------------------------- frames on the wire

  /** The forms of the payload length: in the second octet, in two more, or in eight more. */
  datatype Form = Tiny | Extended16 | Extended64

  /** `form` is how the length is written; a longer form than needed is accepted too. */
  datatype Frame = Frame(fin: bool, rsv: int, opcode: int, form: Form, key: Option<Key>, payload: seq<byte>)

  predicate FormFits(form: Form, n: nat) {
    match form case Tiny => n <= 125 case Extended16 => n <= 0xFFFF case Extended64 => n < TWO64 - 14
  }

  /** The form that `encode` chooses. */
  function Shortest(n: nat): Form { if n <= 125 then Tiny else if n <= 0xFFFF then Extended16 else Extended64 }

  /** A frame that section 5.2 of RFC 6455 can express; control frames are short. */
  predicate FrameOk(f: Frame) {
    0 <= f.rsv < 8 && 0 <= f.opcode < 16 && FormFits(f.form, |f.payload|) && (f.opcode >= 8 ==> f.form.Tiny?)
  }

  function LengthText(n: nat, form: Form, masked: bool): seq<byte>
    requires FormFits(form, n)
  {
    var m := if masked then 128 else 0;
    match form
    case Tiny => [m + n]
    case Extended16 => [m + 126] + ToNet(n, 2)
    case Extended64 => [m + 127] + ToNet(n, 8)
  }

  function FirstByte(f: Frame): byte
    requires FrameOk(f)
  {
    (if f.fin then 128 else 0) + 16 * f.rsv + f.opcode
  }

  function Prefix(f: Frame): seq<byte>
    requires FrameOk(f)
  {
    [FirstByte(f)] + LengthText(|f.payload|, f.form, f.key.Some?)
  }

  function FrameText(f: Frame): seq<byte>
    requires FrameOk(f)
  {
    Prefix(f) + (if f.key.Some? then f.key.value + Mask(f.payload, f.key.value) else f.payload)
  }

  lemma LengthReadsBack(first: byte, n: nat, form: Form, masked: bool, rest: seq<byte>)
    requires FormFits(form, n)
    ensures var t := LengthText(n, form, masked); var b := [first] + t + rest;
      && (b[1] >= 128 <==> masked) && (b[1] % 128 > 125 <==> !form.Tiny?)
      && PayloadLength(b) == Length(n, 1 + |t|)
  {
    Powers();
    match form
    case Tiny =>
    case Extended16 => LongLength(first, n, 2, masked, rest);
    case Extended64 => LongLength(first, n, 8, masked, rest);
  }

  lemma LongLength(first: byte, n: nat, k: nat, masked: bool, rest: seq<byte>)
    requires (k == 2 && n <= 0xFFFF) || (k == 8 && n < TWO64)
    ensures var len7 := (if k == 2 then 126 else 127) + if masked then 128 else 0;
      PayloadLength([first] + ([len7] + ToNet(n, k)) + rest) == Length(n, 2 + k)
  {
    hide FromNet, Pow256, ToNet;
    var len7 := (if k == 2 then 126 else 127) + if masked then 128 else 0;
    var b := [first] + ([len7] + ToNet(n, k)) + rest;
    assert b[2..2 + k] == ToNet(n, k) && b[1] == len7;
    Powers();
    NetRoundTrip(n, k);
  }

  lemma PrefixReadsBack(f: Frame, rest: seq<byte>)
    requires FrameOk(f)
    ensures var b := Prefix(f) + rest;
      && |b| >= 2 && b[0] == FirstByte(f) && (b[1] >= 128 <==> f.key.Some?)
      && (b[1] % 128 > 125 <==> !f.form.Tiny?)
      && PayloadLength(b) == Length(|f.payload|, |Prefix(f)|)
  {
    LengthReadsBack(FirstByte(f), |f.payload|, f.form, f.key.Some?, rest);
    hide PayloadLength;
  }

  lemma BodyFields(c: Ctx, b: seq<byte>, f: Frame, at: nat, raw: seq<byte>)
    requires FrameOk(f) && 2 <= at <= 10 && at <= |b| && |raw| == |f.payload|
    requires var start := at + (if f.key.Some? then 4 else 0);
      start + |raw| <= |b| && b[start..start + |raw|] == raw
    requires if f.key.Some? then b[at..at + 4] == f.key.value && Mask(raw, f.key.value) == f.payload
             else raw == f.payload
    ensures DecodeBody(c, b, f.fin, f.opcode, f.key.Some?, Length(|f.payload|, at))
         == Decoded(CodeOf(f.opcode), Receive(c, f.fin, f.opcode, f.payload),
                    at + (if f.key.Some? then 4 else 0) + |raw|)
  {
    hide Mask, Receive, Wrap64;
  }

  /** Decoding when the fields of the header are known. */
  lemma DecodeFields(c: Ctx, b: seq<byte>, f: Frame, at: nat, raw: seq<byte>)
    requires FrameOk(f) && 2 <= at <= 10 && at <= |b| && |raw| == |f.payload|
    requires b[0] % 16 == f.opcode && (b[0] >= 128 <==> f.fin) && (b[1] >= 128 <==> f.key.Some?)
    requires b[1] % 128 > 125 <==> !f.form.Tiny?
    requires PayloadLength(b) == Length(|f.payload|, at)
    requires var start := at + (if f.key.Some? then 4 else 0);
      start + |raw| <= |b| && b[start..start + |raw|] == raw
    requires if f.key.Some? then b[at..at + 4] == f.key.value && Mask(raw, f.key.value) == f.payload
             else raw == f.payload
    ensures Decode(c, b) ==
      if FragmentationOk(c.rcvFragment, f.fin, f.opcode)
      then Decoded(CodeOf(f.opcode), Receive(c, f.fin, f.opcode, f.payload),
                   at + (if f.key.Some? then 4 else 0) + |raw|)
      else Error
  {
    BodyFields(c, b, f, at, raw);
    hide PayloadLength, Mask, Receive, DecodeBody;
  }

  lemma FirstByteFields(f: Frame)
    requires FrameOk(f)
    ensures FirstByte(f) % 16 == f.opcode && (FirstByte(f) >= 128 <==> f.fin)
  {
  }

  lemma Slices(p: seq<byte>, key: seq<byte>, raw: seq<byte>, rest: seq<byte>)
    ensures p + (key + raw) + rest == p + (key + raw + rest)
    ensures (p + (key + raw + rest))[|p|..|p| + |key|] == key
    ensures (p + (key + raw + rest))[|p| + |key|..|p| + |key| + |raw|] == raw
  {
  }

  /** A frame in front of a buffer decodes to its payload, whatever the form of its length, shortest
      or not, and its mask, and exactly its octets are consumed; it is rejected only if it breaks the fragment order. */
  lemma FrameDecodes(c: Ctx, f: Frame, rest: seq<byte>)
    requires FrameOk(f)
    ensures Decode(c, FrameText(f) + rest) ==
      if FragmentationOk(c.rcvFragment, f.fin, f.opcode)
      then Decoded(CodeOf(f.opcode), Receive(c, f.fin, f.opcode, f.payload), |FrameText(f)|)
      else Error
  {
    var p := Prefix(f);
    assert |p| <= 10;
    FirstByteFields(f);
    hide Prefix, PayloadLength, Decode, FirstByte;
    if f.key.Some? {
      var key, raw := f.key.value, Mask(f.payload, f.key.value);
      MaskTwice(f.payload, key);
      hide Mask;
      Slices(p, key, raw, rest);
      PrefixReadsBack(f, key + raw + rest);
      DecodeFields(c, p + (key + raw + rest), f, |p|, raw);
    } else {
      Slices(p, [], f.payload, rest);
      assert [] + f.payload == f.payload;
      PrefixReadsBack(f, f.payload + rest);
      DecodeFields(c, p + (f.payload + rest), f, |p|, f.payload);
    }
  }

  // ---------------------------------------------------------------- streams of frames

  function FramesText(fs: seq<Frame>): seq<byte>
    requires forall i :: 0 <= i < |fs| ==> FrameOk(fs[i])
  {
    if fs == [] then [] else FrameText(fs[0]) + FramesText(fs[1..])
  }

  datatype Delivery = Delivery(events: seq<Event>, ctx: Ctx, stopped: bool)

  /** What a sequence of frames means, independently of octets and reads. */
  function Deliver(c: Ctx, fs: seq<Frame>): Delivery
    decreases |fs|
  {
    if fs == [] then Delivery([], c, false)
    else
      var f := fs[0];
      if !FragmentationOk(c.rcvFragment, f.fin, f.opcode) then Delivery([ErrorSeen], c, true)
      else
        var c' := Receive(c, f.fin, f.opcode, f.payload);
        if f.opcode == 8 then Delivery([CloseSeen], c', true)
        else
          var d := Deliver(c', fs[1..]);
          d.(events := Seen(CodeOf(f.opcode), c') + d.events)
  }

  lemma TextNotEmpty(f: Frame)
    requires FrameOk(f)
    ensures FrameText(f) != []
  {
  }

  lemma {:induction false} StreamDelivers(c: Ctx, fs: seq<Frame>)
    requires forall i :: 0 <= i < |fs| ==> FrameOk(fs[i])
    ensures var h, d := Handle(c, FramesText(fs)), Deliver(c, fs);
      h.events == d.events && h.session.ctx == d.ctx && h.session.stopped == d.stopped
      && (!d.stopped ==> h.session.buf == [])
    decreases |fs|
  {
    hide Decode, FrameText, FragmentationOk;
    if fs != [] {
      var f, rest := fs[0], FramesText(fs[1..]);
      TextNotEmpty(f);
      FrameDecodes(c, f, rest);
      assert (FrameText(f) + rest)[|FrameText(f)|..] == rest;
      assert FrameText(f) + rest != [];
      if FragmentationOk(c.rcvFragment, f.fin, f.opcode) && f.opcode != 8 {
        StreamDelivers(Receive(c, f.fin, f.opcode, f.payload), fs[1..]);
      }
    }
  }

  /** However the octets of any frames are split into reads, the events are those the frames mean. */
  lemma FramesInAnyReads(c: Ctx, fs: seq<Frame>, pieces: seq<seq<byte>>)
    requires forall i :: 0 <= i < |fs| ==> FrameOk(fs[i])
    requires Flatten(pieces) == FramesText(fs)
    ensures ReadAll(Session(c, [], false), pieces).events == Deliver(c, fs).events
  {
    StreamDelivers(c, fs);
    SplitIndependent(Session(c, [], false), pieces);
    assert [] + FramesText(fs) == FramesText(fs);
  }

  // ---------------------------------------------------------------- fragmented messages

  predicate Continues(fs: seq<Frame>) {
    forall i :: 0 <= i < |fs| ==> fs[i].opcode == 0 && (fs[i].fin <==> i == |fs| - 1)
  }

  function Payloads(fs: seq<Frame>): seq<byte> {
    if fs == [] then [] else fs[0].payload + Payloads(fs[1..])
  }

  lemma DeliverOne(c: Ctx, fs: seq<Frame>)
    requires c.rcvFragment && fs != [] && fs[0].opcode == 0
    ensures var c' := Receive(c, fs[0].fin, 0, fs[0].payload);
      Deliver(c, fs) == Deliver(c', fs[1..]).(events := Seen(Ok, c') + Deliver(c', fs[1..]).events)
  {
    hide Receive;
  }

  /** The continuation frames of an open message, up to the final one. */
  lemma {:induction false} ContinuationDelivers(c: Ctx, fs: seq<Frame>)
    requires c.rcvFragment && fs != [] && Continues(fs)
    ensures Deliver(c, fs)
         == Delivery([Message(c.decoded + Payloads(fs), c.isBinary)], Ctx(false, c.decoded + Payloads(fs), c.isBinary), false)
    decreases |fs|
  {
    var f := fs[0];
    var c' := Receive(c, f.fin, 0, f.payload);
    DeliverOne(c, fs);
    assert c.decoded + Payloads(fs) == c.decoded + f.payload + Payloads(fs[1..]);
    if |fs| == 1 {
      assert fs[1..] == [] && Payloads([]) == [];
      assert Deliver(c', []) == Delivery([], c', false);
      hide Deliver, Payloads;
      assert c.decoded + f.payload + [] == c.decoded + f.payload;
    } else {
      assert Continues(fs[1..]);
      hide Deliver, Payloads;
      ContinuationDelivers(c', fs[1..]);
    }
  }

  /** A message sent as an opening fragment and continuations, masked or not, is delivered once,
      as the concatenation of their payloads in order. */
  lemma FragmentsDeliver(c: Ctx, fs: seq<Frame>)
    requires !c.rcvFragment && |fs| >= 2
    requires !fs[0].fin && (fs[0].opcode == 1 || fs[0].opcode == 2) && Continues(fs[1..])
    ensures Deliver(c, fs).events == [Message(Payloads(fs), fs[0].opcode == 2)] && !Deliver(c, fs).stopped
  {
    ContinuationDelivers(Receive(c, false, fs[0].opcode, fs[0].payload), fs[1..]);
  }

  /** Section 5.4 of RFC 6455 lets control frames stand between the fragments of a message. Here
      one is accepted if and only if no message is open; otherwise the connection is given up. */
  lemma ControlOnlyBetweenMessages(c: Ctx, f: Frame, rest: seq<byte>)
    requires FrameOk(f) && f.fin && f.opcode >= 8
    ensures Decode(c, FrameText(f) + rest).Decoded? <==> !c.rcvFragment
  {
    FrameDecodes(c, f, rest);
  }

  // ---------------------------------------------------------------- sending

  const BUFFERED_SIZE := 4096

  datatype SndState = FirstFragment | MiddleFragment

  /** The sending half of `WebSocketContext`; `sent` is what reached `connection::send`. */
  datatype Sender = Sender(sent: seq<byte>, encoded: seq<byte>, snd: SndState, isBinary: bool)

  function OpcodeOf(isBinary: bool): int { if isBinary then 2 else 1 }

  function MessageFrame(s: Sender, m: seq<byte>): Frame { Frame(true, 0, OpcodeOf(s.isBinary), Shortest(|m|), None, m) }

  function FragmentFrame(s: Sender, m: seq<byte>, final: bool): Frame {
    Frame(final, 0, if final || s.snd.MiddleFragment? then 0 else OpcodeOf(s.isBinary), Shortest(|m|), None, m)
  }

  function SendMessage(s: Sender, m: seq<byte>): Sender
    requires |m| < TWO64 - 14
  {
    s.(sent := s.sent + (s.encoded + Prefix(MessageFrame(s, m))) + m, encoded := [])
  }

  function SendFragment(s: Sender, m: seq<byte>, final: bool): Sender
    requires |m| < TWO64 - 14
  {
    var s1 := s.(encoded := s.encoded + Prefix(FragmentFrame(s, m, final)),
                 snd := if final then FirstFragment else MiddleFragment);
    if |m| >= BUFFERED_SIZE then s1.(sent := s1.sent + s1.encoded + m, encoded := [])
    else
      var s2 := s1.(encoded := s1.encoded + m);
      if final || |s2.encoded| >= BUFFERED_SIZE then s2.(sent := s2.sent + s2.encoded, encoded := []) else s2
  }

  /** Everything produced so far, flushed or not. */
  function Total(s: Sender): seq<byte> { s.sent + s.encoded }

  /** Coalescing never changes the stream: each call adds exactly its frame. */
  lemma FragmentAddsFrame(s: Sender, m: seq<byte>, final: bool)
    requires |m| < TWO64 - 14
    ensures Total(SendFragment(s, m, final)) == Total(s) + FrameText(FragmentFrame(s, m, final))
    ensures final ==> SendFragment(s, m, final).encoded == []
  {
    var p := Prefix(FragmentFrame(s, m, final));
    hide Prefix;
    assert FrameText(FragmentFrame(s, m, final)) == p + m;
    assert s.sent + (s.encoded + p) + m == s.sent + s.encoded + (p + m);
    assert s.sent + ((s.encoded + p) + m) == s.sent + s.encoded + (p + m);
  }

  lemma MessageAddsFrame(s: Sender, m: seq<byte>)
    requires |m| < TWO64 - 14
    ensures Total(SendMessage(s, m)) == Total(s) + FrameText(MessageFrame(s, m))
    ensures SendMessage(s, m).encoded == []
  {
    var p := Prefix(MessageFrame(s, m));
    hide Prefix;
    assert s.sent + (s.encoded + p) + m == s.sent + s.encoded + (p + m);
  }

  /** `send_fragment` on each piece, the last one marked final. */
  function SendFragments(s: Sender, ms: seq<seq<byte>>): Sender
    requires ms != [] && forall i :: 0 <= i < |ms| ==> |ms[i]| < TWO64 - 14
    decreases |ms|
  {
    var s' := SendFragment(s, ms[0], |ms| == 1);
    if |ms| == 1 then s' else SendFragments(s', ms[1..])
  }

  function FragmentFrames(s: Sender, ms: seq<seq<byte>>): (fs: seq<Frame>)
    requires ms != [] && forall i :: 0 <= i < |ms| ==> |ms[i]| < TWO64 - 14
    ensures |fs| == |ms| && forall i :: 0 <= i < |fs| ==> FrameOk(fs[i])
    decreases |ms|
  {
    var f := FragmentFrame(s, ms[0], |ms| == 1);
    if |ms| == 1 then [f] else [f] + FragmentFrames(SendFragment(s, ms[0], false), ms[1..])
  }

  lemma FramesTextCons(f: Frame, fs: seq<Frame>)
    requires FrameOk(f) && forall i :: 0 <= i < |fs| ==> FrameOk(fs[i])
    ensures forall i :: 0 <= i < |[f] + fs| ==> FrameOk(([f] + fs)[i])
    ensures FramesText([f] + fs) == FrameText(f) + FramesText(fs)
  {
    hide FrameText, FrameOk;
    assert ([f] + fs)[1..] == fs;
  }

  lemma {:induction false} FragmentsAddFrames(s: Sender, ms: seq<seq<byte>>)
    requires ms != [] && forall i :: 0 <= i < |ms| ==> |ms[i]| < TWO64 - 14
    ensures Total(SendFragments(s, ms)) == Total(s) + FramesText(FragmentFrames(s, ms))
    ensures SendFragments(s, ms).encoded == []
    decreases |ms|
  {
    var f := FragmentFrame(s, ms[0], |ms| == 1);
    assert FrameOk(f);
    hide SendFragment, FrameText, FramesText, FrameOk, FragmentFrame, Total;
    FragmentAddsFrame(s, ms[0], |ms| == 1);
    if |ms| == 1 {
      OneFrame(f);
    } else {
      var s' := SendFragment(s, ms[0], false);
      FragmentsAddFrames(s', ms[1..]);
      FramesTextCons(f, FragmentFrames(s', ms[1..]));
      Assoc(Total(s), FrameText(f), FramesText(FragmentFrames(s', ms[1..])));
    }
  }

  lemma OneFrame(f: Frame)
    requires FrameOk(f)
    ensures FramesText([f]) == FrameText(f)
  {
    hide FrameText;
    assert [f][1..] == [];
  }

  lemma Assoc(a: seq<byte>, b: seq<byte>, c: seq<byte>)
    ensures (a + b) + c == a + (b + c)
  {
  }

  lemma {:induction false} FragmentFramesShape(s: Sender, ms: seq<seq<byte>>)
    requires ms != [] && forall i :: 0 <= i < |ms| ==> |ms[i]| < TWO64 - 14
    ensures Payloads(FragmentFrames(s, ms)) == Flatten(ms)
    ensures s.snd.MiddleFragment? || |ms| == 1 ==> Continues(FragmentFrames(s, ms))
    ensures s.snd.FirstFragment? && |ms| > 1 ==>
              var fs := FragmentFrames(s, ms); !fs[0].fin && fs[0].opcode == OpcodeOf(s.isBinary) && Continues(fs[1..])
    decreases |ms|
  {
    var fs := FragmentFrames(s, ms);
    if |ms| == 1 {
      assert fs[1..] == [] && ms[1..] == [] && Payloads([]) == [] && Flatten<byte>([]) == [];
      assert Payloads(fs) == ms[0] && Flatten(ms) == ms[0];
    } else {
      var s' := SendFragment(s, ms[0], false);
      assert s'.snd.MiddleFragment?;
      hide SendFragment;
      FragmentFramesShape(s', ms[1..]);
      assert fs[1..] == FragmentFrames(s', ms[1..]);
      if s.snd.MiddleFragment? {
        forall i | 0 <= i < |fs| ensures fs[i].opcode == 0 && (fs[i].fin <==> i == |fs| - 1) {
          if i > 0 { assert fs[i] == fs[1..][i - 1]; }
        }
      }
    }
  }

  /** A message that `send_fragment` is given in one final piece goes out as a continuation frame
      with nothing to continue; it arrives with the type the receiver last saw. */
  lemma LoneFragmentDelivers(s: Sender, m: seq<byte>, c: Ctx)
    requires |m| < TWO64 - 14 && s.snd.FirstFragment? && !c.rcvFragment
    ensures FragmentFrames(s, [m])[0].opcode == 0
    ensures Deliver(c, FragmentFrames(s, [m])).events == [Message(m, c.isBinary)]
  {
    var fs := FragmentFrames(s, [m]);
    assert fs[1..] == [];
    assert Deliver(Receive(c, true, 0, m), fs[1..]).events == [];
  }

  /** Fragments, through the coalescing buffer and any split into reads, arrive as one message that
      is their concatenation. It has the sender's type if and only if there are two or more of them
      or the receiver happened to be left with that type. */
  lemma FragmentRoundTrip(s: Sender, ms: seq<seq<byte>>, c: Ctx, pieces: seq<seq<byte>>)
    requires s.sent == [] && s.encoded == [] && s.snd.FirstFragment? && ms != []
    requires forall i :: 0 <= i < |ms| ==> |ms[i]| < TWO64 - 14
    requires !c.rcvFragment && Flatten(pieces) == SendFragments(s, ms).sent
    ensures SendFragments(s, ms).encoded == []
    ensures ReadAll(Session(c, [], false), pieces).events
      == [Message(Flatten(ms), if |ms| >= 2 then s.isBinary else c.isBinary)]
    ensures ReadAll(Session(c, [], false), pieces).events == [Message(Flatten(ms), s.isBinary)]
      <==> |ms| >= 2 || c.isBinary == s.isBinary
  {
    hide SendFragments, FragmentFrames, FramesText, Deliver, ReadAll, Continues, Payloads, FrameOk;
    var fs := FragmentFrames(s, ms);
    FragmentsAddFrames(s, ms);
    if |ms| >= 2 {
      FragmentFramesShape(s, ms);
      FragmentsDeliver(c, fs);
    } else {
      LoneFragmentDelivers(s, ms[0], c);
      OnlyPiece(ms);
    }
    var t := SendFragments(s, ms);
    assert t.sent + [] == t.sent && [] + [] + FramesText(fs) == FramesText(fs);
    FramesInAnyReads(c, fs, pieces);
  }

  lemma OnlyPiece(ms: seq<seq<byte>>)
    requires |ms| == 1
    ensures ms == [ms[0]] && Flatten(ms) == ms[0]
  {
    assert ms[1..] == [];
  }

  /** A whole message arrives as itself, for each of the three length forms. */
  lemma MessageRoundTrip(s: Sender, m: seq<byte>, c: Ctx, pieces: seq<seq<byte>>)
    requires s.sent == [] && s.encoded == [] && |m| < TWO64 - 14
    requires !c.rcvFragment && Flatten(pieces) == SendMessage(s, m).sent
    ensures ReadAll(Session(c, [], false), pieces).events == [Message(m, s.isBinary)]
  {
    hide FrameText, FramesText, ReadAll;
    var f := MessageFrame(s, m);
    MessageAddsFrame(s, m);
    OneFrame(f);
    var t := SendMessage(s, m);
    assert t.sent + [] == t.sent && [] + [] + FrameText(f) == FrameText(f);
    FramesInAnyReads(c, [f], pieces);
    assert [f][1..] == [] && Deliver(Receive(c, true, f.opcode, m), []).events == [];
  }

  // ---------------------------------------------------------------- the object

  /** What `decode` returns to the read loop. */
  datatype Verdict = More | Bad | PastEnd | Whole(code: Code)

  /** Verdict, rest of the buffer and new context are those of an outcome. */
  predicate Took(v: Verdict, rest: seq<byte>, b: seq<byte>, before: Ctx, after: Ctx, o: Outcome) {
    match o
    case NotEnough => v.More? && rest == b && after == before
    case Error => v.Bad? && rest == b && after == before
    case Overrun => v.PastEnd? && rest == b && after == before
    case Decoded(code, c, n) => v == Whole(code) && n <= |b| && rest == b[n..] && after == c
  }

  /** `WebSocketContext` in the established state. */
  class WebSocketContext {
    var rcvFragment: bool
    var decodedBuffer: seq<byte>
    var isBinaryType: bool
    var encodedBuffer: seq<byte>
    var sndFragment: SndState
    ghost var sent: seq<byte>

    function Receiving(): Ctx
      reads this
    {
      Ctx(rcvFragment, decodedBuffer, isBinaryType)
    }

    ghost function Sending(): Sender
      reads this
    {
      Sender(sent, encodedBuffer, sndFragment, isBinaryType)
    }

    constructor ()
      ensures Receiving() == Ctx(false, [], false) && Sending() == Sender([], [], FirstFragment, false)
    {
      rcvFragment, decodedBuffer, isBinaryType := false, [], false;
      encodedBuffer, sndFragment := [], FirstFragment;
      sent := [];
    }

    /** The unmasking loop of `decode`. */
    method Unmask(raw: seq<byte>, key: Key) returns (data: seq<byte>)
      ensures data == Mask(raw, key)
    {
      data := [];
      for i := 0 to |raw|
        invariant data == Mask(raw, key)[..i]
      {
        data := data + [Xor(raw[i], key[i % 4])];
      }
    }

    method Accept(fin: bool, opcode: int, payload: seq<byte>)
      modifies this`rcvFragment, this`decodedBuffer, this`isBinaryType
      ensures Receiving() == Receive(old(Receiving()), fin, opcode, payload)
    {
      decodedBuffer := if rcvFragment then decodedBuffer + payload else payload;
      rcvFragment := !fin;
      if opcode == 1 { isBinaryType := false; }
      if opcode == 2 { isBinaryType := true; }
    }

    method DoDecode(b: seq<byte>) returns (v: Verdict, rest: seq<byte>)
      modifies this`rcvFragment, this`decodedBuffer, this`isBinaryType
      ensures Took(v, rest, b, old(Receiving()), Receiving(), Decode(old(Receiving()), b))
    {
      hide PayloadLength, DecodeBody;
      rest := b;
      if |b| < 2 { return More, b; }
      var fin, opcode, mask := b[0] >= 128, b[0] % 16, b[1] >= 128;
      if !FragmentationOk(rcvFragment, fin, opcode) { return Bad, b; }
      if opcode >= 8 && b[1] % 128 > 125 { return Bad, b; }
      var len := PayloadLength(b);
      if len.Short? { return More, b; }
      v, rest := TakeBody(b, fin, opcode, mask, len);
    }

    method TakeBody(b: seq<byte>, fin: bool, opcode: int, mask: bool, len: Length) returns (v: Verdict, rest: seq<byte>)
      requires len.Length? && 2 <= len.at <= |b|
      modifies this`rcvFragment, this`decodedBuffer, this`isBinaryType
      ensures Took(v, rest, b, old(Receiving()), Receiving(), DecodeBody(old(Receiving()), b, fin, opcode, mask, len))
    {
      hide Mask, Receive, CodeOf, Wrap64;
      var start := len.at + (if mask then 4 else 0);
      if |b| < Wrap64(start + len.payload) { return More, b; }
      if start + len.payload >= TWO64 { return PastEnd, b; }
      var payload := b[start..start + len.payload];
      if mask { payload := Unmask(payload, b[len.at..len.at + 4]); }
      Accept(fin, opcode, payload);
      return Whole(CodeOf(opcode)), b[start + len.payload..];
    }

    /** The Establish branch of `message_handler`, as a loop over the buffer. */
    method MessageHandler(buf: seq<byte>) returns (events: seq<Event>, rest: seq<byte>, stopped: bool)
      modifies this`rcvFragment, this`decodedBuffer, this`isBinaryType
      ensures Handled(events, Session(Receiving(), rest, stopped)) == Handle(old(Receiving()), buf)
    {
      hide Decode, FragmentationOk;
      events, rest, stopped := [], buf, false;
      while rest != []
        invariant Emit(events, Handle(Receiving(), rest)) == Handle(old(Receiving()), buf)
        decreases |rest|
      {
        ghost var c, b := Receiving(), rest;
        var v, left := DoDecode(rest);
        rest := left;
        match v
        case More => return;
        case Bad => return events + [ErrorSeen], rest, true;
        case PastEnd => return events + [OverrunSeen], rest, true;
        case Whole(code) =>
          var seen := if code.Ok? && rcvFragment then [] else
                      match code case Ok => [Message(decodedBuffer, isBinaryType)]
                      case Ping => [PingSeen] case Pong => [PongSeen] case Close => [CloseSeen];
          EmitTwice(events, seen, Handle(Receiving(), rest));
          events := events + seen;
          if code.Close? { return events, rest, true; }
      }
    }

    /** `encode`: first byte and length into the buffer. */
    method EncodeHeader(f: Frame)
      requires FrameOk(f) && f.key.None? && f.form == Shortest(|f.payload|)
      modifies this`encodedBuffer
      ensures encodedBuffer == old(encodedBuffer) + Prefix(f)
    {
      var size := |f.payload|;
      encodedBuffer := encodedBuffer + [FirstByte(f)];
      if size <= 125 {
        encodedBuffer := encodedBuffer + [size];
      } else if size <= 0xFFFF {
        encodedBuffer := encodedBuffer + [126] + ToNet(size, 2);
      } else {
        encodedBuffer := encodedBuffer + [127] + ToNet(size, 8);
      }
    }

    method Send(m: seq<byte>)
      requires |m| < TWO64 - 14
      modifies this`encodedBuffer, this`sent
      ensures Sending() == SendMessage(old(Sending()), m)
    {
      EncodeHeader(Frame(true, 0, OpcodeOf(isBinaryType), Shortest(|m|), None, m));
      if |m| >= BUFFERED_SIZE {
        sent := sent + encodedBuffer;
        sent := sent + m;
      } else {
        encodedBuffer := encodedBuffer + m;
        sent := sent + encodedBuffer;
      }
      encodedBuffer := [];
    }

    method DoSendFragment(m: seq<byte>, final: bool)
      requires |m| < TWO64 - 14
      modifies this`encodedBuffer, this`sent, this`sndFragment
      ensures Sending() == SendFragment(old(Sending()), m, final)
    {
      var opcode := if final || sndFragment.MiddleFragment? then 0 else OpcodeOf(isBinaryType);
      sndFragment := if final then FirstFragment else MiddleFragment;
      EncodeHeader(Frame(final, 0, opcode, Shortest(|m|), None, m));
      if |m| >= BUFFERED_SIZE {
        sent := sent + encodedBuffer;
        sent := sent + m;
        encodedBuffer := [];
      } else {
        encodedBuffer := encodedBuffer + m;
        if final || |encodedBuffer| >= BUFFERED_SIZE {
          sent := sent + encodedBuffer;
          encodedBuffer := [];
        }
      }
    }
  }
}
