/** How an SMTP session ends (src/smtplib/smtplib.cc:209-287): which reply lines it accepts, said
    by the last command alone, and when it reports a failure or a success. */
module SmtpOutcome {
  import opened Bytes
  import opened Smtp

  /** What the client waits for once it has sent `sent`: the greeting, or the positive answer to the
      last command; further lines of an EHLO reply and prompts of AUTH LOGIN do not end the wait. */
  predicate Accepted(sent: seq<Command>, line: seq<byte>) {
    if sent == [] then StartsWith(line, R220())
    else match sent[|sent| - 1]
      case Ehlo => StartsWith(line, R250()) || StartsWith(line, More250())
      case AuthLogin | Login(_) => StartsWith(line, R235()) || StartsWith(line, R334())
      case MailFrom | RcptTo(_) | Body => StartsWith(line, R250())
      case DataCmd => StartsWith(line, R354())
      case Quit => StartsWith(line, R221())
  }

  predicate QuitSent(sent: seq<Command>) { sent != [] && sent[|sent| - 1].Quit? }

  /** A line that is accepted but answers nothing: more of an EHLO reply, or an unknown prompt. */
  predicate Filler(sent: seq<Command>, line: seq<byte>, ask: Ask) {
    sent != [] &&
    match sent[|sent| - 1]
    case Ehlo => StartsWith(line, More250())
    case AuthLogin | Login(_) => StartsWith(line, R334()) && |line| >= 4 && ask(line[4..]).None?
    case _ => false
  }

  predicate Outcome(t: Session, line: seq<byte>, ask: Ask, r: Session) {
    if !Accepted(t.sent, line) then r == t.(results := [false])
    else if QuitSent(t.sent) then r.results == [true] && r.sent == t.sent
    else r.results == [] && |r.sent| == |t.sent| + if Filler(t.sent, line, ask) then 0 else 1
  }

  lemma HelloOutcome(t: Session, line: seq<byte>, ask: Ask)
    requires t.results == [] && LastFits(t) && t.rcptIndex < |t.receivers| && (t.state.INIT? || t.state.EHLO?)
    ensures Outcome(t, line, ask, OnLine(t, line, ask))
  {
    hide StartsWith, R220, R250, R334, R235, R354, R221, More250, OfferAuth, Lower, Rcpt, DoAuth;
    if t.state.EHLO? { NotBoth(line); }
  }

  lemma AuthOutcome(t: Session, line: seq<byte>, ask: Ask)
    requires t.results == [] && LastFits(t) && t.rcptIndex < |t.receivers| && t.state.AUTH?
    ensures Outcome(t, line, ask, OnLine(t, line, ask))
  {
    hide StartsWith, R220, R250, R334, R235, R354, R221, More250, OfferAuth, Lower, Rcpt;
    if StartsWith(line, R334()) { CodeFits(line); Distinct(line); }
  }

  lemma Distinct(line: seq<byte>)
    ensures !(StartsWith(line, R334()) && StartsWith(line, R235()))
  {
    if |line| >= 4 && StartsWith(line, R334()) { assert line[0] == R334()[0] == 51; assert R235()[0] == 50; }
  }

  lemma LateOutcome(t: Session, line: seq<byte>, ask: Ask)
    requires t.results == [] && LastFits(t) && t.rcptIndex < |t.receivers|
    requires !t.state.INIT? && !t.state.EHLO? && !t.state.AUTH?
    ensures Outcome(t, line, ask, OnLine(t, line, ask))
  {
    hide StartsWith, R220, R250, R334, R235, R354, R221, More250, OfferAuth, Lower, DoAuth;
  }

  lemma UnderWay(t: Session)
    requires Ongoing(t)
    ensures t.results == [] && LastFits(t) && t.rcptIndex < |t.receivers|
  {
  }

  /** A line that is not accepted fails the session and changes nothing else. An accepted one gives
      a success after QUIT, and otherwise exactly one more command unless it is a filler. */
  lemma LineOutcome(t: Session, line: seq<byte>, ask: Ask)
    requires Ongoing(t)
    ensures Outcome(t, line, ask, OnLine(t, line, ask))
  {
    hide Ongoing, OnLine, LastFits, Outcome;
    UnderWay(t);
    if t.state.INIT? || t.state.EHLO? { HelloOutcome(t, line, ask); }
    else if t.state.AUTH? { AuthOutcome(t, line, ask); }
    else { LateOutcome(t, line, ask); }
  }

  lemma NotBoth(line: seq<byte>)
    ensures !(StartsWith(line, R250()) && StartsWith(line, More250()))
  {
    if |line| >= 4 && StartsWith(line, R250()) { assert line[3] == R250()[3] == 32; assert More250()[3] == 45; }
  }

  // ---------------------------------------------------------------- line by line

  /** The session is still under way when line `k` is reached. */
  predicate Reached(t: Session, lines: seq<seq<byte>>, k: nat, ask: Ask)
    requires t.rcptIndex < |t.receivers| && k <= |lines|
  {
    Lines(t, lines[..k], ask).results == []
  }

  /** Line `k` is reached and it is not what the last command waits for. */
  predicate FailsAt(t: Session, lines: seq<seq<byte>>, k: nat, ask: Ask)
    requires t.rcptIndex < |t.receivers| && k < |lines|
  {
    Reached(t, lines, k, ask) && !Accepted(Lines(t, lines[..k], ask).sent, lines[k])
  }

  predicate SucceedsAt(t: Session, lines: seq<seq<byte>>, k: nat, ask: Ask)
    requires t.rcptIndex < |t.receivers| && k < |lines|
  {
    && Reached(t, lines, k, ask)
    && QuitSent(Lines(t, lines[..k], ask).sent) && Accepted(Lines(t, lines[..k], ask).sent, lines[k])
  }

  lemma EndedLines(t: Session, lines: seq<seq<byte>>, ask: Ask)
    requires t.rcptIndex < |t.receivers| && t.results != []
    ensures Lines(t, lines, ask) == t
  {
  }

  /** Up to line `k` and then on. */
  lemma LinesSplit(t: Session, lines: seq<seq<byte>>, k: nat, ask: Ask)
    requires t.rcptIndex < |t.receivers| && k <= |lines|
    ensures Lines(t, lines, ask) == Lines(Lines(t, lines[..k], ask), lines[k..], ask)
  {
    hide Lines;
    LinesAppend(t, lines[..k], lines[k..], ask);
    assert lines[..k] + lines[k..] == lines;
  }

  lemma LinesSnoc(t: Session, lines: seq<seq<byte>>, k: nat, ask: Ask)
    requires t.rcptIndex < |t.receivers| && k < |lines| && Reached(t, lines, k, ask)
    ensures Lines(t, lines[..k + 1], ask) == OnLine(Lines(t, lines[..k], ask), lines[k], ask)
  {
    hide Lines, OnLine;
    LinesAppend(t, lines[..k], [lines[k]], ask);
    assert lines[..k] + [lines[k]] == lines[..k + 1];
    OneLine(Lines(t, lines[..k], ask), lines[k], ask);
  }

  /** A line that ends the session decides its result, whatever follows. */
  lemma EndsAt(t: Session, lines: seq<seq<byte>>, k: nat, ask: Ask)
    requires t.rcptIndex < |t.receivers| && Ongoing(t) && k < |lines|
    requires FailsAt(t, lines, k, ask) || SucceedsAt(t, lines, k, ask)
    ensures var u := Lines(t, lines[..k], ask); var r := Lines(t, lines, ask);
      r.sent == u.sent && r.results == [SucceedsAt(t, lines, k, ask)]
  {
    hide Lines, OnLine, Ongoing, Accepted, QuitSent;
    UnderWay(t);
    var u := Lines(t, lines[..k], ask);
    OngoingAt(t, lines[..k], ask);
    LineOutcome(u, lines[k], ask);
    LinesSnoc(t, lines, k, ask);
    LinesSplit(t, lines, k + 1, ask);
    EndedLines(Lines(t, lines[..k + 1], ask), lines[k + 1..], ask);
  }

  lemma OngoingAt(t: Session, lines: seq<seq<byte>>, ask: Ask)
    requires t.rcptIndex < |t.receivers| && Ongoing(t) && Lines(t, lines, ask).results == []
    ensures Ongoing(Lines(t, lines, ask))
  {
    hide Ongoing, Lines;
    assert Inv(t);
    LinesKeepInv(t, lines, ask);
  }

  /** A session that has ended did so at some line. */
  lemma {:induction false} EndedSomewhere(t: Session, lines: seq<seq<byte>>, ask: Ask) returns (k: nat)
    requires t.rcptIndex < |t.receivers| && Ongoing(t) && Lines(t, lines, ask).results != []
    ensures k < |lines| && (FailsAt(t, lines, k, ask) || SucceedsAt(t, lines, k, ask))
    decreases |lines|
  {
    hide Lines, OnLine, Ongoing, Accepted, QuitSent;
    UnderWay(t);
    if lines == [] {
      NoLines(t, ask);
    } else {
      k := |lines| - 1;
      if Reached(t, lines, k, ask) {
        OngoingAt(t, lines[..k], ask);
        LinesSnoc(t, lines, k, ask);
        assert lines[..k + 1] == lines;
        LineOutcome(Lines(t, lines[..k], ask), lines[k], ask);
      } else {
        var front := lines[..k];
        k := EndedSomewhere(t, front, ask);
        assert front[..k] == lines[..k];
      }
    }
  }

  lemma NoLines(t: Session, ask: Ask)
    requires t.rcptIndex < |t.receivers|
    ensures Lines(t, [], ask) == t
  {
  }

  // ---------------------------------------------------------------- every reply stream

  /** The whole lines of a text. */
  function WholeLines(buf: seq<byte>): (r: seq<seq<byte>>)
    decreases |buf|
  {
    var crlf := Find(buf, CRLF);
    if crlf < 0 then [] else [buf[..crlf]] + WholeLines(buf[crlf + 2..])
  }

  lemma {:induction false} HandleWhole(t: Session, buf: seq<byte>, ask: Ask)
    requires t.rcptIndex < |t.receivers|
    ensures Handle(t, buf, ask).0 == Lines(t, WholeLines(buf), ask)
    decreases |buf|
  {
    hide OnLine;
    var crlf := Find(buf, CRLF);
    if crlf >= 0 && t.results == [] {
      var t' := OnLine(t, buf[..crlf], ask);
      assert WholeLines(buf)[0] == buf[..crlf] && WholeLines(buf)[1..] == WholeLines(buf[crlf + 2..]);
      if t'.results == [] { HandleWhole(t', buf[crlf + 2..], ask); }
    }
  }

  /** For every stream of replies in any reads: the caller is told of a failure if and only if some
      whole line is reached that the last command does not wait for, and of a success if and only if
      QUIT is answered; until then it is told nothing. The result is given at that line, with no
      further command sent. */
  lemma ResultExactly(receivers: seq<Mailbox>, pieces: seq<seq<byte>>, ask: Ask)
    requires receivers != []
    ensures var s := Start(receivers); var r := ReadAll(s, [], pieces, ask); var lines := WholeLines(Flatten(pieces));
      && (r.results == [false] <==> exists k: nat :: k < |lines| && FailsAt(s, lines, k, ask))
      && (r.results == [true] <==> exists k: nat :: k < |lines| && SucceedsAt(s, lines, k, ask))
      && (r.results == [] || r.results == [false] || r.results == [true])
      && (forall k: nat :: k < |lines| && FailsAt(s, lines, k, ask) ==> r.sent == Lines(s, lines[..k], ask).sent)
  {
    hide Handle, ReadAll, Lines, OnLine, Ongoing, FailsAt, SucceedsAt, WholeLines;
    var s, lines := Start(receivers), WholeLines(Flatten(pieces));
    StartOngoing(receivers);
    Waiting(s, ask);
    SplitIndependent(s, [], pieces, ask);
    assert [] + Flatten(pieces) == Flatten(pieces);
    HandleWhole(s, Flatten(pieces), ask);
    forall k: nat | k < |lines| && (FailsAt(s, lines, k, ask) || SucceedsAt(s, lines, k, ask))
      ensures Lines(s, lines, ask).results == [SucceedsAt(s, lines, k, ask)]
      ensures Lines(s, lines, ask).sent == Lines(s, lines[..k], ask).sent
      ensures !(FailsAt(s, lines, k, ask) && SucceedsAt(s, lines, k, ask))
    {
      EndsAt(s, lines, k, ask);
      NotBothAt(s, lines, k, ask);
    }
    if Lines(s, lines, ask).results != [] { var k := EndedSomewhere(s, lines, ask); }
  }

  lemma NotBothAt(t: Session, lines: seq<seq<byte>>, k: nat, ask: Ask)
    requires t.rcptIndex < |t.receivers| && k < |lines|
    ensures !(FailsAt(t, lines, k, ask) && SucceedsAt(t, lines, k, ask))
  {
  }
}
