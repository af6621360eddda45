/** The SMTP client session (src/smtplib/smtplib.cc:127-287; sections 3.3, 4.1.4 and 4.5.2 of
    RFC 5321). The base64 prompts of AUTH LOGIN are read by the parameter `ask`. */
module Smtp {
  import opened Bytes

  type Mailbox = seq<byte>

  datatype Credential = Username | Password

  datatype Command =
    | Ehlo | AuthLogin | Login(credential: Credential)
    | MailFrom | RcptTo(receiver: Mailbox) | DataCmd | Body | Quit

  datatype State = INIT | EHLO | AUTH | MAIL | RCPT | DATA | QUIT | CLOSE

  /** What the server asks for in a 334 reply; None if it is neither. */
  type Ask = seq<byte> -> Option<Credential>

  /** `sent`, `answers` and `results` are history: the commands, the reply that led to each of them
      (and to a success), and the results given to the caller. `logins` is the AUTH exchange. */
  datatype Session = Session(
    receivers: seq<Mailbox>,
    state: State,
    rcptIndex: nat,
    needAuth: bool,
    sent: seq<Command>,
    answers: seq<seq<byte>>,
    logins: Option<seq<Credential>>,
    results: seq<bool>)

  function Start(receivers: seq<Mailbox>): Session {
    Session(receivers, INIT, 0, false, [], [], None, [])
  }

  // ---------------------------------------------------------------- one reply line

  function R220(): seq<byte> { Ascii("220 ") }
  function R250(): seq<byte> { Ascii("250 ") }
  function R334(): seq<byte> { Ascii("334 ") }
  function R235(): seq<byte> { Ascii("235 ") }
  function R354(): seq<byte> { Ascii("354 ") }
  function R221(): seq<byte> { Ascii("221 ") }
  function More250(): seq<byte> { Ascii("250-") }
  function OfferAuth(): seq<byte> { Ascii("250-auth") }

  function Send(t: Session, line: seq<byte>, c: Command, to: State): Session {
    t.(sent := t.sent + [c], answers := t.answers + [line], state := to)
  }

  function Fail(t: Session): Session { t.(results := t.results + [false]) }

  function Rcpt(t: Session, line: seq<byte>): (r: Session)
    requires t.rcptIndex < |t.receivers|
    ensures r.results == t.results
  {
    var next := Send(t, line, RcptTo(t.receivers[t.rcptIndex]), t.state);
    if t.rcptIndex + 1 >= |t.receivers| then next.(rcptIndex := 0, state := RCPT)
    else next.(rcptIndex := t.rcptIndex + 1)
  }

  function DoAuth(t: Session, line: seq<byte>, ask: Ask): (r: Session)
    requires StartsWith(line, R334())
    ensures r.results == t.results
  {
    match ask(line[4..])
    case Some(c) =>
      Send(t, line, Login(c), AUTH).(logins := if t.logins.Some? then Some(t.logins.value + [c]) else None)
    case None => t
  }

  /** The switch of `send_mail` for one line of the reply. */
  function OnLine(t: Session, line: seq<byte>, ask: Ask): (r: Session)
    requires t.rcptIndex < |t.receivers|
    ensures r.rcptIndex < |r.receivers| && r.receivers == t.receivers
  {
    match t.state
    case INIT => if StartsWith(line, R220()) then Send(t, line, Ehlo, EHLO) else Fail(t)
    case EHLO =>
      if StartsWith(line, More250()) then
        if StartsWith(Lower(line), OfferAuth()) then t.(needAuth := true) else t
      else if StartsWith(line, R250()) then
        if t.needAuth then Send(t, line, AuthLogin, AUTH).(logins := Some([])) else Send(t, line, MailFrom, MAIL)
      else Fail(t)
    case AUTH =>
      if StartsWith(line, R334()) then DoAuth(t, line, ask)
      else if StartsWith(line, R235()) then Send(t, line, MailFrom, MAIL)
      else Fail(t)
    case MAIL => if StartsWith(line, R250()) then Rcpt(t, line) else Fail(t)
    case RCPT => if StartsWith(line, R250()) then Send(t, line, DataCmd, DATA) else Fail(t)
    case DATA => if StartsWith(line, R354()) then Send(t, line, Body, QUIT) else Fail(t)
    case QUIT => if StartsWith(line, R250()) then Send(t, line, Quit, CLOSE) else Fail(t)
    case CLOSE =>
      if StartsWith(line, R221()) then t.(answers := t.answers + [line], results := t.results + [true])
      else Fail(t)
  }

  // ---------------------------------------------------------------- the script

  function Rcpts(receivers: seq<Mailbox>): seq<Command> {
    seq(|receivers|, i requires 0 <= i < |receivers| => RcptTo(receivers[i]))
  }

  function Logins(cs: seq<Credential>): seq<Command> {
    seq(|cs|, i requires 0 <= i < |cs| => Login(cs[i]))
  }

  function Opening(logins: Option<seq<Credential>>): seq<Command> {
    [Ehlo] + if logins.Some? then [AuthLogin] + Logins(logins.value) else []
  }

  /** The whole session for a list of receivers. */
  function Script(logins: Option<seq<Credential>>, receivers: seq<Mailbox>): seq<Command> {
    Opening(logins) + [MailFrom] + Rcpts(receivers) + [DataCmd, Body, Quit]
  }

  /** The part of the script sent when the session is in a given state. */
  function SentSoFar(t: Session): seq<Command>
    requires t.rcptIndex <= |t.receivers|
  {
    match t.state
    case INIT => []
    case EHLO => [Ehlo]
    case AUTH => Opening(t.logins)
    case MAIL => Opening(t.logins) + [MailFrom] + Rcpts(t.receivers[..t.rcptIndex])
    case RCPT => Opening(t.logins) + [MailFrom] + Rcpts(t.receivers)
    case DATA => Opening(t.logins) + [MailFrom] + Rcpts(t.receivers) + [DataCmd]
    case QUIT => Opening(t.logins) + [MailFrom] + Rcpts(t.receivers) + [DataCmd, Body]
    case CLOSE => Script(t.logins, t.receivers)
  }

  lemma PrefixOfScript(t: Session)
    requires t.rcptIndex <= |t.receivers| && (t.state.AUTH? ==> t.logins.Some?)
    ensures SentSoFar(t) <= Script(t.logins, t.receivers)
  {
    hide Opening;
    assert [Ehlo] <= Opening(t.logins) by { FirstEhlo(t.logins); }
    assert Rcpts(t.receivers[..t.rcptIndex]) <= Rcpts(t.receivers);
  }

  lemma FirstEhlo(logins: Option<seq<Credential>>)
    ensures [Ehlo] <= Opening(logins)
  {
  }

  /** `line` is the positive answer to command c that lets the next command follow. */
  predicate Positive(c: Command, line: seq<byte>, next: Option<Command>) {
    match c
    case Ehlo => StartsWith(line, R250())
    case AuthLogin | Login(_) =>
      if next.Some? && next.value.Login? then StartsWith(line, R334()) else StartsWith(line, R235())
    case MailFrom => StartsWith(line, R250())
    case RcptTo(_) => StartsWith(line, R250())
    case DataCmd => StartsWith(line, R354())
    case Body => StartsWith(line, R250())
    case Quit => StartsWith(line, R221())
  }

  /** Every answer so far was the positive answer to the command before it; the first was the
      greeting. */
  predicate Answered(sent: seq<Command>, answers: seq<seq<byte>>) {
    && |sent| <= |answers| <= |sent| + 1
    && (answers != [] ==> StartsWith(answers[0], R220()))
    && forall i :: 1 <= i < |answers| ==>
         Positive(sent[i - 1], answers[i], if i < |sent| then Some(sent[i]) else None)
  }

  predicate LastFits(t: Session) {
    match t.state
    case INIT => t.sent == []
    case EHLO => t.sent != [] && t.sent[|t.sent| - 1] == Ehlo
    case AUTH => t.sent != [] && (t.sent[|t.sent| - 1].AuthLogin? || t.sent[|t.sent| - 1].Login?)
    case MAIL => t.sent != [] && (t.sent[|t.sent| - 1].MailFrom? || t.sent[|t.sent| - 1].RcptTo?)
    case RCPT => t.sent != [] && t.sent[|t.sent| - 1].RcptTo?
    case DATA => t.sent != [] && t.sent[|t.sent| - 1].DataCmd?
    case QUIT => t.sent != [] && t.sent[|t.sent| - 1].Body?
    case CLOSE => t.sent != [] && t.sent[|t.sent| - 1].Quit?
  }

  predicate Ongoing(t: Session) {
    && t.results == [] && t.rcptIndex < |t.receivers| && LastFits(t)
    && t.sent == SentSoFar(t) && |t.answers| == |t.sent| && Answered(t.sent, t.answers)
    && (t.state.INIT? || t.state.EHLO? ==> t.logins.None?) && (t.state.AUTH? ==> t.logins.Some?)
    && (t.logins.Some? ==> t.needAuth) && (!t.state.MAIL? ==> t.rcptIndex == 0)
  }

  /** The session is under way with a prefix of the script sent and answered, or it has ended with
      one result. */
  predicate Inv(t: Session) {
    || Ongoing(t)
    || (t.results == [false] && Ongoing(t.(results := [])))
    || (t.results == [true] && t.sent == Script(t.logins, t.receivers) && |t.answers| == |t.sent| + 1
        && Answered(t.sent, t.answers) && (t.logins.Some? ==> t.needAuth))
  }

  lemma SendAnswers(t: Session, line: seq<byte>, c: Command)
    requires |t.answers| == |t.sent| && Answered(t.sent, t.answers)
    requires if t.sent == [] then StartsWith(line, R220()) else Positive(t.sent[|t.sent| - 1], line, Some(c))
    ensures Answered(t.sent + [c], t.answers + [line])
  {
    hide Positive;
  }

  lemma LoginsSnoc(cs: seq<Credential>, c: Credential)
    ensures Opening(Some(cs + [c])) == Opening(Some(cs)) + [Login(c)]
  {
    assert Logins(cs + [c]) == Logins(cs) + [Login(c)];
  }

  lemma RcptsSnoc(rs: seq<Mailbox>, k: nat)
    requires k < |rs|
    ensures Rcpts(rs[..k + 1]) == Rcpts(rs[..k]) + [RcptTo(rs[k])]
    ensures Rcpts(rs[..|rs|]) == Rcpts(rs)
  {
    assert rs[..k + 1] == rs[..k] + [rs[k]];
    assert rs[..|rs|] == rs;
  }

  lemma RcptStep(t: Session, line: seq<byte>)
    requires Ongoing(t) && t.state.MAIL? && StartsWith(line, R250())
    ensures Ongoing(Rcpt(t, line))
  {
    hide Opening, Rcpts;
    var c := RcptTo(t.receivers[t.rcptIndex]);
    SendAnswers(t, line, c);
    RcptsSnoc(t.receivers, t.rcptIndex);
    var head := Opening(t.logins) + [MailFrom];
    assert head + Rcpts(t.receivers[..t.rcptIndex]) + [c] == head + (Rcpts(t.receivers[..t.rcptIndex]) + [c]);
    hide Answered;
  }

  lemma AuthStep(t: Session, line: seq<byte>, ask: Ask)
    requires Ongoing(t) && t.state.AUTH? && StartsWith(line, R334())
    ensures Ongoing(DoAuth(t, line, ask))
  {
    hide Opening;
    match ask(line[4..])
    case Some(c) =>
      SendAnswers(t, line, Login(c));
      LoginsSnoc(t.logins.value, c);
      hide Answered;
    case None =>
  }

  /** One more command of the script, on the answer it waited for. */
  lemma SendKeeps(t: Session, r: Session, line: seq<byte>, c: Command)
    requires Ongoing(t) && r.sent == t.sent + [c] && r.answers == t.answers + [line]
    requires r.results == [] && r.receivers == t.receivers && r.rcptIndex == 0
    requires SentSoFar(r) == SentSoFar(t) + [c] && LastFits(r)
    requires if t.sent == [] then StartsWith(line, R220()) else Positive(t.sent[|t.sent| - 1], line, Some(c))
    requires (r.state.EHLO? ==> r.logins.None?) && !r.state.INIT? && (r.state.AUTH? ==> r.logins.Some?)
    requires r.logins.Some? ==> r.needAuth
    ensures Ongoing(r)
  {
    hide SentSoFar, Positive, LastFits;
    SendAnswers(t, line, c);
    hide Answered;
  }

  lemma EarlyStep(t: Session, line: seq<byte>, ask: Ask)
    requires Ongoing(t) && (t.state.INIT? || t.state.EHLO? || t.state.AUTH?) && !StartsWith(line, R334())
    ensures OnLine(t, line, ask).results == [] ==> Ongoing(OnLine(t, line, ask))
  {
    hide Rcpts, Logins, Answered, Ongoing;
    OngoingFacts(t);
    NoRcpts(t.receivers);
    NoLogins();
    var r := OnLine(t, line, ask);
    if |r.sent| > |t.sent| {
      assert SentSoFar(r) == SentSoFar(t) + [r.sent[|t.sent|]];
      SendKeeps(t, r, line, r.sent[|t.sent|]);
    } else if r.results == [] {
      StaysOngoing(t, r);
    }
  }

  lemma StaysOngoing(t: Session, r: Session)
    requires Ongoing(t) && t.state.EHLO? && (r == t || r == t.(needAuth := true))
    ensures Ongoing(r)
  {
    hide Answered, Opening, Rcpts;
  }

  lemma LateStep(t: Session, line: seq<byte>, ask: Ask)
    requires Ongoing(t) && (t.state.RCPT? || t.state.DATA? || t.state.QUIT?)
    ensures OnLine(t, line, ask).results == [] ==> Ongoing(OnLine(t, line, ask))
  {
    hide Opening, Rcpts, Answered, Ongoing;
    OngoingFacts(t);
    var r := OnLine(t, line, ask);
    if r.results == [] {
      var head := Opening(t.logins) + [MailFrom] + Rcpts(t.receivers);
      assert head + [DataCmd] + [Body] == head + [DataCmd, Body];
      assert head + [DataCmd, Body] + [Quit] == head + [DataCmd, Body, Quit];
      SendKeeps(t, r, line, r.sent[|t.sent|]);
    }
  }

  lemma NoRcpts(rs: seq<Mailbox>)
    ensures Rcpts(rs[..0]) == []
  {
  }

  lemma NoLogins()
    ensures Opening(Some([])) == [Ehlo] + [AuthLogin]
  {
  }

  lemma LastStep(t: Session, line: seq<byte>, ask: Ask)
    requires Ongoing(t) && t.state.CLOSE?
    ensures Inv(OnLine(t, line, ask))
  {
    hide Opening, Rcpts;
    if StartsWith(line, R221()) {
      assert Positive(t.sent[|t.sent| - 1], line, None);
      hide Positive;
    }
  }

  /** Every reply line keeps the session on its script. */
  lemma {:induction false} LineKeepsInv(t: Session, line: seq<byte>, ask: Ask)
    requires Ongoing(t)
    ensures Inv(OnLine(t, line, ask))
  {
    hide Ongoing;
    OngoingFacts(t);
    if t.state.CLOSE? {
      LastStep(t, line, ask);
    } else if t.state.MAIL? {
      if StartsWith(line, R250()) { RcptStep(t, line); }
    } else if t.state.AUTH? && StartsWith(line, R334()) {
      AuthStep(t, line, ask);
    } else if t.state.RCPT? || t.state.DATA? || t.state.QUIT? {
      LateStep(t, line, ask);
    } else if StartsWith(line, R334()) {
      Distinct334(line);
    } else {
      EarlyStep(t, line, ask);
    }
  }

  lemma OngoingFacts(t: Session)
    requires Ongoing(t)
    ensures t.results == [] && t.rcptIndex < |t.receivers| && LastFits(t) && t.sent == SentSoFar(t)
    ensures (t.state.INIT? || t.state.EHLO? ==> t.logins.None?) && (t.state.AUTH? ==> t.logins.Some?)
    ensures (t.logins.Some? ==> t.needAuth) && (!t.state.MAIL? ==> t.rcptIndex == 0)
  {
  }

  lemma Distinct334(line: seq<byte>)
    requires StartsWith(line, R334())
    ensures !StartsWith(line, R220()) && !StartsWith(line, R250()) && !StartsWith(line, R354()) && !StartsWith(line, More250())
  {
    assert line[0] == R334()[0] && line[1] == R334()[1];
    assert R220()[0] != 51 && R250()[0] != 51 && R354()[1] != 51 && More250()[0] != 51;
  }

  // ---------------------------------------------------------------- every reply stream

  /** The loop of `send_mail` over a buffer, with what it leaves unread. The task is gone once it
      has given its result. */
  function Handle(t: Session, buf: seq<byte>, ask: Ask): (r: (Session, seq<byte>))
    requires t.rcptIndex < |t.receivers|
    ensures r.0.rcptIndex < |r.0.receivers| && r.0.receivers == t.receivers
    decreases |buf|
  {
    var crlf := Find(buf, CRLF);
    if t.results != [] || crlf < 0 then (t, buf)
    else
      var t' := OnLine(t, buf[..crlf], ask);
      if t'.results != [] then (t', buf) else Handle(t', buf[crlf + 2..], ask)
  }

  /** One call per read, each on what was left and what arrived. */
  function ReadAll(t: Session, buf: seq<byte>, pieces: seq<seq<byte>>, ask: Ask): Session
    requires t.rcptIndex < |t.receivers|
    decreases |pieces|
  {
    if pieces == [] then t
    else var (t', rest) := Handle(t, buf + pieces[0], ask); ReadAll(t', rest, pieces[1..], ask)
  }

  lemma {:induction false} HandleKeepsInv(t: Session, buf: seq<byte>, ask: Ask)
    requires t.rcptIndex < |t.receivers| && Inv(t)
    ensures Inv(Handle(t, buf, ask).0)
    decreases |buf|
  {
    hide Ongoing, OnLine;
    var crlf := Find(buf, CRLF);
    if t.results == [] && crlf >= 0 {
      var t' := OnLine(t, buf[..crlf], ask);
      LineKeepsInv(t, buf[..crlf], ask);
      if t'.results == [] { HandleKeepsInv(t', buf[crlf + 2..], ask); }
    }
  }

  lemma {:induction false} HandleAppend(t: Session, a: seq<byte>, b: seq<byte>, ask: Ask)
    requires t.rcptIndex < |t.receivers|
    ensures Handle(t, a + b, ask).0 == Handle(Handle(t, a, ask).0, Handle(t, a, ask).1 + b, ask).0
    decreases |a|
  {
    hide OnLine;
    var crlf := Find(a, CRLF);
    if t.results == [] && crlf >= 0 {
      FindStable(a, b, CRLF);
      assert (a + b)[..crlf] == a[..crlf];
      assert (a + b)[crlf + 2..] == a[crlf + 2..] + b;
      var t' := OnLine(t, a[..crlf], ask);
      if t'.results == [] { HandleAppend(t', a[crlf + 2..], b, ask); }
    }
  }

  /** A session that waits for more has no whole line left to look at. */
  lemma {:induction false} HandleSettles(t: Session, buf: seq<byte>, ask: Ask)
    requires t.rcptIndex < |t.receivers|
    ensures var r := Handle(t, buf, ask); Handle(r.0, r.1, ask) == r
    decreases |buf|
  {
    hide OnLine;
    var crlf := Find(buf, CRLF);
    if t.results == [] && crlf >= 0 {
      var t' := OnLine(t, buf[..crlf], ask);
      if t'.results == [] { HandleSettles(t', buf[crlf + 2..], ask); }
    }
  }

  /** How the replies are cut into reads makes no difference. */
  lemma {:induction false} SplitIndependent(t: Session, buf: seq<byte>, pieces: seq<seq<byte>>, ask: Ask)
    requires t.rcptIndex < |t.receivers| && Handle(t, buf, ask) == (t, buf)
    ensures ReadAll(t, buf, pieces, ask) == Handle(t, buf + Flatten(pieces), ask).0
    decreases |pieces|
  {
    hide Handle;
    if pieces == [] {
      assert buf + Flatten(pieces) == buf;
    } else {
      var r := Handle(t, buf + pieces[0], ask);
      HandleSettles(t, buf + pieces[0], ask);
      SplitIndependent(r.0, r.1, pieces[1..], ask);
      HandleAppend(t, buf + pieces[0], Flatten(pieces[1..]), ask);
      assert buf + pieces[0] + Flatten(pieces[1..]) == buf + Flatten(pieces);
    }
  }

  lemma Waiting(t: Session, ask: Ask)
    requires t.rcptIndex < |t.receivers|
    ensures Handle(t, [], ask) == (t, [])
  {
  }

  /** What a session has done by the time it waits or has ended. */
  predicate OnScript(t: Session, receivers: seq<Mailbox>) {
    && t.sent <= Script(t.logins, receivers)
    && |t.results| <= 1
    && (t.logins.Some? ==> t.needAuth)
    && Answered(t.sent, t.answers)
    && (t.results == [true] ==> t.sent == Script(t.logins, receivers) && |t.answers| == |t.sent| + 1)
    && (t.results != [true] ==> |t.answers| == |t.sent|)
  }

  lemma InvOnScript(t: Session)
    requires Inv(t)
    ensures OnScript(t, t.receivers)
  {
    hide Script, Answered;
    if t.results != [true] {
      var u := t.(results := []);
      assert Ongoing(u);
      PrefixOfScript(u);
      assert SentSoFar(u) == t.sent;
    }
  }

  lemma StartOngoing(receivers: seq<Mailbox>)
    requires receivers != []
    ensures Ongoing(Start(receivers))
  {
  }

  /** Some whole line of the replies begins with 250-AUTH, in any case. */
  predicate OffersAuth(buf: seq<byte>)
    decreases |buf|
  {
    var crlf := Find(buf, CRLF);
    crlf >= 0 && (StartsWith(Lower(buf[..crlf]), OfferAuth()) || OffersAuth(buf[crlf + 2..]))
  }

  lemma LineOffers(t: Session, line: seq<byte>, ask: Ask)
    requires t.rcptIndex < |t.receivers|
    ensures OnLine(t, line, ask).needAuth ==> t.needAuth || StartsWith(Lower(line), OfferAuth())
  {
    hide Lower, StartsWith, OfferAuth;
  }

  lemma {:induction false} AuthNeedsOffer(t: Session, buf: seq<byte>, ask: Ask)
    requires t.rcptIndex < |t.receivers|
    ensures Handle(t, buf, ask).0.needAuth ==> t.needAuth || OffersAuth(buf)
    decreases |buf|
  {
    hide OnLine, Lower, StartsWith, OfferAuth;
    var crlf := Find(buf, CRLF);
    if t.results == [] && crlf >= 0 {
      LineOffers(t, buf[..crlf], ask);
      AuthNeedsOffer(OnLine(t, buf[..crlf], ask), buf[crlf + 2..], ask);
    }
  }

  /** For every stream of replies in any reads: the commands are a prefix of the script, AUTH is
      used only if a line of the replies offers it, there is at most one result, and it is a success
      only after the whole script was sent and every command of it got its positive reply. */
  lemma SessionFollowsScript(receivers: seq<Mailbox>, pieces: seq<seq<byte>>, ask: Ask)
    requires receivers != []
    ensures OnScript(ReadAll(Start(receivers), [], pieces, ask), receivers)
    ensures ReadAll(Start(receivers), [], pieces, ask).logins.Some? ==> OffersAuth(Flatten(pieces))
  {
    hide Handle, ReadAll, Script, Ongoing, Answered, OffersAuth;
    var s := Start(receivers);
    StartOngoing(receivers);
    Waiting(s, ask);
    SplitIndependent(s, [], pieces, ask);
    assert [] + Flatten(pieces) == Flatten(pieces);
    HandleKeepsInv(s, Flatten(pieces), ask);
    AuthNeedsOffer(s, Flatten(pieces), ask);
    InvOnScript(ReadAll(s, [], pieces, ask));
  }

  // ---------------------------------------------------------------- a willing server

  function Lines(t: Session, lines: seq<seq<byte>>, ask: Ask): (r: Session)
    requires t.rcptIndex < |t.receivers|
    ensures r.receivers == t.receivers && r.rcptIndex < |r.receivers|
    decreases |lines|
  {
    if lines == [] || t.results != [] then t else Lines(OnLine(t, lines[0], ask), lines[1..], ask)
  }

  function Joined(lines: seq<seq<byte>>): seq<byte> {
    if lines == [] then [] else lines[0] + CRLF + Joined(lines[1..])
  }

  lemma FirstLine(line: seq<byte>, rest: seq<byte>)
    requires CR !in line
    ensures Find(line + CRLF + rest, CRLF) == |line|
    ensures (line + CRLF + rest)[..|line|] == line && (line + CRLF + rest)[|line| + 2..] == rest
  {
    var s := line + CRLF + rest;
    assert Occurs(s, CRLF, |line|);
    forall j | 0 <= j < |line| ensures !Occurs(s, CRLF, j) {
      assert s[j] in line;
      NotAt(s, CRLF, j, 0);
    }
    FindIs(s, CRLF, |line|);
  }

  lemma {:induction false} HandleLines(t: Session, lines: seq<seq<byte>>, ask: Ask)
    requires t.rcptIndex < |t.receivers| && forall l :: l in lines ==> CR !in l
    ensures Handle(t, Joined(lines), ask).0 == Lines(t, lines, ask)
    decreases |lines|
  {
    hide OnLine;
    if lines == [] {
      Waiting(t, ask);
    } else if t.results == [] {
      FirstLine(lines[0], Joined(lines[1..]));
      var t' := OnLine(t, lines[0], ask);
      if t'.results == [] { HandleLines(t', lines[1..], ask); }
    }
  }

  lemma LinesAppend(t: Session, a: seq<seq<byte>>, b: seq<seq<byte>>, ask: Ask)
    requires t.rcptIndex < |t.receivers|
    ensures Lines(t, a + b, ask) == Lines(Lines(t, a, ask), b, ask)
    decreases |a|
  {
    hide OnLine;
    if a == [] {
      assert a + b == b;
    } else if t.results == [] {
      assert (a + b)[0] == a[0] && (a + b)[1..] == a[1..] + b;
      LinesAppend(OnLine(t, a[0], ask), a[1..], b, ask);
    }
  }

  lemma {:induction false} ReceiversAccepted(t: Session, oks: seq<seq<byte>>, ask: Ask)
    requires t.state.MAIL? && t.results == [] && t.rcptIndex < |t.receivers|
    requires |oks| == |t.receivers| - t.rcptIndex && forall l :: l in oks ==> StartsWith(l, R250())
    ensures Lines(t, oks, ask).state.RCPT? && Lines(t, oks, ask).results == []
    ensures Lines(t, oks, ask).needAuth == t.needAuth
    decreases |oks|
  {
    assert oks[0] in oks;
    var r := OnLine(t, oks[0], ask);
    assert Lines(t, oks, ask) == Lines(r, oks[1..], ask);
    if |oks| > 1 {
      assert forall l :: l in oks[1..] ==> l in oks;
      ReceiversAccepted(r, oks[1..], ask);
    }
  }

  /** The replies of a server that says yes to everything. `prompts` and `accepted` are its side of
      the AUTH exchange, if it offers one. */
  datatype Replies = Replies(
    greeting: seq<byte>, hellos: seq<seq<byte>>, hello: seq<byte>,
    prompts: seq<seq<byte>>, accepted: seq<byte>,
    oks: seq<seq<byte>>, rcptOk: seq<byte>, go: seq<byte>, queued: seq<byte>, bye: seq<byte>)

  predicate AllStart(lines: seq<seq<byte>>, code: seq<byte>) { forall l :: l in lines ==> StartsWith(l, code) }

  predicate Willing(r: Replies, receivers: seq<Mailbox>) {
    && StartsWith(r.greeting, R220()) && AllStart(r.hellos, More250()) && StartsWith(r.hello, R250())
    && AllStart(r.prompts, R334()) && StartsWith(r.accepted, R235())
    && AllStart(r.oks, R250()) && |r.oks| == |receivers|
    && StartsWith(r.rcptOk, R250()) && StartsWith(r.go, R354()) && StartsWith(r.queued, R250()) && StartsWith(r.bye, R221())
  }

  /** AUTH is seen on any line of the EHLO reply but the last. */
  predicate Offers(hellos: seq<seq<byte>>) { exists l :: l in hellos && StartsWith(Lower(l), OfferAuth()) }

  /** The credentials that prompts ask for; one that asks for neither gets no answer. */
  function Asked(prompts: seq<seq<byte>>, ask: Ask): seq<Credential>
    requires AllStart(prompts, R334())
  {
    if prompts == [] then []
    else
      assert prompts[0] in prompts;
      (match ask(prompts[0][4..]) case Some(c) => [c] case None => []) + Asked(prompts[1..], ask)
  }

  function AuthLines(r: Replies): seq<seq<byte>> { if Offers(r.hellos) then r.prompts + [r.accepted] else [] }

  function AllLines(r: Replies): seq<seq<byte>> {
    [r.greeting] + r.hellos + [r.hello] + AuthLines(r) + r.oks + [r.rcptOk, r.go, r.queued, r.bye]
  }

  function LoginsOf(r: Replies, ask: Ask): Option<seq<Credential>>
    requires AllStart(r.prompts, R334())
  {
    if Offers(r.hellos) then Some(Asked(r.prompts, ask)) else None
  }

  lemma OneLine(t: Session, line: seq<byte>, ask: Ask)
    requires t.rcptIndex < |t.receivers|
    ensures Lines(t, [line], ask) == if t.results == [] then OnLine(t, line, ask) else t
  {
    hide OnLine;
    var one := [line];
    assert one[1..] == [];
    assert t.results == [] ==> Lines(OnLine(t, line, ask), one[1..], ask) == OnLine(t, line, ask);
  }

  lemma {:induction false} HellosHeard(t: Session, hellos: seq<seq<byte>>, ask: Ask)
    requires t.state.EHLO? && t.results == [] && t.rcptIndex < |t.receivers| && AllStart(hellos, More250())
    ensures Lines(t, hellos, ask) == t.(needAuth := t.needAuth || Offers(hellos))
    decreases |hellos|
  {
    hide Lower, StartsWith;
    if hellos != [] {
      assert hellos[0] in hellos;
      var r := OnLine(t, hellos[0], ask);
      assert forall l :: l in hellos[1..] ==> l in hellos;
      HellosHeard(r, hellos[1..], ask);
      assert Offers(hellos) <==> StartsWith(Lower(hellos[0]), OfferAuth()) || Offers(hellos[1..]);
    }
  }

  lemma CodeFits(line: seq<byte>)
    requires StartsWith(line, R334())
    ensures |line| >= 4
  {
  }

  lemma {:induction false} PromptsAnswered(t: Session, prompts: seq<seq<byte>>, ask: Ask)
    requires t.state.AUTH? && t.results == [] && t.rcptIndex < |t.receivers| && t.logins.Some?
    requires AllStart(prompts, R334())
    ensures var r := Lines(t, prompts, ask);
      && r.state.AUTH? && r.results == [] && r.rcptIndex == t.rcptIndex && r.receivers == t.receivers
      && r.logins == Some(t.logins.value + Asked(prompts, ask))
    decreases |prompts|
  {
    hide StartsWith;
    if prompts == [] {
      assert t.logins.value + [] == t.logins.value;
    } else {
      assert prompts[0] in prompts;
      assert forall l :: l in prompts[1..] ==> l in prompts;
      var r := OnLine(t, prompts[0], ask);
      CodeFits(prompts[0]);
      assert r == DoAuth(t, prompts[0], ask);
      PromptsAnswered(r, prompts[1..], ask);
      var tail := Asked(prompts[1..], ask);
      match ask(prompts[0][4..])
      case Some(c) => assert t.logins.value + [c] + tail == t.logins.value + ([c] + tail);
      case None => assert t.logins.value + tail == t.logins.value + ([] + tail);
    }
  }

  /** The session up to the first MAIL command. */
  lemma Greeted(receivers: seq<Mailbox>, r: Replies, ask: Ask)
    requires receivers != [] && Willing(r, receivers)
    ensures var m := Lines(Start(receivers), [r.greeting] + r.hellos + [r.hello], ask);
      && m.results == [] && m.rcptIndex == 0 && m.receivers == receivers
      && (if Offers(r.hellos) then m.state.AUTH? && m.logins == Some([]) else m.state.MAIL? && m.logins == None)
  {
    var s := Start(receivers);
    var e := OnLine(s, r.greeting, ask);
    LinesAppend(s, [r.greeting] + r.hellos, [r.hello], ask);
    LinesAppend(s, [r.greeting], r.hellos, ask);
    OneLine(s, r.greeting, ask);
    HellosHeard(e, r.hellos, ask);
    var h := Lines(e, r.hellos, ask);
    OneLine(h, r.hello, ask);
    assert !StartsWith(r.hello, More250()) by { assert r.hello[3] == R250()[3]; assert More250()[3] == 45; }
  }

  lemma Authenticated(m: Session, r: Replies, ask: Ask)
    requires AllStart(r.prompts, R334()) && StartsWith(r.accepted, R235())
    requires m.results == [] && m.rcptIndex == 0 && m.receivers != []
    requires if Offers(r.hellos) then m.state.AUTH? && m.logins == Some([]) else m.state.MAIL? && m.logins == None
    ensures var t := Lines(m, AuthLines(r), ask);
      t.state.MAIL? && t.results == [] && t.rcptIndex == 0 && t.receivers == m.receivers && t.logins == LoginsOf(r, ask)
  {
    hide Offers;
    if Offers(r.hellos) {
      LinesAppend(m, r.prompts, [r.accepted], ask);
      PromptsAnswered(m, r.prompts, ask);
      var t := Lines(m, r.prompts, ask);
      OneLine(t, r.accepted, ask);
      assert !StartsWith(r.accepted, R334()) by { assert r.accepted[0] == R235()[0]; assert R334()[0] == 51; }
      assert [] + Asked(r.prompts, ask) == Asked(r.prompts, ask);
    }
  }

  /** The whole session, line by line. */
  lemma {:induction false} WillingLines(receivers: seq<Mailbox>, r: Replies, ask: Ask)
    requires receivers != [] && Willing(r, receivers)
    ensures var t := Lines(Start(receivers), AllLines(r), ask);
      t.results == [true] && t.sent == Script(LoginsOf(r, ask), receivers)
  {
    hide Lines, OnLine, Offers, AuthLines, LoginsOf, Inv;
    var s := Start(receivers);
    var head, tail := [r.greeting] + r.hellos + [r.hello], [r.rcptOk, r.go, r.queued, r.bye];
    Greeted(receivers, r, ask);
    var m := Lines(s, head, ask);
    Authenticated(m, r, ask);
    var a := Lines(m, AuthLines(r), ask);
    ReceiversAccepted(a, r.oks, ask);
    var q := Lines(a, r.oks, ask);
    Closing(q, r.rcptOk, r.go, r.queued, r.bye, ask);
    LinesAppend(s, head, AuthLines(r), ask);
    LinesAppend(s, head + AuthLines(r), r.oks, ask);
    LinesAppend(s, head + AuthLines(r) + r.oks, tail, ask);
    LoginsStay(a, r.oks, ask);
    LoginsStay(q, tail, ask);
    FinishedScript(s, AllLines(r), ask);
  }

  lemma FinishedScript(s: Session, lines: seq<seq<byte>>, ask: Ask)
    requires Ongoing(s)
    requires s.rcptIndex < |s.receivers| && Lines(s, lines, ask).results == [true]
    ensures Lines(s, lines, ask).sent == Script(Lines(s, lines, ask).logins, s.receivers)
  {
    hide Ongoing, Script;
    LinesKeepInv(s, lines, ask);
    assert !Ongoing(Lines(s, lines, ask)) by { NoResultYet(Lines(s, lines, ask)); }
  }

  lemma NoResultYet(t: Session)
    ensures Ongoing(t) ==> t.results == []
  {
  }

  /** A server that says yes to everything, with any number of lines in its EHLO reply, with or
      without AUTH, in any reads, gets the whole script, and the caller gets a success. */
  lemma {:induction false} WillingServer(receivers: seq<Mailbox>, r: Replies, pieces: seq<seq<byte>>, ask: Ask)
    requires receivers != [] && Willing(r, receivers)
    requires (forall l :: l in AllLines(r) ==> CR !in l) && Flatten(pieces) == Joined(AllLines(r))
    ensures var t := ReadAll(Start(receivers), [], pieces, ask);
      t.results == [true] && t.sent == Script(LoginsOf(r, ask), receivers)
  {
    hide Handle, ReadAll, Lines, AllLines, Willing, Script;
    var s := Start(receivers);
    Waiting(s, ask);
    SplitIndependent(s, [], pieces, ask);
    assert [] + Flatten(pieces) == Flatten(pieces);
    HandleLines(s, AllLines(r), ask);
    WillingLines(receivers, r, ask);
  }

  lemma Closing(q: Session, rcptOk: seq<byte>, go: seq<byte>, queued: seq<byte>, bye: seq<byte>, ask: Ask)
    requires q.state.RCPT? && q.results == [] && q.rcptIndex < |q.receivers|
    requires StartsWith(rcptOk, R250()) && StartsWith(go, R354()) && StartsWith(queued, R250()) && StartsWith(bye, R221())
    ensures Lines(q, [rcptOk, go, queued, bye], ask).results == [true]
  {
    var a := OnLine(q, rcptOk, ask);
    var b := OnLine(a, go, ask);
    var c := OnLine(b, queued, ask);
    var d := OnLine(c, bye, ask);
    assert [rcptOk, go, queued, bye][1..] == [go, queued, bye];
    assert [go, queued, bye][1..] == [queued, bye];
    assert [queued, bye][1..] == [bye];
    assert Lines(c, [bye], ask) == Lines(d, [bye][1..], ask);
    assert Lines(b, [queued, bye], ask) == Lines(c, [bye], ask);
    assert Lines(a, [go, queued, bye], ask) == Lines(b, [queued, bye], ask);
  }

  lemma {:induction false} LinesKeepInv(t: Session, lines: seq<seq<byte>>, ask: Ask)
    requires t.rcptIndex < |t.receivers| && Inv(t)
    ensures Inv(Lines(t, lines, ask))
    decreases |lines|
  {
    hide Ongoing, OnLine;
    if lines != [] && t.results == [] {
      LineKeepsInv(t, lines[0], ask);
      LinesKeepInv(OnLine(t, lines[0], ask), lines[1..], ask);
    }
  }

  lemma LoginsStay(t: Session, lines: seq<seq<byte>>, ask: Ask)
    requires t.rcptIndex < |t.receivers| && !t.state.INIT? && !t.state.EHLO? && !t.state.AUTH?
    ensures Lines(t, lines, ask).logins == t.logins
    decreases |lines|
  {
    if lines != [] && t.results == [] { LoginsStay(OnLine(t, lines[0], ask), lines[1..], ask); }
  }

  // ---------------------------------------------------------------- the body

  const DOT: byte := 46

  /** What `do_data` sends: the mail as it is, then a line with a dot. */
  function BodyBytes(mail: seq<byte>): seq<byte> { mail + CRLF + [DOT] + CRLF }

  /** A line as the server keeps it: a leading dot goes (section 4.5.2 of RFC 5321). */
  function Unstuffed(line: seq<byte>): seq<byte> {
    if line != [] && line[0] == DOT then line[1..] else line
  }

  /** What the server takes for the mail: the lines before the first that is a lone dot. */
  function Received(wire: seq<byte>): (r: Option<seq<byte>>)
    decreases |wire|
  {
    var p := Find(wire, CRLF);
    if p < 0 then None
    else if wire[..p] == [DOT] then Some([])
    else match Received(wire[p + 2..])
      case Some(rest) => Some(Unstuffed(wire[..p]) + CRLF + rest)
      case None => None
  }

  predicate DottedLine(mail: seq<byte>)
    decreases |mail|
  {
    || (mail != [] && mail[0] == DOT)
    || (Find(mail, CRLF) >= 0 && DottedLine(mail[Find(mail, CRLF) + 2..]))
  }

  lemma LastLine(mail: seq<byte>, tail: seq<byte>)
    requires Find(mail, CRLF) < 0
    ensures Find(mail + CRLF + tail, CRLF) == |mail|
    ensures (mail + CRLF + tail)[..|mail|] == mail && (mail + CRLF + tail)[|mail| + 2..] == tail
  {
    var s := mail + CRLF + tail;
    assert Occurs(s, CRLF, |mail|);
    forall j | 0 <= j < |mail| ensures !Occurs(s, CRLF, j) {
      if j + 2 <= |mail| {
        assert !Occurs(mail, CRLF, j);
        assert s[j..j + 2] == mail[j..j + 2];
      } else {
        NotAt(s, CRLF, j, 1);
      }
    }
    FindIs(s, CRLF, |mail|);
  }

  lemma EndLine()
    ensures Received([DOT] + CRLF) == Some([])
  {
    FirstLine([DOT], []);
    assert [DOT] + CRLF + [] == [DOT] + CRLF;
  }

  lemma BodyFirst(mail: seq<byte>, p: nat)
    requires Find(mail, CRLF) == p
    ensures p + 2 <= |mail| && mail == mail[..p] + CRLF + mail[p + 2..]
    ensures Find(BodyBytes(mail), CRLF) == p
    ensures BodyBytes(mail)[..p] == mail[..p] && BodyBytes(mail)[p + 2..] == BodyBytes(mail[p + 2..])
  {
    hide Find;
    FindStable(mail, CRLF + [DOT] + CRLF, CRLF);
    assert BodyBytes(mail) == mail + (CRLF + [DOT] + CRLF);
    assert mail[p..p + 2] == CRLF;
  }

  lemma BodyLast(mail: seq<byte>)
    requires Find(mail, CRLF) < 0
    ensures Received(BodyBytes(mail)) == Some(if mail == [DOT] then [] else Unstuffed(mail) + CRLF)
  {
    hide Find;
    assert BodyBytes(mail) == mail + CRLF + ([DOT] + CRLF);
    LastLine(mail, [DOT] + CRLF);
    EndLine();
    assert Unstuffed(mail) + CRLF + [] == Unstuffed(mail) + CRLF;
  }

  lemma BodyNext(mail: seq<byte>, p: nat)
    requires Find(mail, CRLF) == p && p + 2 <= |mail|
    ensures Received(BodyBytes(mail)) ==
      if mail[..p] == [DOT] then Some([])
      else match Received(BodyBytes(mail[p + 2..]))
        case Some(rest) => Some(Unstuffed(mail[..p]) + CRLF + rest)
        case None => None
  {
    hide Find, BodyBytes, Unstuffed;
    BodyFirst(mail, p);
  }

  /** A mail with a line that starts with a dot reaches the server shortened; any other arrives as
      it is. */
  lemma {:induction false} BodyShortened(mail: seq<byte>)
    ensures Received(BodyBytes(mail)).Some?
    ensures !DottedLine(mail) ==> Received(BodyBytes(mail)).value == mail + CRLF
    ensures DottedLine(mail) ==> |Received(BodyBytes(mail)).value| < |mail + CRLF|
    decreases |mail|
  {
    hide Find, BodyBytes, Received;
    var p := Find(mail, CRLF);
    if p < 0 {
      BodyLast(mail);
    } else {
      BodyFirst(mail, p);
      BodyNext(mail, p);
      var line, rest := mail[..p], mail[p + 2..];
      BodyShortened(rest);
      assert line + CRLF + (rest + CRLF) == mail + CRLF;
      FirstOctet(line, rest);
    }
  }

  lemma FirstOctet(line: seq<byte>, rest: seq<byte>)
    ensures (line + CRLF + rest)[0] == DOT <==> line != [] && line[0] == DOT
  {
  }

  /** The server receives the mail that was sent if and only if no line of it starts with a dot. */
  lemma BodyArrives(mail: seq<byte>)
    ensures Received(BodyBytes(mail)) == Some(mail + CRLF) <==> !DottedLine(mail)
  {
    BodyShortened(mail);
  }

  // ---------------------------------------------------------------- the object

  class SendTask {
    const receivers: seq<Mailbox>
    var state: State
    var rcptIndex: nat
    var needAuth: bool
    var sent: seq<Command>
    var results: seq<bool>
    ghost var answers: seq<seq<byte>>
    ghost var logins: Option<seq<Credential>>

    ghost function Abs(): Session
      reads this
    {
      Session(receivers, state, rcptIndex, needAuth, sent, answers, logins, results)
    }

    constructor (receivers: seq<Mailbox>)
      ensures Abs() == Start(receivers)
    {
      this.receivers := receivers;
      state, rcptIndex, needAuth, sent, results, answers, logins := INIT, 0, false, [], [], [], None;
    }

    method SendCommand(c: Command, to: State, ghost line: seq<byte>)
      modifies this
      ensures Abs() == Send(old(Abs()), line, c, to)
    {
      sent, state, answers := sent + [c], to, answers + [line];
    }

    method SetResult(ok: bool)
      modifies this
      ensures Abs() == old(Abs()).(results := old(results) + [ok])
    {
      results := results + [ok];
    }

    method SendRcpt(ghost line: seq<byte>)
      requires rcptIndex < |receivers|
      modifies this
      ensures Abs() == Rcpt(old(Abs()), line)
    {
      SendCommand(RcptTo(receivers[rcptIndex]), state, line);
      rcptIndex := rcptIndex + 1;
      if rcptIndex >= |receivers| {
        rcptIndex, state := 0, RCPT;
      }
    }

    method SendLogin(line: seq<byte>, ask: Ask)
      requires StartsWith(line, R334())
      modifies this
      ensures Abs() == DoAuth(old(Abs()), line, ask)
    {
      var prompt := ask(line[4..]);
      if prompt.Some? {
        SendCommand(Login(prompt.value), AUTH, line);
        logins := if logins.Some? then Some(logins.value + [prompt.value]) else None;
      }
    }

    /** The next command on the expected reply, else the error exit. */
    method Proceed(line: seq<byte>, code: seq<byte>, c: Command, to: State) returns (ended: bool)
      requires results == []
      modifies this
      ensures Abs() == if StartsWith(line, code) then Send(old(Abs()), line, c, to) else Fail(old(Abs()))
      ensures ended <==> results != []
    {
      ended := !StartsWith(line, code);
      if ended { SetResult(false); } else { SendCommand(c, to, line); }
    }

    method EhloReply(line: seq<byte>, ask: Ask) returns (ended: bool)
      requires results == [] && rcptIndex < |receivers| && state.EHLO?
      modifies this
      ensures Abs() == OnLine(old(Abs()), line, ask) && (ended <==> results != [])
    {
      hide StartsWith, R220, R250, R334, R235, R354, R221, More250, OfferAuth, Lower, DoAuth, Rcpt;
      ended := false;
      if StartsWith(line, More250()) {
        if StartsWith(Lower(line), OfferAuth()) { needAuth := true; }
      } else if StartsWith(line, R250()) {
        if needAuth {
          SendCommand(AuthLogin, AUTH, line);
          logins := Some([]);
        } else {
          SendCommand(MailFrom, MAIL, line);
        }
      } else {
        SetResult(false);
        ended := true;
      }
    }

    method AuthReply(line: seq<byte>, ask: Ask) returns (ended: bool)
      requires results == [] && rcptIndex < |receivers| && state.AUTH?
      modifies this
      ensures Abs() == OnLine(old(Abs()), line, ask) && (ended <==> results != [])
    {
      hide StartsWith, R220, R250, R334, R235, R354, R221, More250, OfferAuth, Lower, DoAuth, Rcpt;
      ended := false;
      if StartsWith(line, R334()) {
        SendLogin(line, ask);
      } else if StartsWith(line, R235()) {
        SendCommand(MailFrom, MAIL, line);
      } else {
        SetResult(false);
        ended := true;
      }
    }

    method MailReply(line: seq<byte>, ask: Ask) returns (ended: bool)
      requires results == [] && rcptIndex < |receivers| && state.MAIL?
      modifies this
      ensures Abs() == OnLine(old(Abs()), line, ask) && (ended <==> results != [])
    {
      hide StartsWith, R220, R250, R334, R235, R354, R221, More250, OfferAuth, Lower, DoAuth, Rcpt;
      ended := !StartsWith(line, R250());
      if ended { SetResult(false); } else { SendRcpt(line); }
    }

    method CloseReply(line: seq<byte>, ask: Ask) returns (ended: bool)
      requires results == [] && rcptIndex < |receivers| && state.CLOSE?
      modifies this
      ensures Abs() == OnLine(old(Abs()), line, ask) && (ended <==> results != [])
    {
      hide StartsWith, R220, R250, R334, R235, R354, R221, More250, OfferAuth, Lower, DoAuth, Rcpt;
      if StartsWith(line, R221()) {
        answers := answers + [line];
        SetResult(true);
      } else {
        SetResult(false);
      }
      ended := true;
    }

    /** The switch; true if it left by `return` or `goto error`. */
    method Reply(line: seq<byte>, ask: Ask) returns (ended: bool)
      requires results == [] && rcptIndex < |receivers|
      modifies this
      ensures Abs() == OnLine(old(Abs()), line, ask) && (ended <==> results != [])
    {
      hide StartsWith, R220, R250, R334, R235, R354, R221, More250, OfferAuth, Lower, DoAuth, Rcpt;
      match state {
        case INIT => ended := Proceed(line, R220(), Ehlo, EHLO);
        case EHLO => ended := EhloReply(line, ask);
        case AUTH => ended := AuthReply(line, ask);
        case MAIL => ended := MailReply(line, ask);
        case RCPT => ended := Proceed(line, R250(), DataCmd, DATA);
        case DATA => ended := Proceed(line, R354(), Body, QUIT);
        case QUIT => ended := Proceed(line, R250(), Quit, CLOSE);
        case CLOSE => ended := CloseReply(line, ask);
      }
    }

    /** `send_mail`. */
    method SendMail(input: seq<byte>, ask: Ask) returns (buf: seq<byte>)
      requires results == [] && rcptIndex < |receivers|
      modifies this
      ensures (Abs(), buf) == Handle(old(Abs()), input, ask)
    {
      hide OnLine;
      buf := input;
      while |buf| > 0
        invariant results == [] && rcptIndex < |receivers|
        invariant Handle(Abs(), buf, ask) == Handle(old(Abs()), input, ask)
        decreases |buf|
      {
        var crlf := Find(buf, CRLF);
        if crlf < 0 { return; }
        var ended := Reply(buf[..crlf], ask);
        if ended { return; }
        buf := buf[crlf + 2..];
      }
    }
  }
}
