/** The top-level claims about the multipart writer and parser: round trip under every way of
    splitting the text into reads, with a preamble in front and an epilogue behind. */
module MultipartStream {
  import opened Bytes
  import opened MultipartSyntax
  import opened MultipartParser
  import opened MultipartProof

  // ---------------------------------------------------------------- what stands around the tree

  /** The optional preamble line. */
  function LeadText(lead: Option<Text>): Text { if lead.Some? then lead.value + CRLF else [] }

  function Preface(lead: Option<Text>): Text { if lead.Some? then lead.value else [] }

  /** A preamble line that cannot be taken for the dash-boundary line. */
  predicate LeadOk(lead: Option<Text>, b: Text) {
    lead.Some? ==> NoCr(lead.value) && !StartsWith(lead.value, Dash(b))
  }

  /** The text up to and with the close delimiter. */
  function Framed(p: Part, lead: Option<Text>): Text { LeadText(lead) + Content(p) }

  /** What `ParseBody` answers once the tree is complete and `seen` of what follows it is there. */
  function Ended(ps: Parser, seen: Text): TopOut {
    if StartsWith(seen, CRLF) then ParseEpilogue(ps.(state := Epilogue), seen[2..]) else TopOut(Ok, ps, seen)
  }

  function Whole(b64: Text -> Text, p: Part, lead: Option<Text>): Parser {
    Parser(MultipartBody, Preface(lead), [], Result(b64, p))
  }

  /** The parser stands at `c` inside the text of `p`: `buf` is read but not consumed, `left` is
      still to be read, and the last of it is `extra`. */
  predicate Standing(b64: Text -> Text, p: Part, lead: Option<Text>, ps: Parser, buf: Text, c: Cursor, left: Text, extra: Text) {
    && ValidCursor(p, c)
    && ps.root == NodeAt(b64, p, c) && ps.epilogue == [] && |left| > |extra|
    && match ps.state
       case Preamble => c == AtDash && ps.preamble == [] && Framed(p, lead) + extra == buf + left
       case MultipartBody => ps.preamble == Preface(lead) && TextAt(p, c) + extra == buf + left
       case Epilogue => false
  }

  // ---------------------------------------------------------------- one read

  lemma ReadBody(b64: Text -> Text, p: Part, lead: Option<Text>, ps: Parser, b: Text, c: Cursor, left: Text, extra: Text)
    returns (c': Cursor)
    requires p.PMulti? && WfMulti(b64, p) && ExtraOk(extra) && ValidCursor(p, c)
    requires ps.root == NodeAt(b64, p, c) && ps.epilogue == [] && ps.preamble == Preface(lead)
    requires TextAt(p, c) + extra == b + left
    ensures ps.root.Multi?
    ensures var o := ParseBody(b64, ps.(state := MultipartBody), b);
      if |left| > |extra| then o.code.NotEnough? && Standing(b64, p, lead, o.parser, o.buf, c', left, extra)
      else o == Ended(Whole(b64, p, lead), extra[..|extra| - |left|])
  {
    hide NodeAt, TextAt, ParseMulti, Ended, FeedAll, Result;
    var k', t := 0, TextAt(p, c);
    assert (t + extra)[..|b|] == b;
    c', k' := FeedMulti(b64, p, c, extra, |b|);
    var o := ParseMulti(b64, ps.root, b);
    assert |t| + |extra| == |b| + |left|;
    if |left| > |extra| {
      WaitsInside(b64, p, t, b, left, extra, o, c', k');
      NodeIsMulti(b64, p, c');
    } else {
      assert o == Out(Ok, Result(b64, p), extra[..|b| - |t|]);
      BodyDone(b64, ps.(state := MultipartBody), b, o);
    }
  }

  lemma BodyDone(b64: Text -> Text, ps: Parser, b: Text, o: Out)
    requires ps.root.Multi? && o == ParseMulti(b64, ps.root, b) && o.code.Ok?
    ensures ParseBody(b64, ps, b) == Ended(ps.(root := o.node), o.buf)
  {
  }

  lemma NodeIsMulti(b64: Text -> Text, p: Part, c: Cursor)
    requires ValidCursor(p, c)
    ensures NodeAt(b64, p, c).Multi?
  {
  }

  lemma WaitsInside(b64: Text -> Text, p: Part, t: Text, b: Text, left: Text, extra: Text, o: Out, c: Cursor, k: nat)
    requires t + extra == b + left && |left| > |extra|
    requires Fed(b64, p, t, extra, |b|, o, c, k)
    ensures ValidCursor(p, c) && o.code.NotEnough? && o.node == NodeAt(b64, p, c) && TextAt(p, c) + extra == o.buf + left
  {
    hide TextAt;
    var t' := TextAt(p, c);
    assert t' == t'[..k] + t'[k..];
    assert t'[k..] == t[|b|..];
    assert left == t[|b|..] + extra by { assert (t + extra)[|b|..] == left; }
  }

  /** The first CRLF of the text ends the preamble line or the opening dash-boundary line. */
  lemma FirstLine(b64: Text -> Text, p: Part, lead: Option<Text>, b: Text, left: Text, extra: Text)
    requires p.PMulti? && WfMulti(b64, p) && LeadOk(lead, p.boundary) && Framed(p, lead) + extra == b + left
    ensures |left| <= |extra| ==> Find(b, CRLF) >= 0
    ensures Find(b, CRLF) >= 0 && lead.None? ==> StartsWith(b, Dash(p.boundary))
    ensures Find(b, CRLF) >= 0 && lead.Some? ==>
      && Find(b, CRLF) == |lead.value| && b[..|lead.value|] == lead.value && !StartsWith(b, Dash(p.boundary))
      && Content(p) + extra == b[|lead.value| + 2..] + left
  {
    hide Content, FieldsText, WfPart, WfMulti, Find;
    var rest := AfterDash(b64, p);
    var line := if lead.Some? then lead.value else Dash(p.boundary);
    var behind := if lead.Some? then Content(p) + extra else rest + extra;
    FirstLineIs(p, lead, rest, line, behind, extra);
    FindAfterNoCr(line, CRLF, behind);
    assert (b + left)[..|b|] == b;
    FindInPrefix(line + CRLF + behind, CRLF, |b|);
    if Find(b, CRLF) >= 0 {
      Behind(line, behind, b, left);
      if lead.Some? { LeadIsNoDash(lead.value, p.boundary, b); }
    }
  }

  lemma AfterDash(b64: Text -> Text, p: Part) returns (rest: Text)
    requires p.PMulti? && WfMulti(b64, p)
    ensures Content(p) == Dash(p.boundary) + CRLF + rest && NoCr(Dash(p.boundary))
  {
    WfFilled(b64, p);
    FirstText(p);
    rest := TextAt(p, AtHeader(0, 0));
  }

  lemma FirstLineIs(p: Part, lead: Option<Text>, rest: Text, line: Text, behind: Text, extra: Text)
    requires p.PMulti? && Content(p) == Dash(p.boundary) + CRLF + rest
    requires line == (if lead.Some? then lead.value else Dash(p.boundary))
    requires behind == (if lead.Some? then Content(p) + extra else rest + extra)
    ensures Framed(p, lead) + extra == line + CRLF + behind
    ensures |line + CRLF| <= |Framed(p, lead)|
  {
    hide Content;
    if lead.Some? {
      assert lead.value + CRLF + Content(p) + extra == lead.value + CRLF + (Content(p) + extra);
    } else {
      assert [] + Content(p) == Content(p);
      assert line + CRLF + rest + extra == line + CRLF + (rest + extra);
    }
  }

  lemma Behind(line: Text, behind: Text, b: Text, left: Text)
    requires line + CRLF + behind == b + left && |line| + 2 <= |b|
    ensures b[..|line|] == line && behind == b[|line| + 2..] + left
  {
    assert (line + CRLF + behind)[..|line|] == line && (b + left)[..|line|] == b[..|line|];
    assert (line + CRLF + behind)[|line| + 2..] == behind;
    assert (b + left)[|line| + 2..] == b[|line| + 2..] + left;
  }

  lemma LeadIsNoDash(line: Text, b: Text, buf: Text)
    requires NoCr(b) && !StartsWith(line, Dash(b))
    requires |line| + 2 <= |buf| && buf[..|line|] == line && Occurs(buf, CRLF, |line|)
    ensures !StartsWith(buf, Dash(b))
  {
    if |Dash(b)| <= |line| {
      assert buf[..|Dash(b)|] == line[..|Dash(b)|];
    } else {
      assert buf[|line|] == buf[|line|..|line| + 2][0] == CR;
      assert Dash(b)[|line|] != CR;
    }
  }

  /** One read: the parser asks for more until the tree is complete. */
  lemma ReadOnce(b64: Text -> Text, p: Part, lead: Option<Text>, ps: Parser, buf: Text, c: Cursor, piece: Text, left: Text, extra: Text)
    returns (c': Cursor)
    requires p.PMulti? && WfMulti(b64, p) && LeadOk(lead, p.boundary) && ExtraOk(extra)
    requires Standing(b64, p, lead, ps, buf, c, piece + left, extra)
    ensures ps.root.Multi?
    ensures var o := ParseTop(b64, ps, buf + piece);
      if |left| > |extra| then o.code.NotEnough? && Standing(b64, p, lead, o.parser, o.buf, c', left, extra)
      else o == Ended(Whole(b64, p, lead), extra[..|extra| - |left|])
  {
    hide TextAt, NodeAt, ParseBody, Content, Ended;
    var b := buf + piece;
    assert buf + (piece + left) == b + left;
    c' := c;
    if ps.state.Preamble? {
      FirstLine(b64, p, lead, b, left, extra);
      FirstRoot(b64, p, ps);
      if Find(b, CRLF) >= 0 {
        if lead.Some? {
          c' := ReadBody(b64, p, lead, ps.(preamble := lead.value), b[|lead.value| + 2..], c, left, extra);
        } else {
          assert Framed(p, lead) == Content(p);
          c' := ReadBody(b64, p, lead, ps, b, c, left, extra);
        }
      }
    } else {
      c' := ReadBody(b64, p, lead, ps, b, c, left, extra);
    }
  }

  lemma FirstRoot(b64: Text -> Text, p: Part, ps: Parser)
    requires p.PMulti? && ps.root == NodeAt(b64, p, AtDash)
    ensures ps.root.Multi? && ps.root.boundary == p.boundary && TextAt(p, AtDash) == Content(p)
  {
  }

  // ---------------------------------------------------------------- all reads

  /** Some read ends right behind the first `n` octets of the stream, or one octet later. */
  predicate StopsBehind(pieces: seq<Text>, n: nat)
    decreases |pieces|
  {
    pieces != [] &&
    if |pieces[0]| < n then StopsBehind(pieces[1..], n - |pieces[0]|) else |pieces[0]| < n + 2
  }

  /** The answer when `extra` is an epilogue between CRLFs, of which `missing` octets are not read. */
  predicate EpilogueTaken(ps: Parser, epilogue: Text, missing: nat, o: TopOut) {
    if missing == 0 then o == TopOut(Ok, ps.(state := Epilogue, epilogue := epilogue), []) else o.code.NotEnough?
  }

  lemma {:induction false} FeedEpilogue(b64: Text -> Text, ps: Parser, epilogue: Text, buf: Text, pieces: seq<Text>, left: Text)
    requires ps.root.Multi? && ps.state.Epilogue? && NoCr(epilogue)
    requires buf + Flatten(pieces) + left == epilogue + CRLF && |buf| < |epilogue| + 2
    ensures EpilogueTaken(ps, epilogue, |left|, FeedAll(b64, ps, buf, pieces))
    decreases |pieces|
  {
    if pieces == [] {
      assert |left| > 0;
    } else {
      var b := buf + pieces[0];
      var rest := Flatten(pieces[1..]) + left;
      assert b + rest == epilogue + CRLF;
      EpilogueSeen(ps, epilogue, b, rest);
      if rest != [] {
        assert b + Flatten(pieces[1..]) + left == b + rest;
        FeedEpilogue(b64, ps, epilogue, b, pieces[1..], left);
      }
    }
  }

  lemma EpilogueSeen(ps: Parser, epilogue: Text, b: Text, rest: Text)
    requires NoCr(epilogue) && b + rest == epilogue + CRLF
    ensures rest != [] ==> ParseEpilogue(ps, b) == TopOut(NotEnough, ps, b)
    ensures rest == [] ==> ParseEpilogue(ps, b) == TopOut(Ok, ps.(epilogue := epilogue), [])
  {
    FindAfterNoCr(epilogue, CRLF, []);
    assert epilogue + CRLF + [] == b + rest;
    assert (b + rest)[..|b|] == b;
    FindInPrefix(epilogue + CRLF + [], CRLF, |b|);
  }

  /** The answer of the parser to a stream, read up to its last `missing` octets, in which the tree
      still lacks `n` octets and is followed by nothing or by an epilogue between CRLFs. */
  predicate Answered(whole: Parser, epilogue: Option<Text>, n: nat, pieces: seq<Text>, missing: nat, o: TopOut) {
    if |Flatten(pieces)| < n then o.code.NotEnough?
    else if epilogue.None? then o == TopOut(Ok, whole, [])
    else if StopsBehind(pieces, n) then o.code.Ok? && o.parser == whole
    else EpilogueTaken(whole, epilogue.value, missing, o)
  }

  function Tail(epilogue: Option<Text>): Text { if epilogue.Some? then CRLF + epilogue.value + CRLF else [] }

  /** The read that completes the tree, with `m` octets of what follows it. */
  lemma LastRead(b64: Text -> Text, whole: Parser, e: Text, n: nat, m: nat, pieces: seq<Text>, missing: Text)
    requires whole.root.Multi? && whole.state.MultipartBody? && NoCr(e)
    requires pieces != [] && |pieces[0]| == n + m && m <= |CRLF + e + CRLF|
    requires (CRLF + e + CRLF)[m..] == Flatten(pieces[1..]) + missing
    ensures var o := Ended(whole, (CRLF + e + CRLF)[..m]);
      Answered(whole, Some(e), n, pieces, |missing|,
               if o.code.NotEnough? then FeedAll(b64, o.parser, o.buf, pieces[1..]) else o)
  {
    if m >= 2 {
      EpilogueBegins(b64, whole, e, m, pieces[1..], missing);
    } else {
      assert |(CRLF + e + CRLF)[..m]| < 2;
    }
  }

  lemma EpilogueBegins(b64: Text -> Text, whole: Parser, e: Text, m: nat, pieces: seq<Text>, missing: Text)
    requires whole.root.Multi? && NoCr(e) && 2 <= m <= |CRLF + e + CRLF|
    requires (CRLF + e + CRLF)[m..] == Flatten(pieces) + missing
    ensures var o := Ended(whole, (CRLF + e + CRLF)[..m]);
      EpilogueTaken(whole, e, |missing|, if o.code.NotEnough? then FeedAll(b64, o.parser, o.buf, pieces) else o)
  {
    hide ParseEpilogue, FeedAll;
    var text, ps := e + CRLF, whole.(state := Epilogue);
    var seen := text[..m - 2];
    assert CRLF + e + CRLF == CRLF + text;
    assert (CRLF + text)[..m] == CRLF + seen && (CRLF + seen)[2..] == seen;
    assert (CRLF + text)[m..] == text[m - 2..];
    assert seen + (Flatten(pieces) + missing) == text;
    EpilogueSeen(ps, e, seen, Flatten(pieces) + missing);
    if Flatten(pieces) + missing != [] {
      assert seen + Flatten(pieces) + missing == text;
      FeedEpilogue(b64, ps, e, seen, pieces, missing);
    }
  }

  lemma {:induction false} FeedsToEnd(b64: Text -> Text, p: Part, lead: Option<Text>, epilogue: Option<Text>, ps: Parser,
                                      buf: Text, c: Cursor, pieces: seq<Text>, missing: Text, n: nat)
    requires p.PMulti? && WfMulti(b64, p) && LeadOk(lead, p.boundary) && (epilogue.Some? ==> NoCr(epilogue.value))
    requires Standing(b64, p, lead, ps, buf, c, Flatten(pieces) + missing, Tail(epilogue))
    requires n == |Flatten(pieces)| + |missing| - |Tail(epilogue)|
    ensures ps.root.Multi?
    ensures Answered(Whole(b64, p, lead), epilogue, n, pieces, |missing|, FeedAll(b64, ps, buf, pieces))
    decreases |pieces|
  {
    hide Standing, Answered, Ended;
    var extra := Tail(epilogue);
    StandingRoot(b64, p, lead, ps, buf, c, Flatten(pieces) + missing, extra);
    if pieces == [] {
      NothingRead(Whole(b64, p, lead), epilogue, n, |missing|, TopOut(NotEnough, ps, buf));
    } else {
      var rest := Flatten(pieces[1..]) + missing;
      assert Flatten(pieces) + missing == pieces[0] + rest;
      var c' := ReadOnce(b64, p, lead, ps, buf, c, pieces[0], rest, extra);
      var o := ParseTop(b64, ps, buf + pieces[0]);
      if |rest| > |extra| {
        FeedsToEnd(b64, p, lead, epilogue, o.parser, o.buf, c', pieces[1..], missing, n - |pieces[0]|);
        LaterRead(Whole(b64, p, lead), epilogue, n, pieces, |missing|, FeedAll(b64, o.parser, o.buf, pieces[1..]));
      } else {
        TailLeft(b64, p, lead, ps, buf, c, pieces[0], rest, extra);
        if epilogue.Some? {
          LastRead(b64, Whole(b64, p, lead), epilogue.value, n, |pieces[0]| - n, pieces, missing);
        } else {
          TreeAlone(Whole(b64, p, lead), n, pieces, |missing|, o);
        }
      }
    }
  }

  lemma StandingRoot(b64: Text -> Text, p: Part, lead: Option<Text>, ps: Parser, buf: Text, c: Cursor, left: Text, extra: Text)
    requires Standing(b64, p, lead, ps, buf, c, left, extra)
    ensures ps.root.Multi? && |left| > |extra|
  {
  }

  lemma TailLeft(b64: Text -> Text, p: Part, lead: Option<Text>, ps: Parser, buf: Text, c: Cursor, piece: Text, rest: Text, extra: Text)
    requires Standing(b64, p, lead, ps, buf, c, piece + rest, extra) && |rest| <= |extra|
    ensures extra[|extra| - |rest|..] == rest
  {
    var text := if ps.state.Preamble? then Framed(p, lead) else TextAt(p, c);
    var all := text + extra;
    assert all == buf + (piece + rest);
    assert all[|all| - |rest|..] == rest;
    assert all[|all| - |rest|..] == extra[|extra| - |rest|..];
  }

  lemma TreeAlone(whole: Parser, n: nat, pieces: seq<Text>, missing: nat, o: TopOut)
    requires |Flatten(pieces)| >= n && o == Ended(whole, [])
    ensures o.code.Ok? && Answered(whole, None, n, pieces, missing, o)
  {
  }

  lemma NothingRead(whole: Parser, epilogue: Option<Text>, n: nat, missing: nat, o: TopOut)
    requires n > 0 && o.code.NotEnough?
    ensures Answered(whole, epilogue, n, [], missing, o)
  {
  }

  lemma LaterRead(whole: Parser, epilogue: Option<Text>, n: nat, pieces: seq<Text>, missing: nat, o: TopOut)
    requires pieces != [] && |pieces[0]| < n && Answered(whole, epilogue, n - |pieces[0]|, pieces[1..], missing, o)
    ensures Answered(whole, epilogue, n, pieces, missing, o)
  {
  }

  lemma FedFromStart(b64: Text -> Text, p: Part, lead: Option<Text>, epilogue: Option<Text>, pieces: seq<Text>)
    requires p.PMulti? && WfMulti(b64, p) && LeadOk(lead, p.boundary) && (epilogue.Some? ==> NoCr(epilogue.value))
    requires Flatten(pieces) <= Framed(p, lead) + Tail(epilogue)
    ensures Answered(Whole(b64, p, lead), epilogue, |Framed(p, lead)|, pieces,
                     |Framed(p, lead) + Tail(epilogue)| - |Flatten(pieces)|,
                     FeedAll(b64, NewParser(HeaderMap(p.fields), p.boundary), [], pieces))
  {
    var ps, all := NewParser(HeaderMap(p.fields), p.boundary), Framed(p, lead) + Tail(epilogue);
    var missing := all[|Flatten(pieces)|..];
    assert all == [] + (Flatten(pieces) + missing);
    assert Content(p) != [] by { WfFilled(b64, p); FirstText(p); }
    assert Standing(b64, p, lead, ps, [], AtDash, Flatten(pieces) + missing, Tail(epilogue));
    FeedsToEnd(b64, p, lead, epilogue, ps, [], AtDash, pieces, missing, |Framed(p, lead)|);
  }

  // ---------------------------------------------------------------- the claims

  /** The parser is done with the tree: nothing is left in the buffer. */
  predicate Finished(b64: Text -> Text, p: Part, lead: Option<Text>, o: TopOut) {
    o == TopOut(Ok, Parser(MultipartBody, Preface(lead), [], Result(b64, p)), [])
  }

  /** For every well formed message tree, with or without a preamble line, and every way of
      splitting the text into reads, the parser answers NotEnough as long as any octet is missing
      and then Ok with that preamble and that tree. */
  lemma PrefacedRoundTrip(b64: Text -> Text, p: Part, lead: Option<Text>, pieces: seq<Text>)
    requires p.PMulti? && WfMulti(b64, p) && LeadOk(lead, p.boundary)
    ensures var o := FeedAll(b64, NewParser(HeaderMap(p.fields), p.boundary), [], pieces);
      && (Flatten(pieces) == Framed(p, lead) ==> Finished(b64, p, lead, o))
      && (Flatten(pieces) < Framed(p, lead) ==> o.code.NotEnough?)
  {
    hide FeedAll;
    if Flatten(pieces) <= Framed(p, lead) {
      assert Framed(p, lead) + Tail(None) == Framed(p, lead);
      FedFromStart(b64, p, lead, None, pieces);
    }
  }

  /** The same without a preamble. */
  lemma StreamingRoundTrip(b64: Text -> Text, p: Part, pieces: seq<Text>)
    requires p.PMulti? && WfMulti(b64, p)
    ensures var o := FeedAll(b64, NewParser(HeaderMap(p.fields), p.boundary), [], pieces);
      && (Flatten(pieces) == Content(p) ==> Finished(b64, p, None, o))
      && (Flatten(pieces) < Content(p) ==> o.code.NotEnough?)
  {
    hide FeedAll, Content;
    assert Framed(p, None) == Content(p);
    PrefacedRoundTrip(b64, p, None, pieces);
  }

  /** With `CRLF epilogue CRLF` behind the tree, the epilogue is returned exactly if no read ends
      right behind the close delimiter or one octet later; if one does, the parser answers at once
      and leaves the rest alone. An epilogue whose last CRLF has not come keeps it waiting. */
  lemma EpilogueExactly(b64: Text -> Text, p: Part, lead: Option<Text>, epilogue: Text, pieces: seq<Text>)
    requires p.PMulti? && WfMulti(b64, p) && LeadOk(lead, p.boundary) && NoCr(epilogue)
    requires Flatten(pieces) <= Framed(p, lead) + (CRLF + epilogue + CRLF)
    ensures var o := FeedAll(b64, NewParser(HeaderMap(p.fields), p.boundary), [], pieces);
      var stops := StopsBehind(pieces, |Framed(p, lead)|);
      && (o.code.Ok? <==> stops || Flatten(pieces) == Framed(p, lead) + (CRLF + epilogue + CRLF))
      && (!o.code.Ok? ==> o.code.NotEnough?)
      && (o.code.Ok? ==>
            && o.parser.preamble == Preface(lead) && o.parser.root == Result(b64, p)
            && (o.parser.state.Epilogue? <==> !stops)
            && o.parser.epilogue == (if stops then [] else epilogue)
            && (!stops ==> o.buf == []))
  {
    hide FeedAll;
    FedFromStart(b64, p, lead, Some(epilogue), pieces);
    var n := |Framed(p, lead)|;
    if |Flatten(pieces)| < n { NoStopYet(pieces, n); }
    if |Flatten(pieces)| == |Framed(p, lead) + Tail(Some(epilogue))| {
      assert Flatten(pieces) == Framed(p, lead) + Tail(Some(epilogue));
    }
  }

  lemma {:induction false} NoStopYet(pieces: seq<Text>, n: nat)
    requires |Flatten(pieces)| < n
    ensures !StopsBehind(pieces, n)
    decreases |pieces|
  {
    if pieces != [] && |pieces[0]| < n { NoStopYet(pieces[1..], n - |pieces[0]|); }
  }
}
