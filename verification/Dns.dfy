/** Domain names on the wire (src/dns/resolver.cc:51-67, 128-150, 656-660; sections 3.1 and 4.1.4
    of RFC 1035). */
module Dns {
  import opened Bytes

  const DOT: byte := 46
  const MAX_LABEL := 63
  const MAX_NAME := 255

  // ---------------------------------------------------------------- writing

  /** `name` without the dot of the root. */
  function Strip(name: seq<byte>): seq<byte> {
    if name != [] && name[|name| - 1] == DOT then name[..|name| - 1] else name
  }

  predicate Legal(labels: seq<seq<byte>>, max: nat) { forall l :: l in labels ==> 0 < |l| <= max }

  /** Each label behind its length. */
  function Wire(labels: seq<seq<byte>>): seq<byte>
    requires Legal(labels, 255)
  {
    if labels == [] then [] else [|labels[0]|] + labels[0] + Wire(labels[1..])
  }

  /** The text form: a dot behind every label. */
  function Dotted(labels: seq<seq<byte>>): seq<byte> {
    if labels == [] then [] else labels[0] + [DOT] + Dotted(labels[1..])
  }

  /** The names that have a wire form, and that form; empty if there is none. */
  function DnsName(name: seq<byte>): seq<byte> {
    var labels := Split(Strip(name), DOT);
    if Strip(name) != [] && Legal(labels, MAX_LABEL) && |Wire(labels)| + 1 <= MAX_NAME
    then Wire(labels) + [0] else []
  }

  lemma WireSnoc(labels: seq<seq<byte>>, l: seq<byte>)
    requires Legal(labels, 255) && 0 < |l| <= 255
    ensures Legal(labels + [l], 255) && Wire(labels + [l]) == Wire(labels) + [|l|] + l
  {
    if labels != [] {
      assert (labels + [l])[1..] == labels[1..] + [l];
      WireSnoc(labels[1..], l);
    }
  }

  lemma NoLabels()
    ensures Legal([], MAX_LABEL) && Legal([], 255) && Wire([]) == []
  {
  }

  lemma NextLabel(labels: seq<seq<byte>>, i: nat)
    requires i < |labels| && Legal(labels[..i], MAX_LABEL) && Legal(labels[..i], 255)
    ensures if 0 < |labels[i]| <= MAX_LABEL
      then Legal(labels[..i + 1], MAX_LABEL) && Legal(labels[..i + 1], 255)
        && Wire(labels[..i + 1]) == Wire(labels[..i]) + [|labels[i]|] + labels[i]
      else !Legal(labels, MAX_LABEL)
  {
    var l := labels[i];
    assert l in labels;
    if 0 < |l| <= MAX_LABEL {
      assert labels[..i + 1] == labels[..i] + [l];
      WireSnoc(labels[..i], l);
    }
  }

  /** `to_dns_name`. */
  method ToDnsName(name: seq<byte>) returns (res: seq<byte>)
    requires name != []
    ensures res == DnsName(name)
  {
    var stripped := if name[|name| - 1] == DOT then name[..|name| - 1] else name;
    if stripped == [] { return []; }
    var labels := Split(stripped, DOT);
    hide Split, Wire, Legal;
    res := [];
    NoLabels();
    assert labels[..0] == [];
    for i := 0 to |labels|
      invariant Legal(labels[..i], MAX_LABEL) && Legal(labels[..i], 255) && res == Wire(labels[..i])
    {
      NextLabel(labels, i);
      if |labels[i]| == 0 || |labels[i]| > MAX_LABEL { return []; }
      res := res + [|labels[i]|] + labels[i];
    }
    assert labels[..|labels|] == labels;
    res := res + [0];
    if |res| > MAX_NAME { res := []; }
  }

  // ---------------------------------------------------------------- reading

  /** What `parse_dns_name` does: return a text (empty for an error) with the cursor at `cur`,
      fail its assertion, or jump through more than the given number of pointers. */
  datatype Outcome = Text(text: seq<byte>, cur: nat) | Abort | TooDeep

  function Target(pkt: seq<byte>, cur: nat): nat
    requires cur + 2 <= |pkt| && pkt[cur] >= 192
  {
    var hi: int, lo: int := pkt[cur], pkt[cur + 1];
    (hi - 192) * 256 + lo
  }

  /** From `cur` on, with `res` already read. */
  function Parse(pkt: seq<byte>, cur: nat, res: seq<byte>, fuel: nat): Outcome
    decreases fuel, |pkt| - cur
  {
    if cur >= |pkt| then Text([], cur)
    else if pkt[cur] >= 192 then
      if cur + 2 > |pkt| then Text([], cur)
      else if Target(pkt, cur) >= |pkt| then Text([], cur + 2)
      else if fuel == 0 then TooDeep
      else match Parse(pkt, Target(pkt, cur), [], fuel - 1)
        case Text(tail, _) => Text(res + tail, cur + 2)
        case other => other
    else if pkt[cur] == 0 then
      if res != [] && res[|res| - 1] == DOT then Text(res, cur + 1) else Abort
    else if cur + 1 + pkt[cur] >= |pkt| then Text([], cur + 1)
    else Parse(pkt, cur + 1 + pkt[cur], res + pkt[cur + 1..cur + 1 + pkt[cur]] + [DOT], fuel)
  }

  /** `parse_dns_name`, following at most `fuel` pointers. */
  method ParseDnsName(pkt: seq<byte>, start: nat, fuel: nat) returns (o: Outcome)
    ensures o == Parse(pkt, start, [], fuel)
    decreases fuel
  {
    var cur, res := start, [];
    while cur < |pkt|
      invariant Parse(pkt, start, [], fuel) == Parse(pkt, cur, res, fuel)
    {
      if pkt[cur] >= 192 {
        if cur + 2 > |pkt| { return Text([], cur); }
        var p := Target(pkt, cur);
        if p >= |pkt| { return Text([], cur + 2); }
        if fuel == 0 { return TooDeep; }
        var rest := ParseDnsName(pkt, p, fuel - 1);
        if rest.Text? { return Text(res + rest.text, cur + 2); }
        return rest;
      }
      var count := pkt[cur];
      cur := cur + 1;
      if count == 0 {
        return if res != [] && res[|res| - 1] == DOT then Text(res, cur) else Abort;
      }
      if cur + count >= |pkt| { return Text([], cur); }
      res := res + pkt[cur..cur + count] + [DOT];
      cur := cur + count;
    }
    return Text([], cur);
  }

  // ---------------------------------------------------------------- what a name means

  datatype Name = Labels(labels: seq<seq<byte>>) | Malformed | Endless

  function Behind(l: seq<byte>, n: Name): Name { if n.Labels? then Labels([l] + n.labels) else n }

  /** The labels at `cur`, read through at most `fuel` pointers; lengths above `max` are malformed.
      RFC 1035 has max = 63; the reader accepts lengths up to 191. */
  function Meaning(pkt: seq<byte>, cur: nat, max: nat, fuel: nat): (n: Name)
    requires max < 192
    ensures n.Labels? ==> Legal(n.labels, max)
    decreases fuel, |pkt| - cur
  {
    if cur >= |pkt| then Malformed
    else if pkt[cur] >= 192 then
      if cur + 2 > |pkt| || Target(pkt, cur) >= |pkt| then Malformed
      else if fuel == 0 then Endless
      else Meaning(pkt, Target(pkt, cur), max, fuel - 1)
    else if pkt[cur] == 0 then Labels([])
    else if pkt[cur] > max || cur + 1 + pkt[cur] >= |pkt| then Malformed
    else Behind(pkt[cur + 1..cur + 1 + pkt[cur]], Meaning(pkt, cur + 1 + pkt[cur], max, fuel))
  }

  /** Just behind the first pointer or zero octet. */
  function Past(pkt: seq<byte>, cur: nat): nat
    decreases |pkt| - cur
  {
    if cur >= |pkt| then cur
    else if pkt[cur] >= 192 then cur + 2
    else if pkt[cur] == 0 then cur + 1
    else Past(pkt, cur + 1 + pkt[cur])
  }

  /** The last piece of the name holds no label: the root, or a pointer to a zero octet. */
  predicate Bare(pkt: seq<byte>, cur: nat, labels: bool, fuel: nat)
    decreases fuel, |pkt| - cur
  {
    if cur >= |pkt| then false
    else if pkt[cur] >= 192 then
      cur + 2 <= |pkt| && fuel > 0 && Bare(pkt, Target(pkt, cur), false, fuel - 1)
    else if pkt[cur] == 0 then !labels
    else Bare(pkt, cur + 1 + pkt[cur], true, fuel)
  }

  predicate EndsInDot(res: seq<byte>) { res == [] || res[|res| - 1] == DOT }

  predicate IsLabel(pkt: seq<byte>, cur: nat) {
    cur < |pkt| && 0 < pkt[cur] < 192 && cur + 1 + pkt[cur] < |pkt|
  }

  function LabelAt(pkt: seq<byte>, cur: nat): (l: seq<byte>)
    requires IsLabel(pkt, cur)
    ensures l != []
  {
    pkt[cur + 1..cur + 1 + pkt[cur]]
  }

  lemma PastLabel(pkt: seq<byte>, cur: nat, res: seq<byte>, fuel: nat)
    requires IsLabel(pkt, cur)
    ensures Parse(pkt, cur, res, fuel) == Parse(pkt, cur + 1 + pkt[cur], res + LabelAt(pkt, cur) + [DOT], fuel)
    ensures Meaning(pkt, cur, 191, fuel) == Behind(LabelAt(pkt, cur), Meaning(pkt, cur + 1 + pkt[cur], 191, fuel))
    ensures Bare(pkt, cur, res != [], fuel) == Bare(pkt, cur + 1 + pkt[cur], true, fuel)
    ensures Past(pkt, cur) == Past(pkt, cur + 1 + pkt[cur])
  {
  }

  /** The reader at `cur` does what the meaning there calls for. */
  predicate Reads(pkt: seq<byte>, cur: nat, res: seq<byte>, fuel: nat) {
    match Meaning(pkt, cur, 191, fuel)
    case Endless => Parse(pkt, cur, res, fuel) == TooDeep
    case Malformed => Parse(pkt, cur, res, fuel).Text?
    case Labels(ls) =>
      Parse(pkt, cur, res, fuel) ==
        if Bare(pkt, cur, res != [], fuel) then Abort else Text(res + Dotted(ls), Past(pkt, cur))
  }

  lemma {:induction false} ParseMeans(pkt: seq<byte>, cur: nat, res: seq<byte>, fuel: nat)
    requires EndsInDot(res)
    ensures Reads(pkt, cur, res, fuel)
    decreases fuel, |pkt| - cur
  {
    hide Parse, Meaning, Bare, Past, Reads;
    if IsLabel(pkt, cur) {
      PastLabel(pkt, cur, res, fuel);
      ParseMeans(pkt, cur + 1 + pkt[cur], res + LabelAt(pkt, cur) + [DOT], fuel);
      ReadsLabel(pkt, cur, res, fuel);
    } else if cur + 2 <= |pkt| && pkt[cur] >= 192 && Target(pkt, cur) < |pkt| && fuel > 0 {
      ParseMeans(pkt, Target(pkt, cur), [], fuel - 1);
      ReadsPointer(pkt, cur, res, fuel);
    } else {
      ReadsEnd(pkt, cur, res, fuel);
    }
  }

  lemma ReadsLabel(pkt: seq<byte>, cur: nat, res: seq<byte>, fuel: nat)
    requires IsLabel(pkt, cur) && Reads(pkt, cur + 1 + pkt[cur], res + LabelAt(pkt, cur) + [DOT], fuel)
    ensures Reads(pkt, cur, res, fuel)
  {
    hide Parse, Meaning, Bare, Past;
    PastLabel(pkt, cur, res, fuel);
    var l, n := LabelAt(pkt, cur), Meaning(pkt, cur + 1 + pkt[cur], 191, fuel);
    if n.Labels? {
      assert ([l] + n.labels)[1..] == n.labels;
      assert res + l + [DOT] + Dotted(n.labels) == res + Dotted([l] + n.labels);
    }
  }

  lemma ReadsPointer(pkt: seq<byte>, cur: nat, res: seq<byte>, fuel: nat)
    requires cur + 2 <= |pkt| && pkt[cur] >= 192 && Target(pkt, cur) < |pkt| && fuel > 0
    requires Reads(pkt, Target(pkt, cur), [], fuel - 1)
    ensures Reads(pkt, cur, res, fuel)
  {
    hide Target;
    var n := Meaning(pkt, Target(pkt, cur), 191, fuel - 1);
    if n.Labels? { assert [] + Dotted(n.labels) == Dotted(n.labels); }
  }

  lemma ReadsEnd(pkt: seq<byte>, cur: nat, res: seq<byte>, fuel: nat)
    requires EndsInDot(res) && !IsLabel(pkt, cur)
    requires !(cur + 2 <= |pkt| && pkt[cur] >= 192 && Target(pkt, cur) < |pkt| && fuel > 0)
    ensures Reads(pkt, cur, res, fuel)
  {
    hide Target;
    assert res + [] == res;
  }

  /** On every packet, the reader returns the text of a well-formed name with the cursor behind its
      first pointer or zero octet, unless the name or the target of its last pointer is a lone
      zero octet, which fails the assertion. It runs for ever exactly on endless pointer chains. */
  lemma NameIsRead(pkt: seq<byte>, cur: nat, fuel: nat)
    ensures Parse(pkt, cur, [], fuel) == TooDeep <==> Meaning(pkt, cur, 191, fuel) == Endless
    ensures Meaning(pkt, cur, MAX_LABEL, fuel).Labels? ==>
      Parse(pkt, cur, [], fuel) ==
        if Bare(pkt, cur, false, fuel) then Abort
        else Text(Dotted(Meaning(pkt, cur, MAX_LABEL, fuel).labels), Past(pkt, cur))
  {
    ParseMeans(pkt, cur, [], fuel);
    Lenient(pkt, cur, fuel);
  }

  lemma {:induction false} Lenient(pkt: seq<byte>, cur: nat, fuel: nat)
    ensures Meaning(pkt, cur, MAX_LABEL, fuel).Labels? ==>
              Meaning(pkt, cur, 191, fuel) == Meaning(pkt, cur, MAX_LABEL, fuel)
    decreases fuel, |pkt| - cur
  {
    if cur < |pkt| {
      if pkt[cur] >= 192 {
        if cur + 2 <= |pkt| && Target(pkt, cur) < |pkt| && fuel > 0 { Lenient(pkt, Target(pkt, cur), fuel - 1); }
      } else if pkt[cur] != 0 {
        Lenient(pkt, cur + 1 + pkt[cur], fuel);
      }
    }
  }

  /** A label comes before a pointer that is followed. */
  predicate LabelBeforeJump(pkt: seq<byte>, cur: nat, labels: bool, fuel: nat)
    decreases fuel, |pkt| - cur
  {
    if cur >= |pkt| then false
    else if pkt[cur] >= 192 then
      cur + 2 <= |pkt| && Target(pkt, cur) < |pkt| && fuel > 0
      && (labels || LabelBeforeJump(pkt, Target(pkt, cur), false, fuel - 1))
    else pkt[cur] != 0 && cur + 1 + pkt[cur] < |pkt| && LabelBeforeJump(pkt, cur + 1 + pkt[cur], true, fuel)
  }

  lemma {:induction false} EmptyOnError(pkt: seq<byte>, cur: nat, res: seq<byte>, fuel: nat)
    requires Meaning(pkt, cur, 191, fuel) == Malformed && EndsInDot(res)
    ensures Parse(pkt, cur, res, fuel).Text?
    ensures Parse(pkt, cur, res, fuel).text == [] <==> !LabelBeforeJump(pkt, cur, res != [], fuel)
    decreases fuel, |pkt| - cur
  {
    if cur < |pkt| {
      if pkt[cur] >= 192 {
        if cur + 2 <= |pkt| && Target(pkt, cur) < |pkt| && fuel > 0 {
          EmptyOnError(pkt, Target(pkt, cur), [], fuel - 1);
        }
      } else if pkt[cur] != 0 && cur + 1 + pkt[cur] < |pkt| {
        EmptyOnError(pkt, cur + 1 + pkt[cur], res + pkt[cur + 1..cur + 1 + pkt[cur]] + [DOT], fuel);
      }
    }
  }

  /** The reader promises the empty text for a malformed name. For a name that RFC 1035 calls
      malformed it keeps that promise if and only if the name stays malformed with length octets up
      to 191 and no label comes before a pointer that is followed. Otherwise it gives a name: the
      labels before the pointer, or all of them with the reserved lengths taken for labels. */
  lemma {:induction false} ErrorReported(pkt: seq<byte>, cur: nat, fuel: nat)
    requires Meaning(pkt, cur, MAX_LABEL, fuel) == Malformed
    ensures var o := Parse(pkt, cur, [], fuel);
      (o.Text? && o.text == []) <==>
        Meaning(pkt, cur, 191, fuel) == Malformed && !LabelBeforeJump(pkt, cur, false, fuel)
  {
    hide Parse, LabelBeforeJump, Bare, Past;
    ParseMeans(pkt, cur, [], fuel);
    match Meaning(pkt, cur, 191, fuel)
    case Malformed => EmptyOnError(pkt, cur, [], fuel);
    case Labels(ls) => if ls == [] { NotBare(pkt, cur, fuel); }
    case Endless =>
  }

  /** Every label of 64 to 191 octets is such a name: RFC 1035 reserves its length octet, and the
      reader returns it. */
  lemma ReservedLengthRead(l: seq<byte>, post: seq<byte>, fuel: nat)
    requires 64 <= |l| <= 191
    ensures Meaning([|l|] + l + [0] + post, 0, MAX_LABEL, fuel) == Malformed
    ensures Parse([|l|] + l + [0] + post, 0, [], fuel) == Text(l + [DOT], |l| + 2)
  {
    WireReadsBack([], [l], post, [], fuel);
    assert Wire([l]) == [|l|] + l by { WireSnoc([], l); }
    assert [] + Wire([l]) + [0] + post == [|l|] + l + [0] + post;
    DottedCons(l, []);
    assert [] + Dotted([l]) == l + [DOT];
  }

  // ---------------------------------------------------------------- round trips

  /** A name written label by label reads back as its text, wherever it stands. */
  lemma {:induction false} WireReadsBack(pre: seq<byte>, labels: seq<seq<byte>>, post: seq<byte>, res: seq<byte>, fuel: nat)
    requires Legal(labels, 191) && EndsInDot(res) && (labels != [] || res != [])
    ensures Parse(pre + Wire(labels) + [0] + post, |pre|, res, fuel)
      == Text(res + Dotted(labels), |pre| + |Wire(labels)| + 1)
    decreases |labels|
  {
    if labels == [] {
      LastZero(pre, post, res, fuel);
    } else {
      hide Parse;
      var l, rest := labels[0], labels[1..];
      assert l in labels;
      assert forall x :: x in rest ==> x in labels;
      WireReadsBack(pre + ([|l|] + l), rest, post, res + l + [DOT], fuel);
      FirstReads(pre, l, Wire(rest), post, res, fuel);
      Assoc(res, l, [DOT], Dotted(rest));
    }
  }

  lemma Assoc(a: seq<byte>, b: seq<byte>, c: seq<byte>, d: seq<byte>)
    ensures a + b + c + d == a + (b + c + d)
  {
  }

  lemma LastZero(pre: seq<byte>, post: seq<byte>, res: seq<byte>, fuel: nat)
    requires EndsInDot(res) && res != []
    ensures Parse(pre + [] + [0] + post, |pre|, res, fuel) == Text(res + [], |pre| + 0 + 1)
  {
    assert res + [] == res;
    assert (pre + [] + [0] + post)[|pre|] == 0;
  }

  lemma FirstReads(pre: seq<byte>, l: seq<byte>, rest: seq<byte>, post: seq<byte>, res: seq<byte>, fuel: nat)
    requires 0 < |l| < 192
    ensures Parse(pre + ([|l|] + l + rest) + [0] + post, |pre|, res, fuel)
      == Parse(pre + ([|l|] + l) + rest + [0] + post, |pre + ([|l|] + l)|, res + l + [DOT], fuel)
  {
    hide Parse;
    FirstLabel(pre, l, rest, post);
    PastLabel(pre + ([|l|] + l + rest) + [0] + post, |pre|, res, fuel);
  }

  lemma FirstLabel(pre: seq<byte>, l: seq<byte>, rest: seq<byte>, post: seq<byte>)
    requires 0 < |l| < 192
    ensures pre + ([|l|] + l + rest) + [0] + post == pre + ([|l|] + l) + rest + [0] + post
    ensures var pkt := pre + ([|l|] + l + rest) + [0] + post;
      IsLabel(pkt, |pre|) && pkt[|pre|] == |l| && LabelAt(pkt, |pre|) == l
  {
    var pkt := pre + ([|l|] + l + rest) + [0] + post;
    assert pkt == pre + ([|l|] + l) + rest + [0] + post;
    assert pkt[|pre|] == |l|;
    assert pkt[|pre| + 1..|pre| + 1 + |l|] == l;
  }

  lemma OneLabel(pre: seq<byte>, l: seq<byte>, w: seq<byte>, rest: seq<byte>)
    requires 0 < |l| <= 191 && rest != []
    ensures var pkt := pre + ([|l|] + l + w) + rest;
      && pkt == (pre + ([|l|] + l)) + w + rest && pre + ([|l|] + l + w) == (pre + ([|l|] + l)) + w
      && IsLabel(pkt, |pre|) && pkt[|pre|] == |l| && LabelAt(pkt, |pre|) == l
  {
    var pkt := pre + ([|l|] + l + w) + rest;
    assert pkt == (pre + ([|l|] + l)) + w + rest;
    assert pkt[|pre|] == |l| && pkt[|pre| + 1..|pre| + 1 + |l|] == l;
  }

  lemma WireCons(labels: seq<seq<byte>>)
    requires Legal(labels, 191) && labels != []
    ensures 0 < |labels[0]| <= 191 && Legal(labels[1..], 191) && Legal(labels[1..], 255) && Legal(labels, 255)
    ensures Wire(labels) == [|labels[0]|] + labels[0] + Wire(labels[1..])
    ensures Dotted(labels) == labels[0] + [DOT] + Dotted(labels[1..])
  {
    assert labels[0] in labels;
  }

  /** Labels in front of whatever comes next are read and go on from there. */
  lemma {:induction false} FrontReads(pre: seq<byte>, labels: seq<seq<byte>>, rest: seq<byte>, res: seq<byte>, fuel: nat)
    requires Legal(labels, 191) && rest != []
    ensures Parse(pre + Wire(labels) + rest, |pre|, res, fuel)
      == Parse(pre + Wire(labels) + rest, |pre + Wire(labels)|, res + Dotted(labels), fuel)
    decreases |labels|
  {
    hide Parse, Wire, Dotted, Legal, IsLabel, LabelAt, Bare, Past, Meaning;
    if labels == [] {
      NoFront(pre, rest, res, fuel);
    } else {
      var l, more := labels[0], labels[1..];
      WireCons(labels);
      var w, pkt := Wire(more), pre + Wire(labels) + rest;
      OneLabel(pre, l, w, rest);
      PastLabel(pkt, |pre|, res, fuel);
      FrontReads(pre + ([|l|] + l), more, rest, res + l + [DOT], fuel);
      Assoc(res, l, [DOT], Dotted(more));
      assert |pre + ([|l|] + l)| == |pre| + 1 + |l|;
      assert Parse(pkt, |pre|, res, fuel) == Parse(pkt, |pre + ([|l|] + l)|, res + l + [DOT], fuel);
    }
  }

  lemma NoFront(pre: seq<byte>, rest: seq<byte>, res: seq<byte>, fuel: nat)
    ensures Legal([], 255)
    ensures Parse(pre + Wire([]) + rest, |pre|, res, fuel)
      == Parse(pre + Wire([]) + rest, |pre + Wire([])|, res + Dotted([]), fuel)
  {
    assert pre + [] == pre && res + [] == res;
  }

  /** The two octets of a pointer to offset p. */
  function Pointer(p: nat): seq<byte>
    requires p < 0x4000
  {
    [192 + p / 256, p % 256]
  }

  lemma PointerJumps(pkt: seq<byte>, at: nat, p: nat, res: seq<byte>, fuel: nat, tail: seq<byte>, cur: nat)
    requires p < 0x4000 && p < |pkt| && at + 2 <= |pkt| && pkt[at..at + 2] == Pointer(p) && fuel > 0
    requires Parse(pkt, p, [], fuel - 1) == Text(tail, cur)
    ensures Parse(pkt, at, res, fuel) == Text(res + tail, at + 2)
  {
    assert pkt[at] == pkt[at..at + 2][0] && pkt[at + 1] == pkt[at..at + 2][1];
    assert Target(pkt, at) == p;
  }

  /** A name whose end is a pointer to a name written earlier reads as both together. */
  lemma CompressedRoundTrip(a: seq<byte>, tail: seq<seq<byte>>, b: seq<byte>, front: seq<seq<byte>>, c: seq<byte>, fuel: nat)
    requires Legal(tail, 191) && Legal(front, 191) && tail != [] && |a| < 0x4000 && fuel > 0
    ensures var start := a + Wire(tail) + [0] + b;
      Parse(start + Wire(front) + (Pointer(|a|) + c), |start|, [], fuel)
        == Text(Dotted(front) + Dotted(tail), |start + Wire(front)| + 2)
  {
    hide Wire, Dotted, Parse, Pointer;
    var start, ptr := a + Wire(tail) + [0] + b, Pointer(|a|);
    var pkt, at := start + Wire(front) + (ptr + c), |start + Wire(front)|;
    assert |ptr| == 2 by { PointerLength(|a|); }
    FrontReads(start, front, ptr + c, [], fuel);
    assert [] + Dotted(front) == Dotted(front) && [] + Dotted(tail) == Dotted(tail);
    WireReadsBack(a, tail, b + Wire(front) + (ptr + c), [], fuel - 1);
    assert pkt == a + Wire(tail) + [0] + (b + Wire(front) + (ptr + c));
    assert pkt[at..at + 2] == ptr;
    PointerJumps(pkt, at, |a|, Dotted(front), fuel, Dotted(tail), |a| + |Wire(tail)| + 1);
  }

  lemma PointerLength(p: nat)
    requires p < 0x4000
    ensures |Pointer(p)| == 2
  {
  }

  /** Compression changes nothing: a compressed name reads as the same name spelled out, wherever
      that stands, however many pointers it went through. */
  lemma SameAsSpelledOut(pkt: seq<byte>, cur: nat, fuel: nat, pre: seq<byte>, post: seq<byte>, fuel': nat)
    requires Meaning(pkt, cur, 191, fuel).Labels? && !Bare(pkt, cur, false, fuel)
    ensures Parse(pkt, cur, [], fuel).Text?
    ensures var ls := Meaning(pkt, cur, 191, fuel).labels;
      Parse(pre + Wire(ls) + [0] + post, |pre|, [], fuel')
        == Text(Parse(pkt, cur, [], fuel).text, |pre| + |Wire(ls)| + 1)
  {
    ParseMeans(pkt, cur, [], fuel);
    if Meaning(pkt, cur, 191, fuel).labels == [] { NotBare(pkt, cur, fuel); }
    WireReadsBack(pre, Meaning(pkt, cur, 191, fuel).labels, post, [], fuel');
  }

  lemma NotBare(pkt: seq<byte>, cur: nat, fuel: nat)
    requires Meaning(pkt, cur, 191, fuel) == Labels([])
    ensures Bare(pkt, cur, false, fuel)
    decreases fuel
  {
    if pkt[cur] >= 192 { NotBare(pkt, Target(pkt, cur), fuel - 1); }
  }

  lemma JoinSplit(s: seq<byte>)
    ensures Dotted(Split(s, DOT)) == s + [DOT]
    decreases |s|
  {
    hide Find;
    var p := Find(s, [DOT]);
    if p < 0 {
      DottedCons(s, []);
    } else {
      AtDot(s, p);
      JoinSplit(s[p + 1..]);
      DottedCons(s[..p], Split(s[p + 1..], DOT));
      Assoc(s[..p], [DOT], s[p + 1..], [DOT]);
    }
  }

  lemma DottedCons(l: seq<byte>, rest: seq<seq<byte>>)
    ensures Dotted([l] + rest) == l + [DOT] + Dotted(rest)
    ensures rest == [] ==> Dotted([l]) == l + [DOT]
  {
    assert ([l] + rest)[1..] == rest;
    if rest == [] { assert [l] + rest == [l]; }
  }

  lemma AtDot(s: seq<byte>, p: nat)
    requires Occurs(s, [DOT], p)
    ensures s == s[..p] + ([DOT] + s[p + 1..])
  {
    assert s[p..p + 1][0] == DOT;
  }

  /** A legal name comes back as its text with the dot of the root, and exactly its encoding is
      consumed, whatever stands around it in the packet. */
  lemma NameRoundTrip(name: seq<byte>, pre: seq<byte>, post: seq<byte>, fuel: nat)
    requires DnsName(name) != []
    ensures Parse(pre + DnsName(name) + post, |pre|, [], fuel) == Text(Strip(name) + [DOT], |pre| + |DnsName(name)|)
  {
    hide Parse, Split, Dotted, Wire;
    var labels := Split(Strip(name), DOT);
    JoinSplit(Strip(name));
    WireReadsBack(pre, labels, post, [], fuel);
    assert pre + DnsName(name) + post == pre + Wire(labels) + [0] + post;
  }

  /** The names that can be asked for: not empty, labels of 1 to 63 octets, 253 octets of text. */
  lemma NameAccepted(name: seq<byte>)
    ensures DnsName(name) != [] <==>
      Strip(name) != [] && Legal(Split(Strip(name), DOT), MAX_LABEL) && |Strip(name)| <= 253
    ensures |DnsName(name)| <= MAX_NAME
  {
    var labels := Split(Strip(name), DOT);
    JoinSplit(Strip(name));
    if Legal(labels, 255) { SameLength(labels); }
  }

  lemma SameLength(labels: seq<seq<byte>>)
    requires Legal(labels, 255)
    ensures |Wire(labels)| == |Dotted(labels)|
  {
    if labels != [] { SameLength(labels[1..]); }
  }

  /** `match_name`: only the name in the reply loses its dot. */
  predicate MatchName(name: seq<byte>, rname: seq<byte>) { name == Strip(rname) }

  /** A reply that repeats the question is taken for it if and only if the name was asked for
      without the dot of the root. */
  lemma EchoMatches(name: seq<byte>, pre: seq<byte>, post: seq<byte>, fuel: nat)
    requires DnsName(name) != []
    ensures Parse(pre + DnsName(name) + post, |pre|, [], fuel).Text?
    ensures MatchName(name, Parse(pre + DnsName(name) + post, |pre|, [], fuel).text)
      <==> name[|name| - 1] != DOT
  {
    NameRoundTrip(name, pre, post, fuel);
    assert (Strip(name) + [DOT])[..|Strip(name)|] == Strip(name);
  }

  lemma {:induction false} SplitDotted(labels: seq<seq<byte>>)
    requires labels != [] && forall l :: l in labels ==> DOT !in l
    ensures Dotted(labels) != [] && Split(Strip(Dotted(labels)), DOT) == labels
  {
    var l, rest := labels[0], labels[1..];
    assert l in labels;
    if rest == [] {
      assert Dotted(labels) == l + [DOT] + [];
      assert Strip(Dotted(labels)) == l;
      NoSep(l, DOT);
    } else {
      SplitDotted(rest);
      EndsWithDot(rest);
      var tail := Dotted(rest);
      assert Strip(Dotted(labels)) == l + [DOT] + Strip(tail);
      SplitHead(l, DOT, Strip(tail));
    }
  }

  lemma EndsWithDot(labels: seq<seq<byte>>)
    ensures labels != [] ==> Dotted(labels) != [] && Dotted(labels)[|Dotted(labels)| - 1] == DOT
  {
    if labels != [] && labels[1..] != [] { EndsWithDot(labels[1..]); }
  }

  /** On every packet: a reply is taken for the question if and only if its name, spelled out, is
      the one asked for, octet by octet; if no label of it holds a dot, if and only if its labels are
      those of the question. So no other name matches. */
  lemma OnlyEchoMatches(name: seq<byte>, pkt: seq<byte>, cur: nat, fuel: nat)
    requires Meaning(pkt, cur, 191, fuel).Labels? && !Bare(pkt, cur, false, fuel)
    ensures var ls := Meaning(pkt, cur, 191, fuel).labels; var o := Parse(pkt, cur, [], fuel);
      && o.Text?
      && (MatchName(name, o.text) <==> Dotted(ls) == name + [DOT])
      && ((forall l :: l in ls ==> DOT !in l) ==> (MatchName(name, o.text) <==> Split(name, DOT) == ls))
  {
    hide Parse, Meaning, Bare, Split, Dotted, Past;
    ParseMeans(pkt, cur, [], fuel);
    var ls := Meaning(pkt, cur, 191, fuel).labels;
    if ls == [] { NotBare(pkt, cur, fuel); }
    EndsWithDot(ls);
    assert [] + Dotted(ls) == Dotted(ls);
    assert Strip(Dotted(ls)) + [DOT] == Dotted(ls);
    assert (name + [DOT])[..|name|] == name;
    if forall l :: l in ls ==> DOT !in l {
      SplitDotted(ls);
      JoinSplit(name);
    }
  }

  // ---------------------------------------------------------------- termination

  /** More fuel changes nothing once there is enough. */
  lemma {:induction false} FuelEnough(pkt: seq<byte>, cur: nat, res: seq<byte>, fuel: nat, more: nat)
    requires Parse(pkt, cur, res, fuel) != TooDeep && fuel <= more
    ensures Parse(pkt, cur, res, more) == Parse(pkt, cur, res, fuel)
    decreases fuel, |pkt| - cur
  {
    if cur < |pkt| {
      if pkt[cur] >= 192 {
        if cur + 2 <= |pkt| && Target(pkt, cur) < |pkt| { FuelEnough(pkt, Target(pkt, cur), [], fuel - 1, more - 1); }
      } else if pkt[cur] != 0 && cur + 1 + pkt[cur] < |pkt| {
        FuelEnough(pkt, cur + 1 + pkt[cur], res + pkt[cur + 1..cur + 1 + pkt[cur]] + [DOT], fuel, more);
      }
    }
  }

  /** Whether the fuel suffices does not depend on what was read before. */
  predicate Ends(pkt: seq<byte>, cur: nat, fuel: nat) { Parse(pkt, cur, [], fuel) != TooDeep }

  lemma EndsAnyRes(pkt: seq<byte>, cur: nat, a: seq<byte>, b: seq<byte>, fuel: nat)
    ensures Parse(pkt, cur, a, fuel) == TooDeep <==> Parse(pkt, cur, b, fuel) == TooDeep
    decreases |pkt| - cur
  {
    if cur < |pkt| && 0 < pkt[cur] < 192 && cur + 1 + pkt[cur] < |pkt| {
      var l := pkt[cur + 1..cur + 1 + pkt[cur]];
      EndsAnyRes(pkt, cur + 1 + pkt[cur], a + l + [DOT], b + l + [DOT], fuel);
    }
  }

  /** The pointer that ends the piece at `cur`, if it is followed. */
  function Jump(pkt: seq<byte>, cur: nat): (p: Option<nat>)
    ensures p.Some? ==> p.value < |pkt|
    decreases |pkt| - cur
  {
    if cur >= |pkt| then None
    else if pkt[cur] >= 192 then
      if cur + 2 > |pkt| || Target(pkt, cur) >= |pkt| then None else Some(Target(pkt, cur))
    else if pkt[cur] == 0 then None
    else Jump(pkt, cur + 1 + pkt[cur])
  }

  lemma EndsByJump(pkt: seq<byte>, cur: nat, fuel: nat)
    ensures Ends(pkt, cur, fuel) <==>
      Jump(pkt, cur).None? || (fuel > 0 && Ends(pkt, Jump(pkt, cur).value, fuel - 1))
    decreases |pkt| - cur
  {
    if cur < |pkt| && 0 < pkt[cur] < 192 {
      var next := cur + 1 + pkt[cur];
      if next < |pkt| {
        EndsByJump(pkt, next, fuel);
        EndsAnyRes(pkt, next, [], pkt[cur + 1..next] + [DOT], fuel);
        assert [] + pkt[cur + 1..next] + [DOT] == pkt[cur + 1..next] + [DOT];
      }
    }
  }

  /** RFC 1035, section 4.1.4: every pointer goes to a prior occurrence. */
  predicate Prior(pkt: seq<byte>, cur: nat) {
    Jump(pkt, cur).None? || (Jump(pkt, cur).value < cur && Prior(pkt, Jump(pkt, cur).value))
  }

  /** Names whose pointers go back are always read to their end. */
  lemma {:induction false} PriorEnds(pkt: seq<byte>, cur: nat)
    requires Prior(pkt, cur)
    ensures Ends(pkt, cur, cur)
  {
    EndsByJump(pkt, cur, cur);
    if Jump(pkt, cur).Some? {
      var p := Jump(pkt, cur).value;
      PriorEnds(pkt, p);
      FuelEnough(pkt, p, [], p, cur - 1);
    }
  }

  /** Positions that need exactly 0, 1, ... n - 1 jumps: all different, all inside the packet. */
  lemma {:induction false} Ladder(pkt: seq<byte>, cur: nat, n: nat) returns (s: set<nat>)
    decreases n
    requires Ends(pkt, cur, n) && (n == 0 || !Ends(pkt, cur, n - 1))
    ensures |s| == n && forall p :: p in s ==> p < |pkt| && (n == 0 || Ends(pkt, p, n - 1))
  {
    EndsByJump(pkt, cur, n);
    if n == 0 { return {}; }
    EndsByJump(pkt, cur, n - 1);
    var p := Jump(pkt, cur).value;
    s := Ladder(pkt, p, n - 1);
    forall q | q in s ensures q != p && Ends(pkt, q, n - 1) {
      FuelEnough(pkt, q, [], n - 2, n - 1);
    }
    s := s + {p};
  }

  lemma Crowded(s: set<nat>, n: nat)
    requires forall p :: p in s ==> p < n
    ensures |s| <= n
  {
    if n == 0 {
      assert s == {};
    } else {
      Crowded(s - {n - 1}, n - 1);
    }
  }

  /** Reading ends at all if and only if it ends within as many jumps as the packet has octets;
      a name that needs more goes round in circles. */
  lemma {:induction false} EndsWithinPacket(pkt: seq<byte>, cur: nat, fuel: nat)
    requires Ends(pkt, cur, fuel)
    ensures Ends(pkt, cur, |pkt|)
  {
    if fuel > |pkt| {
      if Ends(pkt, cur, fuel - 1) {
        EndsWithinPacket(pkt, cur, fuel - 1);
      } else {
        var s := Ladder(pkt, cur, fuel);
        Crowded(s, |pkt|);
      }
    } else {
      FuelEnough(pkt, cur, [], fuel, |pkt|);
    }
  }
}
