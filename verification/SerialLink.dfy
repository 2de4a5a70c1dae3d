/**
 `putpacket` at one end of a serial line and `getpacket` at the other (`debug.c`), as two
 processes that exchange single bytes through two queues.  Every `outbyte` and every
 `inbyte` is one step; an `inbyte` on an empty queue waits.  A run is any interleaving.
 */
module SerialLink {
  import opened Bits
  import opened Common
  import opened GdbStub

  // ---------------------------------------------------------------- the sender

  /** Where `putpacket` stands: about to send the part named, or waiting for an answer. */
  datatype SendPc = AtDollar | AtData(count: nat, sum: Byte) | AtHigh(sum: Byte) | AtLow(sum: Byte) | Awaiting

  /** A sender that has finished `done` calls and is in the next one. */
  datatype Sender = Sender(done: nat, pc: SendPc)

  /** The byte about to be sent and where the call goes on, for the NUL-terminated `packet`. */
  function NextOut(packet: seq<Byte>, pc: SendPc): (Byte, SendPc)
    requires !pc.Awaiting?
  {
    match pc
    case AtDollar => (DOLLAR, AtData(0, 0))
    case AtData(count, sum) =>
      var ch := At(packet + [0], count);
      if ch != 0 then (ch, AtData(count + 1, Add(sum, ch))) else (HASH, AtHigh(sum))
    case AtHigh(sum) => (DigitToHex(sum / 16), AtLow(sum))
    case AtLow(sum) => (DigitToHex(sum % 16), Awaiting)
  }

  // ---------------------------------------------------------------- the receiver

  /** Where `getpacket` stands; `sum` is its running checksum and `sent` the one it has read. */
  datatype ReceivePc =
    | Hunting
    | Filling(count: nat, sum: Byte)
    | ReadingHigh(sum: Byte)
    | ReadingLow(sum: Byte, hi: Byte)
    | Acknowledging(sum: Byte, sent: Byte)

  /** What a call of `getpacket` leaves in its buffer, with both checksums. */
  datatype Receipt = Receipt(buf: seq<Byte>, sum: Byte, sent: Byte)

  /** A receiver with `left` calls to make, the one under way included. */
  datatype Receiver = Receiver(left: nat, pc: ReceivePc, buf: seq<Byte>, got: seq<Receipt>)

  predicate ReceiverOk(r: Receiver) { |r.buf| == BUFMAX && (r.pc.Filling? ==> r.pc.count < BUFMAX) }

  /** The checksum `getpacket` starts with, before it has read one. */
  const NO_CHECKSUM: Byte := 255

  function Return(r: Receiver, buf: seq<Byte>, sum: Byte, sent: Byte): Receiver {
    Receiver(r.left - if r.left > 0 then 1 else 0, Hunting, buf, r.got + [Receipt(buf, sum, sent)])
  }

  /** The receiver after reading a byte. */
  function Take(r: Receiver, b: Byte): (r1: Receiver)
    requires ReceiverOk(r) && !r.pc.Acknowledging?
    ensures ReceiverOk(r1)
  {
    var ch := Mask7(b);
    match r.pc
    case Hunting => if ch == DOLLAR then r.(pc := Filling(0, 0)) else r
    case Filling(count, sum) =>
      if ch == HASH then r.(pc := ReadingHigh(sum), buf := r.buf[count := 0])
      else
        var buf, sum1 := r.buf[count := ch], Add(sum, ch);
        if count + 1 < BUFMAX then r.(pc := Filling(count + 1, sum1), buf := buf)
        else if sum1 != NO_CHECKSUM then r.(pc := Hunting, buf := buf)
        else Return(r, buf, sum1, NO_CHECKSUM)
    case ReadingHigh(sum) => r.(pc := ReadingLow(sum, ch))
    case ReadingLow(sum, hi) => r.(pc := Acknowledging(sum, Pack(hi, ch)))
  }

  // ---------------------------------------------------------------- both together

  /** `there` and `back` are the bytes under way; `sent` is all the sender ever put on the line. */
  datatype Link = Link(sender: Sender, receiver: Receiver, there: seq<Byte>, back: seq<Byte>, sent: seq<Byte>)

  function SenderStep(packets: seq<seq<Byte>>, l: Link): Option<Link> {
    var Sender(k, pc) := l.sender;
    if k >= |packets| then None
    else if !pc.Awaiting? then
      var (b, pc1) := NextOut(packets[k], pc);
      Some(l.(sender := Sender(k, pc1), there := l.there + [b], sent := l.sent + [b]))
    else if l.back == [] then None
    else
      var k1 := if Mask7(l.back[0]) == PLUS then k + 1 else k;
      Some(l.(sender := Sender(k1, AtDollar), back := l.back[1..]))
  }

  function ReceiverStep(l: Link): Option<Link>
    requires ReceiverOk(l.receiver)
  {
    var r := l.receiver;
    if r.left == 0 then None
    else if r.pc.Acknowledging? then
      Some(l.(receiver := Return(r, r.buf, r.pc.sum, r.pc.sent), back := l.back + [PLUS]))
    else if l.there == [] then None
    else Some(l.(receiver := Take(r, l.there[0]), there := l.there[1..]))
  }

  ghost predicate Step(packets: seq<seq<Byte>>, l: Link, l': Link) {
    ReceiverOk(l.receiver) && (SenderStep(packets, l) == Some(l') || ReceiverStep(l) == Some(l'))
  }

  /** Neither party can move. */
  ghost predicate Still(packets: seq<seq<Byte>>, l: Link) {
    ReceiverOk(l.receiver) && SenderStep(packets, l).None? && ReceiverStep(l).None?
  }

  /** As many calls at either end as there are packets; the receiver's buffer holds anything. */
  function Start(packets: seq<seq<Byte>>, buf: seq<Byte>): Link {
    Link(Sender(0, AtDollar), Receiver(|packets|, Hunting, buf, []), [], [], [])
  }

  ghost predicate IsRun(packets: seq<seq<Byte>>, states: seq<Link>) {
    && |states| > 0 && |states[0].receiver.buf| == BUFMAX && states[0] == Start(packets, states[0].receiver.buf)
    && forall i :: 0 < i < |states| ==> Step(packets, states[i - 1], states[i])
  }

  function Frames(packets: seq<seq<Byte>>): seq<Byte> {
    if packets == [] then [] else Frame(packets[0]) + Frames(packets[1..])
  }

  // ---------------------------------------------------------------- positions in a frame

  /** The sender after `s` bytes of the frame of `p`. */
  function SendAt(p: seq<Byte>, s: nat): SendPc {
    if s == 0 then AtDollar
    else if s <= |p| + 1 then AtData(s - 1, Checksum(p[..s - 1]))
    else if s == |p| + 2 then AtHigh(Checksum(p))
    else if s == |p| + 3 then AtLow(Checksum(p))
    else Awaiting
  }

  /** The receiver after `r` bytes of it. */
  function ReceiveAt(p: seq<Byte>, r: nat): ReceivePc {
    if r == 0 then Hunting
    else if r <= |p| + 1 then Filling(r - 1, Checksum(p[..r - 1]))
    else if r == |p| + 2 then ReadingHigh(Checksum(p))
    else if r == |p| + 3 then ReadingLow(Checksum(p), DigitToHex(Checksum(p) / 16))
    else Acknowledging(Checksum(p), Checksum(p))
  }

  /** What the buffer holds by then. */
  ghost predicate BufferAt(p: seq<Byte>, r: nat, buf: seq<Byte>) {
    if r == 0 then true
    else if r <= |p| + 1 then p[..r - 1] <= buf
    else p + [0] <= buf
  }

  lemma SendsFrame(p: seq<Byte>, s: nat)
    requires Sendable(p) && s < |p| + 4
    ensures !SendAt(p, s).Awaiting? && NextOut(p, SendAt(p, s)) == (Frame(p)[s], SendAt(p, s + 1))
  {
    if 0 < s <= |p| {
      assert p[..s] == p[..s - 1] + [p[s - 1]];
      ChecksumNext(p[..s - 1], p[s - 1]);
    } else if s == |p| + 1 {
      assert p[..|p|] == p;
    }
  }

  /** Reading the next byte of the frame moves the receiver one place on. */
  ghost predicate MovesOn(p: seq<Byte>, i: nat, r: Receiver, r1: Receiver) {
    r1 == r.(pc := ReceiveAt(p, i + 1), buf := r1.buf) && ReceiverOk(r1) && BufferAt(p, i + 1, r1.buf)
  }

  lemma ReceivesData(p: seq<Byte>, i: nat, r: Receiver)
    requires Sendable(p) && 0 < i <= |p| && ReceiverOk(r) && r.pc == ReceiveAt(p, i) && BufferAt(p, i, r.buf)
    ensures MovesOn(p, i, r, Take(r, p[i - 1]))
  {
    PrefixGrows(p, i, r.buf);
    ChecksumNext(p[..i - 1], p[i - 1]);
  }

  lemma PrefixGrows(p: seq<Byte>, i: nat, buf: seq<Byte>)
    requires 0 < i <= |p| && i <= |buf| && p[..i - 1] <= buf
    ensures p[..i] == p[..i - 1] + [p[i - 1]] && p[..i] <= buf[i - 1 := p[i - 1]]
  {
  }

  lemma ReceivesHash(p: seq<Byte>, r: Receiver)
    requires Sendable(p) && ReceiverOk(r) && r.pc == ReceiveAt(p, |p| + 1) && BufferAt(p, |p| + 1, r.buf)
    ensures Frame(p)[|p| + 1] == HASH && MovesOn(p, |p| + 1, r, Take(r, HASH))
  {
    assert p[..|p|] == p;
  }

  lemma ReceivesDigit(p: seq<Byte>, i: nat, r: Receiver)
    requires Sendable(p) && |p| + 2 <= i < |p| + 4 && ReceiverOk(r) && r.pc == ReceiveAt(p, i) && BufferAt(p, i, r.buf)
    ensures MovesOn(p, i, r, Take(r, Frame(p)[i]))
  {
    PackHexByte(Checksum(p));
    assert Frame(p)[i] == HexByte(Checksum(p))[i - |p| - 2];
  }

  lemma ReceivesFrame(p: seq<Byte>, i: nat, r: Receiver)
    requires Sendable(p) && i < |p| + 4 && ReceiverOk(r) && r.pc == ReceiveAt(p, i) && BufferAt(p, i, r.buf)
    ensures MovesOn(p, i, r, Take(r, Frame(p)[i]))
  {
    if i == 0 {
      assert Frame(p)[0] == DOLLAR && p[..0] == [];
    } else if i <= |p| {
      assert Frame(p)[i] == p[i - 1];
      ReceivesData(p, i, r);
    } else if i == |p| + 1 {
      ReceivesHash(p, r);
    } else {
      ReceivesDigit(p, i, r);
    }
  }

  // ---------------------------------------------------------------- the invariant

  /** Each packet delivered so far is there NUL-terminated, with the checksum that was sent. */
  ghost predicate Delivered(packets: seq<seq<Byte>>, got: seq<Receipt>) {
    && |got| <= |packets|
    && forall i :: 0 <= i < |got| ==>
         packets[i] + [0] <= got[i].buf && got[i].sum == got[i].sent == Checksum(packets[i])
  }

  /** In the exchange of one packet: `s` bytes of its frame sent, `r` read, and whether it has been acknowledged. */
  datatype Place = Place(s: nat, r: nat, acked: bool)

  ghost predicate Exchanging(p: seq<Byte>, l: Link, at: Place) {
    && l.sender.pc == SendAt(p, at.s) && at.r <= at.s <= |p| + 4
    && if at.acked then at.r == |p| + 4 && l.receiver.pc == Hunting && l.there == [] && l.back == [PLUS]
       else l.receiver.pc == ReceiveAt(p, at.r) && BufferAt(p, at.r, l.receiver.buf)
            && l.there == Frame(p)[at.r..at.s] && l.back == []
  }

  ghost predicate Inv(packets: seq<seq<Byte>>, l: Link, at: Place) {
    var k := l.sender.done;
    && ReceiverOk(l.receiver) && k <= |packets| && Delivered(packets, l.receiver.got)
    && |l.receiver.got| == k + (if at.acked then 1 else 0) && l.receiver.left == |packets| - |l.receiver.got|
    && if k == |packets| then at == Place(0, 0, false) && l.there == l.back == [] && l.sent == Frames(packets)
       else Exchanging(packets[k], l, at) && l.sent == Frames(packets[..k]) + Frame(packets[k])[..at.s]
  }

  lemma {:induction false} FramesAppend(packets: seq<seq<Byte>>, k: nat)
    requires k < |packets|
    ensures Frames(packets[..k + 1]) == Frames(packets[..k]) + Frame(packets[k])
  {
    var first, rest := Frame(packets[0]), packets[1..];
    assert packets[..k + 1][1..] == rest[..k];
    if k > 0 {
      assert packets[..k][1..] == rest[..k - 1];
      FramesAppend(rest, k - 1);
      Associates(first, Frames(rest[..k - 1]), Frame(packets[k]));
    }
  }

  lemma Associates(a: seq<Byte>, b: seq<Byte>, c: seq<Byte>)
    ensures a + b + c == a + (b + c)
  {
  }

  lemma SenderWrites(packets: seq<seq<Byte>>, l: Link, at: Place)
    requires Inv(packets, l, at) && l.sender.done < |packets| && Sendable(packets[l.sender.done])
    requires at.s < |packets[l.sender.done]| + 4
    ensures SenderStep(packets, l).Some? && Inv(packets, SenderStep(packets, l).value, at.(s := at.s + 1))
  {
    var k := l.sender.done;
    var p := packets[k];
    SendsFrame(p, at.s);
    OneMore(Frames(packets[..k]), Frame(p), at.r, at.s);
  }

  lemma OneMore(before: seq<Byte>, f: seq<Byte>, r: nat, s: nat)
    requires r <= s < |f|
    ensures f[r..s] + [f[s]] == f[r..s + 1] && before + f[..s] + [f[s]] == before + f[..s + 1]
  {
  }

  lemma SenderReads(packets: seq<seq<Byte>>, l: Link, at: Place)
    requires Inv(packets, l, at) && l.sender.done < |packets| && at.acked
    ensures SenderStep(packets, l).Some? && Inv(packets, SenderStep(packets, l).value, Place(0, 0, false))
    ensures SenderStep(packets, l).value.sender.done == l.sender.done + 1
  {
    var k := l.sender.done;
    var f := Frame(packets[k]);
    FramesAppend(packets, k);
    assert f[..at.s] == f;
    if k + 1 < |packets| {
      assert Frames(packets[..k + 1]) + Frame(packets[k + 1])[..0] == Frames(packets[..k + 1]);
    } else {
      assert packets[..k + 1] == packets;
    }
  }

  lemma ReceiverReads(packets: seq<seq<Byte>>, l: Link, at: Place)
    requires Inv(packets, l, at) && l.sender.done < |packets| && Sendable(packets[l.sender.done])
    requires !at.acked && at.r < at.s
    ensures ReceiverStep(l).Some? && Inv(packets, ReceiverStep(l).value, at.(r := at.r + 1))
  {
    var p := packets[l.sender.done];
    var f := Frame(p);
    assert f[at.r..at.s][0] == f[at.r] && f[at.r..at.s][1..] == f[at.r + 1..at.s];
    ReceivesFrame(p, at.r, l.receiver);
  }

  lemma ReceiverWrites(packets: seq<seq<Byte>>, l: Link, at: Place)
    requires Inv(packets, l, at) && l.sender.done < |packets|
    requires !at.acked && at.r == |packets[l.sender.done]| + 4
    ensures ReceiverStep(l).Some? && Inv(packets, ReceiverStep(l).value, at.(acked := true))
  {
  }

  /** How many steps the packets not yet exchanged take. */
  function Work(packets: seq<seq<Byte>>): nat {
    if packets == [] then 0 else 2 * |Frame(packets[0])| + 2 + Work(packets[1..])
  }

  ghost function Remaining(packets: seq<seq<Byte>>, l: Link, at: Place): int
    requires l.sender.done <= |packets|
  {
    Work(packets[l.sender.done..]) - at.s - at.r - if at.acked then 1 else 0
  }

  ghost predicate AllSendable(packets: seq<seq<Byte>>) { forall i :: 0 <= i < |packets| ==> Sendable(packets[i]) }

  /** Every step keeps the invariant and leaves one step less to do. */
  lemma StepInv(packets: seq<seq<Byte>>, l: Link, at: Place, l': Link) returns (at': Place)
    requires AllSendable(packets) && Inv(packets, l, at) && Step(packets, l, l')
    ensures Inv(packets, l', at') && Remaining(packets, l', at') == Remaining(packets, l, at) - 1
  {
    var k := l.sender.done;
    assert k < |packets|;
    var p := packets[k];
    if SenderStep(packets, l) == Some(l') {
      if at.s < |p| + 4 {
        SenderWrites(packets, l, at);
        at' := at.(s := at.s + 1);
      } else {
        SenderReads(packets, l, at);
        at' := Place(0, 0, false);
        assert packets[k..][1..] == packets[k + 1..];
      }
    } else if at.r < |p| + 4 {
      ReceiverReads(packets, l, at);
      at' := at.(r := at.r + 1);
    } else {
      ReceiverWrites(packets, l, at);
      at' := at.(acked := true);
    }
  }

  /** Someone can move until all is done: the two never wait for each other. */
  lemma NoDeadlock(packets: seq<seq<Byte>>, l: Link, at: Place)
    requires AllSendable(packets) && Inv(packets, l, at)
    ensures Still(packets, l) <==> l.sender.done == |packets|
  {
    var k := l.sender.done;
    if k < |packets| {
      if at.acked {
        SenderReads(packets, l, at);
      } else if at.s < |packets[k]| + 4 {
        SenderWrites(packets, l, at);
      } else if at.r < at.s {
        ReceiverReads(packets, l, at);
      } else {
        ReceiverWrites(packets, l, at);
      }
    }
  }

  lemma {:induction false} RunInv(packets: seq<seq<Byte>>, states: seq<Link>) returns (at: Place)
    requires AllSendable(packets) && IsRun(packets, states)
    ensures var l := states[|states| - 1];
            Inv(packets, l, at) && Remaining(packets, l, at) + |states| == Work(packets) + 1
  {
    if |states| == 1 {
      at := Place(0, 0, false);
      assert packets[0..] == packets;
      if packets != [] {
        assert packets[..0] == [] && Frame(packets[0])[..0] == [] && Frame(packets[0])[0..0] == [];
      }
    } else {
      var n := |states| - 1;
      var at0 := RunInv(packets, states[..n]);
      assert Step(packets, states[n - 1], states[n]);
      at := StepInv(packets, states[n - 1], at0, states[n]);
    }
  }

  /** All is done: every packet delivered, in order, each sent in one frame, and nothing left on the line. */
  ghost predicate Finished(packets: seq<seq<Byte>>, l: Link) {
    && l.sender.done == |packets| == |l.receiver.got| && Delivered(packets, l.receiver.got)
    && l.sent == Frames(packets) && l.there == [] && l.back == []
  }

  /**
   Any packets of 7-bit characters other than NUL and `#` that fit the buffer: every
   interleaving of the two parties ends, after exactly `Work(packets)` steps, with each
   packet delivered in one round; and no run stops before.
   */
  lemma Exchange(packets: seq<seq<Byte>>, states: seq<Link>)
    requires AllSendable(packets) && IsRun(packets, states)
    ensures var l := states[|states| - 1];
            && |states| <= Work(packets) + 1
            && (Still(packets, l) <==> |states| == Work(packets) + 1)
            && (Still(packets, l) <==> Finished(packets, l))
  {
    var l := states[|states| - 1];
    var at := RunInv(packets, states);
    NoDeadlock(packets, l, at);
    RemainingSteps(packets, l, at);
  }

  lemma RemainingSteps(packets: seq<seq<Byte>>, l: Link, at: Place)
    requires Inv(packets, l, at)
    ensures Remaining(packets, l, at) >= 0
    ensures Remaining(packets, l, at) == 0 <==> l.sender.done == |packets|
  {
    var k := l.sender.done;
    if k < |packets| {
      assert packets[k..][0] == packets[k];
    }
  }

  // ---------------------------------------------------------------- the receiver on its own

  /** A receiver that reads until its call is about to acknowledge, or returns, or the bytes run out. */
  function Feed(r: Receiver, input: seq<Byte>): (Receiver, seq<Byte>)
    requires ReceiverOk(r)
    decreases |input|
  {
    if r.pc.Acknowledging? || input == [] then (r, input)
    else
      var r1 := Take(r, input[0]);
      if |r1.got| > |r.got| then (r1, input[1..]) else Feed(r1, input[1..])
  }

  /** Where the call ends when `Receive` says `x`. */
  ghost predicate EndsAs(x: Received, r: Receiver, r1: Receiver, rest: seq<Byte>) {
    match x
    case Blocked => rest == [] && !r1.pc.Acknowledging? && r1.got == r.got
    case Got(data, hi, lo, more) =>
      && rest == more && r1.got == r.got
      && r1.pc == Acknowledging(Checksum(data), Pack(hi, lo)) && data + [0] <= r1.buf
    case Overrun(data, more) => rest == more && r1.got == r.got + [Receipt(data, NO_CHECKSUM, NO_CHECKSUM)]
  }

  lemma FindShift(c: Byte, s: seq<Byte>)
    requires s != [] && Mask7(s[0]) != c
    ensures Find(c, s, |s|) == Find(c, s[1..], |s| - 1) + 1
  {
    var k := Find(c, s[1..], |s| - 1);
    assert forall i :: 0 < i <= k && i < |s| ==> s[i] == s[1..][i - 1];
    FindUnique(c, s, |s|, k + 1);
  }

  lemma FeedStep(r: Receiver, input: seq<Byte>, r1: Receiver)
    requires ReceiverOk(r) && !r.pc.Acknowledging? && input != [] && r1 == Take(r, input[0]) && r1.got == r.got
    ensures Feed(r, input) == Feed(r1, input[1..])
  {
  }

  lemma BodyFrom(input: seq<Byte>, i: nat, s: seq<Byte>)
    requires i == Find(DOLLAR, input, |input|) < |input| && s == input[i + 1..]
    ensures Receive(input) == Body(s)
  {
  }

  /** The process reads what the function `Receive` says, byte by byte. */
  lemma {:induction false} FeedIsReceive(r: Receiver, input: seq<Byte>)
    requires ReceiverOk(r) && r.pc == Hunting
    ensures EndsAs(Receive(input), r, Feed(r, input).0, Feed(r, input).1)
    decreases |input|, 2
  {
    if input != [] {
      var r1 := Take(r, input[0]);
      FeedStep(r, input, r1);
      if Mask7(input[0]) == DOLLAR {
        FindUnique(DOLLAR, input, |input|, 0);
        BodyFrom(input, 0, input[1..]);
        assert input[1..][..0] == [] && input[1..][0..] == input[1..];
        FillIsBody(r1, input[1..], 0);
      } else {
        SkipsOne(input);
        FeedIsReceive(r, input[1..]);
      }
    }
  }

  lemma SkipsOne(input: seq<Byte>)
    requires input != [] && Mask7(input[0]) != DOLLAR
    ensures Receive(input) == Receive(input[1..])
  {
    var t := input[1..];
    FindShift(DOLLAR, input);
    var i := Find(DOLLAR, t, |t|);
    if i < |t| {
      assert t[i + 1..] == input[i + 2..];
      BodyFrom(t, i, t[i + 1..]);
      BodyFrom(input, i + 1, t[i + 1..]);
    }
  }

  lemma {:induction false} FillIsBody(r: Receiver, s: seq<Byte>, count: nat)
    requires ReceiverOk(r) && count <= |s| && r.pc == Filling(count, Checksum(Masked(s[..count])))
    requires Masked(s[..count]) <= r.buf && forall i :: 0 <= i < count ==> Mask7(s[i]) != HASH
    ensures EndsAs(Body(s), r, Feed(r, s[count..]).0, Feed(r, s[count..]).1)
    decreases |s| - count, 1
  {
    if count == |s| {
      FindUnique(HASH, s, |s|, |s|);
    } else if Mask7(s[count]) == HASH {
      HashRead(r, s, count);
    } else if count + 1 < BUFMAX {
      MaskedNext(s, count, r.buf);
      var r1 := Take(r, s[count]);
      assert s[count..][0] == s[count] && s[count..][1..] == s[count + 1..];
      FeedStep(r, s[count..], r1);
      FillIsBody(r1, s, count + 1);
    } else {
      FullIsBody(r, s);
    }
  }

  lemma {:induction false} FullIsBody(r: Receiver, s: seq<Byte>)
    requires ReceiverOk(r) && BUFMAX <= |s| && r.pc == Filling(BUFMAX - 1, Checksum(Masked(s[..BUFMAX - 1])))
    requires Masked(s[..BUFMAX - 1]) <= r.buf && forall i :: 0 <= i < BUFMAX ==> Mask7(s[i]) != HASH
    ensures EndsAs(Body(s), r, Feed(r, s[BUFMAX - 1..]).0, Feed(r, s[BUFMAX - 1..]).1)
    decreases |s| - BUFMAX + 1, 0
  {
    LastRead(r, s);
    var t := s[BUFMAX - 1..];
    assert t[0] == s[BUFMAX - 1] && t[1..] == s[BUFMAX..];
    var r1 := Take(r, t[0]);
    if r1.got == r.got {
      FeedStep(r, t, r1);
      FeedIsReceive(r1, t[1..]);
    }
  }

  lemma MaskedNext(s: seq<Byte>, count: nat, buf: seq<Byte>)
    requires count < |s| && count < |buf| && Masked(s[..count]) <= buf
    ensures Masked(s[..count + 1]) <= buf[count := Mask7(s[count])]
    ensures Checksum(Masked(s[..count + 1])) == Add(Checksum(Masked(s[..count])), Mask7(s[count]))
  {
    assert Masked(s[..count + 1]) == Masked(s[..count]) + [Mask7(s[count])];
    ChecksumNext(Masked(s[..count]), Mask7(s[count]));
  }

  /** The byte that fills the buffer: the call returns, or starts over. */
  lemma LastRead(r: Receiver, s: seq<Byte>)
    requires ReceiverOk(r) && BUFMAX <= |s| && r.pc == Filling(BUFMAX - 1, Checksum(Masked(s[..BUFMAX - 1])))
    requires Masked(s[..BUFMAX - 1]) <= r.buf && forall i :: 0 <= i < BUFMAX ==> Mask7(s[i]) != HASH
    ensures var r1 := Take(r, s[BUFMAX - 1]);
            if r1.got == r.got then r1.pc == Hunting && Body(s) == Receive(s[BUFMAX..])
            else EndsAs(Body(s), r, r1, s[BUFMAX..])
  {
    MaskedNext(s, BUFMAX - 1, r.buf);
    FindUnique(HASH, s, BUFMAX, BUFMAX);
    PassFull(s);
    assert Masked(s[..BUFMAX]) == r.buf[BUFMAX - 1 := Mask7(s[BUFMAX - 1])];
  }

  /** `#` ends the data; two digits of checksum follow. */
  lemma HashRead(r: Receiver, s: seq<Byte>, k: nat)
    requires ReceiverOk(r) && k < |s| && r.pc == Filling(k, Checksum(Masked(s[..k])))
    requires Masked(s[..k]) <= r.buf && Mask7(s[k]) == HASH && forall i :: 0 <= i < k ==> Mask7(s[i]) != HASH
    ensures EndsAs(Body(s), r, Feed(r, s[k..]).0, Feed(r, s[k..]).1)
  {
    var r1 := Take(r, s[k]);
    assert s[k..][0] == s[k] && s[k..][1..] == s[k + 1..];
    FeedStep(r, s[k..], r1);
    FindUnique(HASH, s, if |s| < BUFMAX then |s| else BUFMAX, k);
    PassShort(s, k);
    FeedDigits(r1, s[k + 1..]);
    assert |s| >= k + 3 ==> s[k + 1..][2..] == s[k + 3..];
    assert Masked(s[..k]) + [0] <= r1.buf;
  }

  lemma FeedDigits(r: Receiver, t: seq<Byte>)
    requires ReceiverOk(r) && r.pc.ReadingHigh?
    ensures var (r1, rest) := Feed(r, t);
            if |t| < 2 then rest == [] && !r1.pc.Acknowledging? && r1.got == r.got
            else rest == t[2..] && r1 == r.(pc := Acknowledging(r.pc.sum, Pack(Mask7(t[0]), Mask7(t[1]))))
  {
    if t != [] {
      var r1 := Take(r, t[0]);
      FeedStep(r, t, r1);
      if |t| > 1 {
        FeedStep(r1, t[1..], Take(r1, t[1]));
        assert t[1..][1..] == t[2..];
      }
    }
  }
}
