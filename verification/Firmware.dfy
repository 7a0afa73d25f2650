/**
  The receive interrupt of the `hci_uart` firmware (`rx_isr`): packets are taken from the UART FIFO in
  whatever pieces it gives, and queued, or dropped when they do not fit a buffer.
 */
module Firmware {
  import opened Bytes
  import opened HciFraming

  const H4_ISO: byte := 5
  const DISCARD_LEN := 33

  datatype Queued = Queued(packetType: byte, bytes: seq<byte>)

  /** The receiver between two bytes. */
  datatype Rx =
    | Idle
    | Hdr(packetType: byte, got: seq<byte>)
    | Body(packetType: byte, packet: seq<byte>, remaining: nat)
    | Discard(remaining: nat)

  /** With the packets queued so far and the free buffers of each type's pool. */
  datatype Machine = Machine(rx: Rx, queue: seq<Queued>, free: map<byte, nat>)

  predicate ValidType(t: byte) {
    t == H4_CMD || t == H4_ACL || t == H4_ISO
  }

  function HdrLen(t: byte): (n: nat)
    requires ValidType(t)
    ensures 0 < n <= 4
  {
    if t == H4_CMD then 3 else 4
  }

  /** The payload length in a header; isochronous lengths have 14 bits. */
  function GetLen(hdr: seq<byte>, t: byte): nat
    requires ValidType(t) && |hdr| >= HdrLen(t)
  {
    if t == H4_CMD then hdr[2]
    else if t == H4_ISO then ReadLe16(hdr, 2) % 0x4000
    else ReadLe16(hdr, 2)
  }

  function FreeOf(m: Machine, t: byte): nat {
    if t in m.free then m.free[t] else 0
  }

  /** `room` is the tail room that each type's buffers have behind the header. */
  type Room = byte -> nat

  function EndHeader(room: Room, m: Machine, t: byte, hdr: seq<byte>): Machine
    requires ValidType(t) && |hdr| >= HdrLen(t)
  {
    if FreeOf(m, t) == 0 then m.(rx := Idle)
    else if GetLen(hdr, t) > room(t) then m.(rx := Discard(GetLen(hdr, t)))
    else if GetLen(hdr, t) == 0 then Finish(m.(free := m.free[t := FreeOf(m, t) - 1]), t, hdr)
    else m.(rx := Body(t, hdr, GetLen(hdr, t)), free := m.free[t := FreeOf(m, t) - 1])
  }

  lemma EndHeaderWhole(room: Room, m: Machine, t: byte, hdr: seq<byte>)
    requires ValidType(t) && |hdr| >= HdrLen(t)
    ensures EndHeader(room, m, t, hdr) == EndHeader(room, Machine(Idle, m.queue, m.free), t, hdr)
  {
  }

  function Finish(m: Machine, t: byte, packet: seq<byte>): Machine {
    m.(rx := Idle, queue := m.queue + [Queued(t, packet)])
  }

  predicate Sound(m: Machine) {
    match m.rx
    case Idle => true
    case Hdr(t, got) => ValidType(t) && |got| < HdrLen(t)
    case Body(_, _, remaining) => remaining > 0
    case Discard(remaining) => remaining > 0
  }

  function Step(room: Room, m: Machine, b: byte): (r: Machine)
    requires Sound(m)
    ensures Sound(r)
  {
    match m.rx
    case Idle => if ValidType(b) then m.(rx := Hdr(b, [])) else m
    case Hdr(t, got) =>
      if |got| + 1 < HdrLen(t) then m.(rx := Hdr(t, got + [b])) else EndHeader(room, m, t, got + [b])
    case Body(t, packet, remaining) =>
      if remaining == 1 then Finish(m, t, packet + [b]) else m.(rx := Body(t, packet + [b], remaining - 1))
    case Discard(remaining) => m.(rx := if remaining == 1 then Idle else Discard(remaining - 1))
  }

  function Feed(room: Room, m: Machine, bytes: seq<byte>): (r: Machine)
    requires Sound(m)
    ensures Sound(r)
    decreases |bytes|
  {
    if bytes == [] then m else Feed(room, Step(room, m, bytes[0]), bytes[1..])
  }

  lemma {:induction false} FeedAppend(room: Room, m: Machine, a: seq<byte>, b: seq<byte>)
    requires Sound(m)
    ensures Feed(room, m, a + b) == Feed(room, Feed(room, m, a), b)
    decreases |a|
  {
    if a == [] {
      assert a + b == b;
    } else {
      assert (a + b)[1..] == a[1..] + b;
      FeedAppend(room, Step(room, m, a[0]), a[1..], b);
    }
  }

  // ---------------------------------------------------------------- several bytes at once

  lemma {:induction false} FeedHeader(room: Room, m: Machine, t: byte, got: seq<byte>, bytes: seq<byte>)
    requires ValidType(t) && m.rx == Hdr(t, got) && |got| < HdrLen(t)
    requires 0 < |bytes| && |got| + |bytes| <= HdrLen(t)
    ensures Feed(room, m, bytes) ==
      if |got| + |bytes| < HdrLen(t) then m.(rx := Hdr(t, got + bytes)) else EndHeader(room, m, t, got + bytes)
    decreases |bytes|
  {
    if |bytes| == 1 {
      assert bytes == [bytes[0]] && bytes[1..] == [];
    } else {
      FeedHeader(room, m.(rx := Hdr(t, got + [bytes[0]])), t, got + [bytes[0]], bytes[1..]);
      assert (got + [bytes[0]]) + bytes[1..] == got + bytes;
    }
  }

  lemma {:induction false} FeedBody(room: Room, m: Machine, t: byte, packet: seq<byte>, remaining: nat,
    bytes: seq<byte>)
    requires m.rx == Body(t, packet, remaining) && 0 < |bytes| <= remaining
    ensures Feed(room, m, bytes) ==
      if |bytes| < remaining then m.(rx := Body(t, packet + bytes, remaining - |bytes|))
        else Finish(m, t, packet + bytes)
    decreases |bytes|
  {
    if |bytes| == 1 {
      assert bytes == [bytes[0]] && bytes[1..] == [];
    } else {
      FeedBody(room, m.(rx := Body(t, packet + [bytes[0]], remaining - 1)), t, packet + [bytes[0]], remaining - 1,
        bytes[1..]);
      assert (packet + [bytes[0]]) + bytes[1..] == packet + bytes;
    }
  }

  lemma {:induction false} FeedDiscard(room: Room, m: Machine, remaining: nat, bytes: seq<byte>)
    requires m.rx == Discard(remaining) && 0 < |bytes| <= remaining
    ensures Feed(room, m, bytes) == m.(rx := if |bytes| < remaining then Discard(remaining - |bytes|) else Idle)
    decreases |bytes|
  {
    if |bytes| == 1 {
      assert bytes == [bytes[0]] && bytes[1..] == [];
    } else {
      FeedDiscard(room, m.(rx := Discard(remaining - 1)), remaining - 1, bytes[1..]);
    }
  }

  // ---------------------------------------------------------------- frames

  /**
    A packet of one of the three types, its payload as long as its header says: a command with one byte of
    length in the third, ACL data with two bytes in the third and fourth, ISO data with 14 bits there.
   */
  predicate Framed(q: Queued) {
    var (t, b) := (q.packetType, q.bytes);
    || (t == 1 && |b| >= 3 && |b| == 3 + b[2] as int)
    || (t == 2 && |b| >= 4 && |b| == 4 + b[2] as int + 0x100 * b[3] as int)
    || (t == 5 && |b| >= 4 && |b| == 4 + (b[2] as int + 0x100 * b[3] as int) % 0x4000)
  }

  /** Its payload fits the buffers of its type. */
  predicate Fits(room: Room, q: Queued) {
    |q.bytes| <= (if q.packetType == 1 then 3 else 4) + room(q.packetType)
  }

  /** As the host writes it: the type, the packet, and a zero. */
  function WireOf(q: Queued): seq<byte> {
    [q.packetType] + q.bytes + [0]
  }

  predicate FramedAll(packets: seq<Queued>) {
    forall i :: 0 <= i < |packets| ==> Framed(packets[i])
  }

  /** What the host's commands and ACL packets are. */
  lemma HostPacketsAreFramed(p: HostPacket)
    requires Sendable(p)
    ensures var q := Queued(if p.Command? then 1 else 2, PacketOf(p)); Framed(q) && WireOf(q) == FrameOf(p)
  {
    if p.Acl? {
      var (n: int, b) := (|p.data|, PacketOf(p));
      assert b[2] == n % 0x100 && b[3] == n / 0x100;
    }
  }

  function Taken(m: Machine, q: Queued): Machine {
    Machine(Idle, m.queue + [q], m.free[q.packetType := Spare(FreeOf(m, q.packetType))])
  }

  function Spare(n: nat): nat {
    if n == 0 then 0 else n - 1
  }

  /** Where a packet's header ends. */
  lemma HeaderEnds(q: Queued) returns (hdr: seq<byte>, body: seq<byte>)
    requires Framed(q)
    ensures q.bytes == hdr + body && ValidType(q.packetType) && |hdr| == HdrLen(q.packetType)
    ensures GetLen(hdr, q.packetType) == |body|
    ensures |hdr| == if q.packetType == 1 then 3 else 4
  {
    var n := HdrLen(q.packetType);
    hdr, body := q.bytes[..n], q.bytes[n..];
  }

  /** What follows a header: the packet is queued when it fits, dropped whole when not. */
  lemma FeedRest(room: Room, m: Machine, q: Queued, hdr: seq<byte>, body: seq<byte>)
    requires m.rx == Idle && ValidType(q.packetType) && |hdr| == HdrLen(q.packetType)
    requires GetLen(hdr, q.packetType) == |body| && q.bytes == hdr + body && FreeOf(m, q.packetType) > 0
    ensures Feed(room, EndHeader(room, m.(rx := Hdr(q.packetType, [])), q.packetType, hdr), body)
         == if |body| <= room(q.packetType) then Taken(m, q) else m
  {
    var t := q.packetType;
    var m2 := EndHeader(room, m.(rx := Hdr(t, [])), t, hdr);
    if body == [] {
      assert hdr + body == hdr;
    } else if |body| <= room(t) {
      FeedBody(room, m2, t, hdr, |body|, body);
    } else {
      FeedDiscard(room, m2, |body|, body);
    }
  }

  lemma FeedFrameHeader(room: Room, m: Machine, t: byte, hdr: seq<byte>, rest: seq<byte>)
    requires m.rx == Idle && ValidType(t) && |hdr| == HdrLen(t)
    ensures Feed(room, m, [t] + hdr + rest) == Feed(room, EndHeader(room, m.(rx := Hdr(t, [])), t, hdr), rest)
  {
    Regroup([t], hdr, rest);
    FeedAppend(room, m, [t], hdr + rest);
    FeedOne(room, m, t);
    var m1 := m.(rx := Hdr(t, []));
    FeedAppend(room, m1, hdr, rest);
    FeedHeader(room, m1, t, [], hdr);
    assert [] + hdr == hdr;
  }

  /** One frame, with a buffer free for it: queued when it fits, dropped whole when not, its zero skipped. */
  lemma FeedFrame(room: Room, m: Machine, q: Queued)
    requires m.rx == Idle && Framed(q) && FreeOf(m, q.packetType) > 0
    ensures Feed(room, m, WireOf(q)) == if Fits(room, q) then Taken(m, q) else m
  {
    var t := q.packetType;
    var hdr, body := HeaderEnds(q);
    assert WireOf(q) == [t] + hdr + (body + [0]);
    FeedFrameHeader(room, m, t, hdr, body + [0]);
    var m2 := EndHeader(room, m.(rx := Hdr(t, [])), t, hdr);
    FeedAppend(room, m2, body, [0]);
    FeedRest(room, m, q, hdr, body);
    FeedOne(room, Feed(room, m2, body), 0);
  }

  lemma FeedOne(room: Room, m: Machine, b: byte)
    requires Sound(m)
    ensures Feed(room, m, [b]) == Step(room, m, b)
  {
    assert [b][1..] == [];
  }

  function WireOfAll(packets: seq<Queued>): seq<byte> {
    if packets == [] then [] else WireOf(packets[0]) + WireOfAll(packets[1..])
  }

  function QueuedIf(room: Room, q: Queued): seq<Queued> {
    if Fits(room, q) then [q] else []
  }

  /** The packets that fit, in order. */
  function Fitting(room: Room, packets: seq<Queued>): seq<Queued> {
    if packets == [] then [] else QueuedIf(room, packets[0]) + Fitting(room, packets[1..])
  }

  predicate Plenty(m: Machine, n: nat) {
    FreeOf(m, H4_CMD) >= n && FreeOf(m, H4_ACL) >= n && FreeOf(m, H4_ISO) >= n
  }

  /** Frames, each with a buffer to spare from the start. */
  lemma {:induction false} FramesWithPlenty(room: Room, m: Machine, packets: seq<Queued>)
    requires m.rx == Idle && Plenty(m, |packets|) && FramedAll(packets)
    ensures Feed(room, m, WireOfAll(packets)).rx == Idle
    ensures Feed(room, m, WireOfAll(packets)).queue == m.queue + Fitting(room, packets)
    decreases |packets|
  {
    if packets == [] {
      assert m.queue + [] == m.queue;
    } else {
      var (frame, later) := (WireOf(packets[0]), WireOfAll(packets[1..]));
      FrameEffect(room, m, packets[0], |packets|);
      FeedAppend(room, m, frame, later);
      FramesWithPlenty(room, Feed(room, m, frame), packets[1..]);
      Regroup(m.queue, QueuedIf(room, packets[0]), Fitting(room, packets[1..]));
    }
  }

  lemma FrameEffect(room: Room, m: Machine, q: Queued, n: nat)
    requires m.rx == Idle && Plenty(m, n) && n > 0 && Framed(q)
    ensures var r := Feed(room, m, WireOf(q));
      r.rx == Idle && Plenty(r, n - 1) && r.queue == m.queue + QueuedIf(room, q)
  {
    FeedFrame(room, m, q);
    assert m.queue + [] == m.queue;
  }

  // ---------------------------------------------------------------- runs in which buffers come and go

  /** A byte from the host, or a buffer given back to its pool. */
  datatype Input = Arrives(b: byte) | Freed(t: byte)

  function StepIn(room: Room, m: Machine, i: Input): (r: Machine)
    requires Sound(m)
    ensures Sound(r)
  {
    match i
    case Arrives(b) => Step(room, m, b)
    case Freed(t) => m.(free := m.free[t := FreeOf(m, t) + 1])
  }

  function FeedIn(room: Room, m: Machine, inputs: seq<Input>): (r: Machine)
    requires Sound(m)
    ensures Sound(r)
    decreases |inputs|
  {
    if inputs == [] then m else FeedIn(room, StepIn(room, m, inputs[0]), inputs[1..])
  }

  function BytesOf(inputs: seq<Input>): (r: seq<byte>)
    ensures |r| <= |inputs|
  {
    if inputs == [] then []
    else (if inputs[0].Arrives? then [inputs[0].b] else []) + BytesOf(inputs[1..])
  }

  /** The next byte ends a header. */
  predicate EndsHeader(m: Machine)
    requires Sound(m)
  {
    m.rx.Hdr? && |m.rx.got| + 1 == HdrLen(m.rx.packetType)
  }

  /** The next byte ends a header, and no buffer is free for it. */
  predicate Refused(m: Machine)
    requires Sound(m)
  {
    EndsHeader(m) && FreeOf(m, m.rx.packetType) == 0
  }

  /** Whenever a header ends, a buffer is free. */
  predicate Supplied(room: Room, m: Machine, inputs: seq<Input>)
    requires Sound(m)
    decreases |inputs|
  {
    inputs == [] || ((inputs[0].Arrives? ==> !Refused(m)) && Supplied(room, StepIn(room, m, inputs[0]), inputs[1..]))
  }

  /** Where buffers are free when they are needed, how many there are does not matter. */
  lemma {:induction false} SuppliedIsPlenty(room: Room, m: Machine, rich: Machine, inputs: seq<Input>)
    requires Sound(m) && m.rx == rich.rx && m.queue == rich.queue
    requires Supplied(room, m, inputs) && Plenty(rich, |inputs|)
    ensures FeedIn(room, m, inputs).rx == Feed(room, rich, BytesOf(inputs)).rx
    ensures FeedIn(room, m, inputs).queue == Feed(room, rich, BytesOf(inputs)).queue
    decreases |inputs|
  {
    if inputs != [] {
      var rest := BytesOf(inputs[1..]);
      if inputs[0].Arrives? {
        var b := inputs[0].b;
        assert BytesOf(inputs) == [b] + rest && ([b] + rest)[1..] == rest;
        SameStep(room, m, rich, b, |inputs|);
        SuppliedIsPlenty(room, Step(room, m, b), Step(room, rich, b), inputs[1..]);
      } else {
        assert [] + rest == rest;
        SuppliedIsPlenty(room, StepIn(room, m, inputs[0]), rich, inputs[1..]);
      }
    }
  }

  lemma SameStep(room: Room, m: Machine, rich: Machine, b: byte, n: nat)
    requires Sound(m) && m.rx == rich.rx && m.queue == rich.queue && !Refused(m) && Plenty(rich, n) && n > 0
    ensures Step(room, m, b).rx == Step(room, rich, b).rx && Step(room, m, b).queue == Step(room, rich, b).queue
    ensures Plenty(Step(room, rich, b), n - 1)
  {
  }

  /**
    From an idle receiver, frames whose headers each find a buffer free leave the queue extended by
    exactly the packets that fit, byte for byte and in order, and the receiver idle again, whatever
    buffers are given back meanwhile.
   */
  lemma FramingIsExact(room: Room, m: Machine, inputs: seq<Input>, packets: seq<Queued>)
    requires m.rx == Idle && Supplied(room, m, inputs)
    requires FramedAll(packets) && BytesOf(inputs) == WireOfAll(packets)
    ensures FeedIn(room, m, inputs).rx == Idle
    ensures FeedIn(room, m, inputs).queue == m.queue + Fitting(room, packets)
  {
    FramesLength(packets);
    var n := |inputs|;
    var rich := m.(free := map[H4_CMD := n, H4_ACL := n, H4_ISO := n]);
    SuppliedIsPlenty(room, m, rich, inputs);
    FramesWithPlenty(room, rich, packets);
  }

  lemma {:induction false} FramesLength(packets: seq<Queued>)
    ensures |packets| <= |WireOfAll(packets)|
  {
    if packets != [] {
      FramesLength(packets[1..]);
    }
  }

  /** Bytes that are none of the three types change nothing between packets. */
  lemma {:induction false} NoiseIsIgnored(room: Room, m: Machine, noise: seq<byte>)
    requires m.rx == Idle && forall i :: 0 <= i < |noise| ==> noise[i] != 1 && noise[i] != 2 && noise[i] != 5
    ensures Feed(room, m, noise) == m
    decreases |noise|
  {
    if noise != [] {
      NoiseIsIgnored(room, m, noise[1..]);
    }
  }

  // ---------------------------------------------------------------- no buffer is lost

  function CountOf(queue: seq<Queued>, t: byte): nat {
    if queue == [] then 0
    else CountOf(queue[..|queue| - 1], t) + if queue[|queue| - 1].packetType == t then 1 else 0
  }

  lemma CountPush(queue: seq<Queued>, q: Queued, t: byte)
    ensures CountOf(queue + [q], t) == CountOf(queue, t) + if q.packetType == t then 1 else 0
  {
    assert (queue + [q])[..|queue|] == queue;
  }

  /** The buffers of a type, free, queued, or being filled. */
  function Buffers(m: Machine, t: byte): nat {
    (if t in m.free then m.free[t] else 0) + CountOf(m.queue, t) +
      if m.rx.Body? && m.rx.packetType == t then 1 else 0
  }

  function GivenBack(inputs: seq<Input>, t: byte): nat {
    if inputs == [] then 0 else (if inputs[0] == Freed(t) then 1 else 0) + GivenBack(inputs[1..], t)
  }

  lemma StepConserves(room: Room, m: Machine, i: Input, t: byte)
    requires Sound(m)
    ensures Buffers(StepIn(room, m, i), t) == Buffers(m, t) + if i == Freed(t) then 1 else 0
  {
    match i
    case Freed(_) =>
    case Arrives(b) =>
      match m.rx
      case Hdr(t', got) => CountPush(m.queue, Queued(t', got + [b]), t);
      case Body(t', packet, _) => CountPush(m.queue, Queued(t', packet + [b]), t);
      case _ =>
  }

  /** Over any run every buffer of a type is free, queued or being filled: none is lost and none taken twice. */
  lemma {:induction false} BuffersAreConserved(room: Room, m: Machine, inputs: seq<Input>, t: byte)
    requires Sound(m)
    ensures Buffers(FeedIn(room, m, inputs), t) == Buffers(m, t) + GivenBack(inputs, t)
    decreases |inputs|
  {
    if inputs != [] {
      StepConserves(room, m, inputs[0], t);
      BuffersAreConserved(room, StepIn(room, m, inputs[0]), inputs[1..], t);
    }
  }

  // ---------------------------------------------------------------- what a refused buffer loses

  function QueuedBytes(queue: seq<Queued>): nat {
    if queue == [] then 0 else QueuedBytes(queue[..|queue| - 1]) + 1 + |queue[|queue| - 1].bytes|
  }

  lemma QueuedBytesPush(queue: seq<Queued>, q: Queued)
    ensures QueuedBytes(queue + [q]) == QueuedBytes(queue) + 1 + |q.bytes|
  {
    assert (queue + [q])[..|queue|] == queue;
  }

  /** The bytes of the packets queued and of the one being received. */
  function Held(m: Machine): nat {
    QueuedBytes(m.queue) +
    match m.rx
    case Idle => 0
    case Hdr(_, got) => 1 + |got|
    case Body(_, packet, _) => 1 + |packet|
    case Discard(_) => 0
  }

  /** A byte adds at most itself; one that ends a header without a buffer loses the header and itself. */
  lemma StepHeld(room: Room, m: Machine, b: byte)
    requires Sound(m)
    ensures Held(Step(room, m, b)) + (if Refused(m) then 4 else 0) <= Held(m) + 1
  {
    match m.rx
    case Hdr(t, got) => QueuedBytesPush(m.queue, Queued(t, got + [b]));
    case Body(t, packet, _) => QueuedBytesPush(m.queue, Queued(t, packet + [b]));
    case _ =>
  }

  lemma {:induction false} FeedHeld(room: Room, m: Machine, inputs: seq<Input>)
    requires Sound(m)
    ensures Held(FeedIn(room, m, inputs)) + (if Supplied(room, m, inputs) then 0 else 4) <= Held(m) + |BytesOf(inputs)|
    decreases |inputs|
  {
    if inputs != [] {
      if inputs[0].Arrives? {
        StepHeld(room, m, inputs[0].b);
      }
      FeedHeld(room, StepIn(room, m, inputs[0]), inputs[1..]);
    }
  }

  lemma {:induction false} FeedHeldBytes(room: Room, m: Machine, bytes: seq<byte>)
    requires Sound(m)
    ensures Held(Feed(room, m, bytes)) <= Held(m) + |bytes|
    decreases |bytes|
  {
    if bytes != [] {
      StepHeld(room, m, bytes[0]);
      FeedHeldBytes(room, Step(room, m, bytes[0]), bytes[1..]);
    }
  }

  /** A frame whose packet fits adds it to the queue of an idle receiver if and only if its pool has a free buffer. */
  lemma FrameNeedsBuffer(room: Room, m: Machine, q: Queued)
    requires m.rx == Idle && Framed(q) && Fits(room, q)
    ensures Feed(room, m, WireOf(q)).queue == m.queue + [q] <==> q.packetType in m.free && m.free[q.packetType] > 0
  {
    if FreeOf(m, q.packetType) > 0 {
      FeedFrame(room, m, q);
    } else {
      FrameRefused(room, m, q);
      QueuedBytesPush(m.queue, q);
    }
  }

  lemma FrameRefused(room: Room, m: Machine, q: Queued)
    requires m.rx == Idle && Framed(q) && FreeOf(m, q.packetType) == 0
    ensures Held(Feed(room, m, WireOf(q))) + 1 < Held(m) + |WireOf(q)|
  {
    var t := q.packetType;
    var hdr, body := HeaderEnds(q);
    assert WireOf(q) == [t] + hdr + (body + [0]);
    FeedFrameHeader(room, m, t, hdr, body + [0]);
    assert EndHeader(room, m.(rx := Hdr(t, [])), t, hdr) == m;
    FeedHeldBytes(room, m, body + [0]);
  }

  /** The inputs of one frame add its packet to the queue if and only if a buffer is free when its header ends. */
  lemma FrameIsTaken(room: Room, m: Machine, inputs: seq<Input>, q: Queued)
    requires m.rx == Idle && Framed(q) && Fits(room, q) && BytesOf(inputs) == WireOf(q)
    ensures FeedIn(room, m, inputs).queue == m.queue + [q] <==> Supplied(room, m, inputs)
    ensures Supplied(room, m, inputs) ==> FeedIn(room, m, inputs).rx == Idle
  {
    if Supplied(room, m, inputs) {
      assert WireOfAll([q]) == WireOf(q) + WireOfAll([]) == WireOf(q);
      assert Fitting(room, [q]) == [q] + Fitting(room, []) == [q];
      FramingIsExact(room, m, inputs, [q]);
    } else {
      FeedHeld(room, m, inputs);
      QueuedBytesPush(m.queue, q);
    }
  }

  /** Each frame in its turn adds its packet to the queue. */
  predicate InStep(room: Room, m: Machine, frames: seq<seq<Input>>, packets: seq<Queued>)
    requires Sound(m) && |frames| == |packets|
    decreases |frames|
  {
    frames == [] ||
    var next := FeedIn(room, m, frames[0]);
    next.queue == m.queue + [packets[0]] && InStep(room, next, frames[1..], packets[1..])
  }

  lemma {:induction false} SuppliedAppend(room: Room, m: Machine, a: seq<Input>, b: seq<Input>)
    requires Sound(m)
    ensures Supplied(room, m, a + b) <==> Supplied(room, m, a) && Supplied(room, FeedIn(room, m, a), b)
    decreases |a|
  {
    if a == [] {
      assert a + b == b;
    } else {
      assert (a + b)[1..] == a[1..] + b;
      SuppliedAppend(room, StepIn(room, m, a[0]), a[1..], b);
    }
  }

  /**
    Over any number of frames of packets that fit: each adds its packet to the queue in its turn if and
    only if a buffer is free whenever a header ends.
   */
  lemma {:induction false} FramesAreTaken(room: Room, m: Machine, frames: seq<seq<Input>>, packets: seq<Queued>)
    requires m.rx == Idle && |frames| == |packets|
    requires forall i :: 0 <= i < |packets| ==>
      Framed(packets[i]) && Fits(room, packets[i]) && BytesOf(frames[i]) == WireOf(packets[i])
    ensures InStep(room, m, frames, packets) <==> Supplied(room, m, Flatten(frames))
    decreases |frames|
  {
    if frames != [] {
      FrameIsTaken(room, m, frames[0], packets[0]);
      SuppliedAppend(room, m, frames[0], Flatten(frames[1..]));
      if Supplied(room, m, frames[0]) {
        FramesAreTaken(room, FeedIn(room, m, frames[0]), frames[1..], packets[1..]);
      }
    }
  }

  /** A failed allocation forgets the packet but not its payload, which is then read as packets of its own. */
  lemma FailedAllocationMisreads()
    ensures var q := Queued(2, [0, 0, 4, 0] + ([1] + [0x03, 0x0c, 0x00]));
      Framed(q) && Feed(_ => 100, Machine(Idle, [], map[1 := 1, 2 := 0]), WireOf(q)).queue
        == [Queued(1, [0x03, 0x0c, 0x00])]
  {
    var hdr: seq<byte>, inner: seq<byte> := [0, 0, 4, 0], [0x03, 0x0c, 0x00];
    var m := Machine(Idle, [], map[1 := 1, 2 := 0]);
    var room: Room := _ => 100;
    assert WireOf(Queued(2, hdr + ([1] + inner))) == [2] + hdr + ([1] + inner + [0]);
    FeedFrameHeader(room, m, 2, hdr, [1] + inner + [0]);
    FeedFrame(room, m, Queued(1, inner));
  }

  // ---------------------------------------------------------------- the interrupt routine

  datatype State = ST_IDLE | ST_HDR | ST_PAYLOAD | ST_DISCARD

  class Receiver {
    const room: Room
    const hdr_buf: array<byte>

    // the UART FIFO
    var fifo: seq<byte>

    // the routine's static variables
    var state: State
    var remaining: nat
    var packetType: byte
    var buf: seq<byte>

    var tx_queue: seq<Queued>
    var free: map<byte, nat>

    constructor (room: Room, free: map<byte, nat>)
      ensures Valid() && Now() == Machine(Idle, [], free) && fifo == [] && this.room == room
      ensures fresh(hdr_buf)
    {
      this.room := room;
      this.free := free;
      hdr_buf := new byte[4];
      fifo, buf, tx_queue := [], [], [];
      state, remaining, packetType := ST_IDLE, 0, 0;
    }

    /** What holds around every pass of the loop. */
    predicate Loop()
      reads this
    {
      && hdr_buf.Length == 4
      && match state
         case ST_IDLE => true
         case ST_HDR => ValidType(packetType) && 0 < remaining <= HdrLen(packetType)
         case ST_PAYLOAD => true
         case ST_DISCARD => remaining > 0
    }

    /** Between interrupts no payload of length 0 is left unfinished. */
    predicate Valid()
      reads this
    {
      Loop() && (state == ST_PAYLOAD ==> remaining > 0)
    }

    function Now(): (m: Machine)
      requires Loop()
      reads this, hdr_buf
      ensures Sound(m)
    {
      match state
      case ST_IDLE => Machine(Idle, tx_queue, free)
      case ST_HDR => Machine(Hdr(packetType, hdr_buf[..HdrLen(packetType) - remaining]), tx_queue, free)
      case ST_PAYLOAD =>
        if remaining == 0 then Machine(Idle, tx_queue + [Queued(packetType, buf)], free)
        else Machine(Body(packetType, buf, remaining), tx_queue, free)
      case ST_DISCARD => Machine(Discard(remaining), tx_queue, free)
    }

    /** `uart_fifo_read`: up to `len` bytes, possibly fewer than are there, but none only when there are none. */
    method Read(len: nat) returns (bytes: seq<byte>)
      modifies this`fifo
      ensures |bytes| <= len && old(fifo) == bytes + fifo
      ensures bytes == [] ==> len == 0 || fifo == []
    {
      var most := if len < |fifo| then len else |fifo|;
      var n: nat :| n <= most && (n == 0 ==> most == 0) by {
        assert most <= most && (most == 0 ==> most == 0);
      }
      bytes := fifo[..n];
      fifo := fifo[n..];
    }

    /** Bytes arriving from the host. */
    method Arrive(bytes: seq<byte>)
      modifies this`fifo
      ensures fifo == old(fifo) + bytes
    {
      fifo := fifo + bytes;
    }

    /** Another part of the firmware gives a buffer back. */
    method Release(t: byte)
      requires Loop()
      modifies this`free
      ensures Loop() && Now() == StepIn(room, old(Now()), Freed(t)) && (old(Valid()) ==> Valid())
    {
      free := free[t := (if t in free then free[t] else 0) + 1];
    }

    method ReadType() returns (read: seq<byte>)
      requires Loop() && state == ST_IDLE
      modifies this
      ensures Valid() && (read == [] ==> fifo == [])
      ensures old(fifo) == read + fifo && Now() == Feed(room, old(Now()), read)
    {
      read := Read(1);
      if |read| > 0 {
        packetType := read[0];
        assert read == [read[0]];
        FeedOne(room, old(Now()), read[0]);
        if ValidType(packetType) {
          remaining := HdrLen(packetType);
          state := ST_HDR;
          assert hdr_buf[..0] == [];
        }
      }
    }

    method StoreHeader(at: nat, read: seq<byte>)
      requires at + |read| <= hdr_buf.Length
      modifies hdr_buf
      ensures hdr_buf[..at + |read|] == old(hdr_buf[..at]) + read
    {
      for i := 0 to |read|
        invariant hdr_buf[..at] == old(hdr_buf[..at])
        invariant hdr_buf[at..at + i] == read[..i]
      {
        hdr_buf[at + i] := read[i];
      }
      assert hdr_buf[..at + |read|] == hdr_buf[..at] + hdr_buf[at..at + |read|];
      assert read[..|read|] == read;
    }

    /** Reads header bytes to their place in `hdr_buf`, and at the end of the header asks for a buffer. */
    method ReadHeader() returns (read: seq<byte>, failed: bool)
      requires Loop() && state == ST_HDR
      modifies this, hdr_buf
      ensures Loop() && (read == [] || failed ==> Valid()) && (read == [] ==> fifo == [])
      ensures failed || !Valid() ==> Stopped(room, old(Now()), read)
      ensures old(fifo) == read + fifo && Now() == Feed(room, old(Now()), read)
    {
      ghost var (start, t) := (Now(), packetType);
      failed := false;
      read := Read(remaining);
      var at := HdrLen(packetType) - remaining;
      ghost var got := hdr_buf[..at];
      StoreHeader(at, read);
      remaining := remaining - |read|;
      if read == [] {
        return;
      }
      FeedHeader(room, start, t, got, read);
      if remaining == 0 {
        StoppedAtHeader(room, start, t, got, read);
        EndHeaderWhole(room, start, t, got + read);
        assert hdr_buf[..HdrLen(t)] == got + read;
        failed := GetBuffer();
      }
    }

    /** The end of a header: without a free buffer the packet is forgotten, with too small a one it is discarded. */
    method GetBuffer() returns (failed: bool)
      requires hdr_buf.Length == 4 && ValidType(packetType)
      modifies this
      ensures Loop() && (failed ==> Valid()) && fifo == old(fifo)
      ensures failed <==> old(packetType) !in old(free) || old(free)[old(packetType)] == 0
      ensures !Valid() ==> GetLen(hdr_buf[..HdrLen(old(packetType))], old(packetType)) == 0
      ensures Now() == EndHeader(room, Machine(Idle, old(tx_queue), old(free)),
                                 old(packetType), hdr_buf[..HdrLen(old(packetType))])
    {
      failed := packetType !in free || free[packetType] == 0;
      if failed {
        state := ST_IDLE;
        return;
      }
      var hdr := hdr_buf[..HdrLen(packetType)];
      remaining := GetLen(hdr, packetType);
      if remaining > room(packetType) {
        state := ST_DISCARD;
      } else {
        free := free[packetType := free[packetType] - 1];
        buf := hdr;
        state := ST_PAYLOAD;
      }
    }

    method ReadPayload() returns (read: seq<byte>)
      requires Loop() && state == ST_PAYLOAD
      modifies this
      ensures Valid() && (read == [] ==> fifo == [] || old(!Valid()))
      ensures old(fifo) == read + fifo && Now() == Feed(room, old(Now()), read)
    {
      read := Read(remaining);
      if |read| > 0 {
        FeedBody(room, old(Now()), packetType, buf, remaining, read);
      } else {
        assert buf + read == buf;
      }
      buf := buf + read;
      remaining := remaining - |read|;
      if remaining == 0 {
        tx_queue := tx_queue + [Queued(packetType, buf)];
        state := ST_IDLE;
      }
    }

    method ReadDiscard() returns (read: seq<byte>)
      requires Loop() && state == ST_DISCARD
      modifies this
      ensures Valid() && (read == [] ==> fifo == [])
      ensures old(fifo) == read + fifo && Now() == Feed(room, old(Now()), read)
    {
      var toRead := if remaining < DISCARD_LEN then remaining else DISCARD_LEN;
      read := Read(toRead);
      if |read| > 0 {
        FeedDiscard(room, old(Now()), remaining, read);
      }
      remaining := remaining - |read|;
      if remaining == 0 {
        state := ST_IDLE;
      }
    }

    /** One pass of the loop. */
    method Pass() returns (read: seq<byte>, failed: bool)
      requires Loop()
      modifies this, hdr_buf
      ensures Loop() && (read == [] || failed ==> Valid())
      ensures old(fifo) == read + fifo && Now() == Feed(room, old(Now()), read)
      ensures read == [] ==> fifo == [] || old(!Valid())
      ensures failed || !Valid() ==> Stopped(room, old(Now()), read)
    {
      failed := false;
      match state {
        case ST_IDLE => read := ReadType();
        case ST_HDR => read, failed := ReadHeader();
        case ST_PAYLOAD => read := ReadPayload();
        case ST_DISCARD => read := ReadDiscard();
      }
    }

    /**
      One interrupt: bytes of the FIFO are consumed, and the receiver is where feeding it those bytes one
      by one would have taken it. It goes on until the FIFO is empty, unless a header has just ended that
      found no buffer or that announced no payload. The header buffer is never indexed outside its bounds.
     */
    method RxIsr() returns (ghost consumed: seq<byte>)
      requires Valid()
      modifies this, hdr_buf
      ensures Valid()
      ensures old(fifo) == consumed + fifo
      ensures Now() == Feed(room, old(Now()), consumed)
      ensures fifo == [] || Stopped(room, old(Now()), consumed)
    {
      consumed := [];
      ghost var start := Now();
      assert Feed(room, start, consumed) == start;
      hide Feed, Stopped;
      var more := true;
      while more
        invariant Loop()
        invariant old(fifo) == consumed + fifo
        invariant Now() == Feed(room, start, consumed)
        invariant !Valid() ==> more && Stopped(room, start, consumed)
        invariant !more ==> fifo == [] || Stopped(room, start, consumed)
        decreases |fifo|, more
      {
        ghost var eaten := consumed;
        var read, failed := Pass();
        FeedAppend(room, start, eaten, read);
        StoppedLater(room, start, eaten, read);
        consumed := eaten + read;
        more := |read| > 0 && !failed;
      }
    }
  }

  /** The last byte ends a header for which there is no buffer, or that announces no payload. */
  predicate Stopped(room: Room, m: Machine, bytes: seq<byte>)
    requires Sound(m)
  {
    bytes != [] &&
    var before := Feed(room, m, bytes[..|bytes| - 1]);
    EndsHeader(before) && (Refused(before) || GetLen(before.rx.got + [bytes[|bytes| - 1]], before.rx.packetType) == 0)
  }

  lemma StoppedAtHeader(room: Room, m: Machine, t: byte, got: seq<byte>, read: seq<byte>)
    requires ValidType(t) && m.rx == Hdr(t, got) && read != [] && |got| + |read| == HdrLen(t)
    ensures Stopped(room, m, read) <==> FreeOf(m, t) == 0 || GetLen(got + read, t) == 0
  {
    var n := |read| - 1;
    assert read == read[..n] + [read[n]];
    Regroup(got, read[..n], [read[n]]);
    if n == 0 {
      assert read[..n] == [] && got + [] == got;
    } else {
      FeedHeader(room, m, t, got, read[..n]);
    }
  }

  lemma StoppedLater(room: Room, m: Machine, eaten: seq<byte>, read: seq<byte>)
    requires Sound(m)
    ensures Stopped(room, Feed(room, m, eaten), read) ==> Stopped(room, m, eaten + read)
    ensures read == [] ==> eaten + read == eaten
  {
    if read != [] {
      var n := |read| - 1;
      assert (eaten + read)[..|eaten| + n] == eaten + read[..n];
      FeedAppend(room, m, eaten, read[..n]);
    }
  }
}
