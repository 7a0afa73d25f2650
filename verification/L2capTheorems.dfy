/**
  What an `L2CAP` object hands to the controller and raises as events, for all that has happened to it.
 */
module L2capTheorems {
  import opened Bytes
  import opened AclAccounts
  import opened AclEndToEnd
  import opened AclFlow
  import opened AclFlowTheorems
  import opened AclFragmentation
  import opened AclReassembly
  import opened L2cap

  /** The data of one handle's packets, in the order they were handed over. */
  function DataFor(packets: seq<HciPacket>, h: Handle): seq<byte> {
    if packets == [] then []
    else (if packets[0].handle == h then packets[0].data else []) + DataFor(packets[1..], h)
  }

  /** The same packets as the peer's controller reports them: a PDU's opening fragment with boundary 2. */
  function HeardFor(packets: seq<HciPacket>, h: Handle): seq<(Boundary, seq<byte>)> {
    if packets == [] then []
    else
      (if packets[0].handle == h
       then [(if packets[0].boundary == FirstNoFlushFrag then FirstFrag else packets[0].boundary, packets[0].data)]
       else []) + HeardFor(packets[1..], h)
  }

  /** Messages as basic L2CAP frames, one after the other: payload length, channel, payload. */
  function Frames(messages: seq<Message>): seq<byte> {
    if messages == [] then []
    else
      var (m, n) := (messages[|messages| - 1], |messages[|messages| - 1].payload|);
      Frames(messages[..|messages| - 1])
        + ([n % 0x100, n / 0x100 % 0x100, m.channel % 0x100, m.channel / 0x100] + m.payload)
  }

  function Joined(entries: seq<Entry>): seq<byte> {
    if entries == [] then [] else entries[0].fragment + Joined(entries[1..])
  }

  lemma {:induction false} HandedData(wire: seq<Entry>, h: Handle)
    ensures DataFor(Handed(wire), h) == Joined(For(wire, h))
    ensures HeardFor(Handed(wire), h) == AsSent(For(wire, h))
  {
    if wire != [] {
      assert Handed(wire)[1..] == Handed(wire[1..]);
      HandedData(wire[1..], h);
      JoinedAppend(if wire[0].handle == h then [wire[0]] else [], For(wire[1..], h));
      assert Joined([wire[0]]) == wire[0].fragment + [];
      AsQueuedAppend(if wire[0].handle == h then [wire[0]] else [], For(wire[1..], h));
    }
  }

  lemma {:induction false} JoinedAppend(a: seq<Entry>, b: seq<Entry>)
    ensures Joined(a + b) == Joined(a) + Joined(b)
  {
    if a == [] {
      assert a + b == b;
    } else {
      assert (a + b)[1..] == a[1..] + b;
      JoinedAppend(a[1..], b);
    }
  }

  lemma {:induction false} JoinedEntries(h: Handle, pieces: seq<seq<byte>>, k: nat)
    requires k <= |pieces|
    ensures Joined(Entries(h, pieces)[k..]) == Flatten(pieces[k..])
    decreases |pieces| - k
  {
    if k < |pieces| {
      JoinedEntries(h, pieces, k + 1);
      assert Entries(h, pieces)[k..][1..] == Entries(h, pieces)[k + 1..];
      assert pieces[k..][1..] == pieces[k + 1..];
    }
  }

  lemma FragmentsJoined(h: Handle, m: Message, max: nat)
    requires |m.payload| < 0x1_0000 && max >= HEADER
    ensures Joined(Fragments(h, m, max)) == Pdu(m)
  {
    var pieces := Chunks(Pdu(m), max);
    JoinedEntries(h, pieces, 0);
    ChunksRebuild(Pdu(m), max);
    assert Entries(h, pieces)[0..] == Entries(h, pieces) && pieces[0..] == pieces;
  }

  lemma {:induction false} JoinedIsFrames(h: Handle, messages: seq<Message>, max: nat)
    requires Writable(messages, max)
    ensures Joined(AllFragments(h, messages, max)) == Frames(messages)
    decreases |messages|
  {
    if messages != [] {
      var (front, m) := (messages[..|messages| - 1], messages[|messages| - 1]);
      assert m in messages && forall x :: x in front ==> x in messages;
      JoinedIsFrames(h, front, max);
      FragmentsJoined(h, m, max);
      PduBytes(m);
      assert |m.payload| / 0x100 % 0x100 == |m.payload| / 0x100;
      hide Joined, Fragments, Pdu;
      JoinedAppend(AllFragments(h, front, max), Fragments(h, m, max));
    }
  }

  /** Every packet is flagged as an opening one, and sent to one peer. */
  lemma HandedFlags(o: L2CAP)
    requires o.Valid()
    ensures forall p :: p in o.handed ==> p.boundary == FirstNoFlushFrag && p.broadcast == PointToPoint
  {
  }

  /** The packets handed over since the last connection event for a handle. */
  ghost function Since(o: L2CAP, actions: seq<Action>, h: Handle): seq<HciPacket>
    reads o
    requires o.Valid() && o.system == Run(Start(o.aclSize.length, o.aclSize.count), actions)
  {
    var k := |Run(Start(o.aclSize.length, o.aclSize.count), actions[..Connection(actions, h)]).wire|;
    if k <= |o.handed| then o.handed[k..] else []
  }

  lemma SinceIs(o: L2CAP, actions: seq<Action>, h: Handle)
    requires o.Valid() && o.system == Run(Start(o.aclSize.length, o.aclSize.count), actions) && h in o.aclConnections
    ensures var s := Start(o.aclSize.length, o.aclSize.count);
      && h in o.system.tracks
      && |Run(s, actions[..Connection(actions, h)]).wire| <= |o.handed|
      && DataFor(Since(o, actions, h), h) == Joined(o.system.tracks[h].sent)
      && HeardFor(Since(o, actions, h), h) == AsSent(o.system.tracks[h].sent)
      && o.system.tracks[h].messages == Asked(actions[Connection(actions, h)..], h, o.aclSize.length)
  {
    var s := Start(o.aclSize.length, o.aclSize.count);
    var n := Connection(actions, h);
    RecordsAreExact(o.aclSize.length, o.aclSize.count, actions, h);
    RunHands(s, actions, n);
    var k := HandedAt(s, actions, n);
    assert Since(o, actions, h) == Handed(o.system.wire[k..]);
    HandedData(o.system.wire[k..], h);
  }

  lemma {:induction false} NoneQueued(queue: seq<Entry>, h: Handle)
    requires forall e :: e in queue ==> e.handle != h
    ensures For(queue, h) == []
  {
    ForAbsent(queue, h);
  }

  /**
    The bytes handed to the controller for a live connection since its connection event are a prefix of the
    frames of the messages written on it since, and all of them once nothing of it is queued.
   */
  lemma HandedIsWritten(o: L2CAP, actions: seq<Action>, h: Handle)
    requires o.Valid() && o.system == Run(Start(o.aclSize.length, o.aclSize.count), actions)
    requires Along(Unqueued, Start(o.aclSize.length, o.aclSize.count), actions) && h in o.aclConnections
    ensures var frames := Frames(Asked(actions[Connection(actions, h)..], h, o.aclSize.length));
      && DataFor(Since(o, actions, h), h) <= frames
      && ((forall e :: e in o.aclQueue ==> e.handle != h) ==> DataFor(Since(o, actions, h), h) == frames)
  {
    SinceIs(o, actions, h);
    var t := o.system.tracks[h];
    SentIsWhatWasWritten(o.aclSize.length, o.aclSize.count, actions, h);
    JoinedIsFrames(h, t.messages, o.aclSize.length);
    JoinedAppend(t.sent, For(o.aclQueue, h));
    if forall e :: e in o.aclQueue ==> e.handle != h {
      NoneQueued(o.aclQueue, h);
    }
  }

  /**
    Once nothing of it is queued, the peer that joins those packets as they are flagged gets the messages if
    and only if each fits in one packet.
   */
  lemma PeerHears(o: L2CAP, actions: seq<Action>, h: Handle, partial: Option<Partial>)
    requires o.Valid() && o.system == Run(Start(o.aclSize.length, o.aclSize.count), actions)
    requires Along(Unqueued, Start(o.aclSize.length, o.aclSize.count), actions) && h in o.aclConnections
    requires forall e :: e in o.aclQueue ==> e.handle != h
    ensures var messages := Asked(actions[Connection(actions, h)..], h, o.aclSize.length);
      Join(partial, HeardFor(Since(o, actions, h), h)) == messages <==>
        forall m :: m in messages ==> 4 + |m.payload| <= o.aclSize.length
  {
    SinceIs(o, actions, h);
    var t := o.system.tracks[h];
    SentIsWhatWasWritten(o.aclSize.length, o.aclSize.count, actions, h);
    NoneQueued(o.aclQueue, h);
    assert t.sent + [] == t.sent;
    PeerReceivesAsSent(h, t.messages, o.aclSize.length, partial);
  }

  // ---------------------------------------------------------------- events

  /** The events raised while packets come in, one `OnAclData` after the other. */
  function Raised(fragments: map<Handle, Partial>, packets: seq<Packet>): seq<Event>
    decreases |packets|
  {
    if packets == [] then [] else
      var (next, out) := AclReassembly.OnAclData(fragments, packets[0]);
      Emits(packets[0].handle, out) + Raised(next, packets[1..])
  }

  /** The payloads of the attribute events of a handle, or of its security manager events. */
  function Payloads(events: seq<Event>, h: Handle, att: bool): seq<seq<byte>> {
    if events == [] then []
    else
      var e := events[0];
      (if att && e.AttData? && e.h == h then [e.payload]
       else if !att && e.SmpData? && e.h == h then [e.payload]
       else []) + Payloads(events[1..], h, att)
  }

  function OnChannel(messages: seq<Message>, channel: nat): seq<seq<byte>> {
    if messages == [] then []
    else (if messages[0].channel == channel then [messages[0].payload] else []) + OnChannel(messages[1..], channel)
  }

  lemma {:induction false} PayloadsAppend(a: seq<Event>, b: seq<Event>, h: Handle, att: bool)
    ensures Payloads(a + b, h, att) == Payloads(a, h, att) + Payloads(b, h, att)
  {
    if a == [] {
      assert a + b == b;
    } else {
      assert (a + b)[1..] == a[1..] + b;
      PayloadsAppend(a[1..], b, h, att);
    }
  }

  lemma {:induction false} OnChannelAppend(a: seq<Message>, b: seq<Message>, channel: nat)
    ensures OnChannel(a + b, channel) == OnChannel(a, channel) + OnChannel(b, channel)
  {
    if a == [] {
      assert a + b == b;
    } else {
      assert (a + b)[1..] == a[1..] + b;
      OnChannelAppend(a[1..], b, channel);
    }
  }

  lemma RaisedOnce(h: Handle, own: Handle, out: Outcome)
    ensures var messages := if own == h then Outputs(out) else [];
      && Payloads(Emits(own, out), h, true) == OnChannel(messages, 4)
      && Payloads(Emits(own, out), h, false) == OnChannel(messages, 6)
  {
  }

  lemma {:induction false} RaisedIsDelivered(h: Handle, fragments: map<Handle, Partial>, packets: seq<Packet>)
    ensures Payloads(Raised(fragments, packets), h, true) == OnChannel(DeliveredTo(h, fragments, packets), 4)
    ensures Payloads(Raised(fragments, packets), h, false) == OnChannel(DeliveredTo(h, fragments, packets), 6)
    decreases |packets|
  {
    if packets != [] {
      var (next, out) := AclReassembly.OnAclData(fragments, packets[0]);
      var (raised, more) := (Emits(packets[0].handle, out), Raised(next, packets[1..]));
      var own := if packets[0].handle == h then Outputs(out) else [];
      RaisedOnce(h, packets[0].handle, out);
      hide AclReassembly.OnAclData, Emits, Outputs;
      RaisedIsDelivered(h, next, packets[1..]);
      PayloadsAppend(raised, more, h, true);
      PayloadsAppend(raised, more, h, false);
      OnChannelAppend(own, DeliveredTo(h, next, packets[1..]), 4);
      OnChannelAppend(own, DeliveredTo(h, next, packets[1..]), 6);
    }
  }

  /**
    However a connection's PDUs are cut behind their headers and whatever comes in between, the attribute
    events raised for it have the payloads sent on channel 4, once each and in order, and the security
    manager events those sent on channel 6.
   */
  lemma EventsAreMessages(
      h: Handle, fragments: map<Handle, Partial>, packets: seq<Packet>,
      cuts: seq<seq<seq<byte>>>, messages: seq<Message>)
    requires Cuts(cuts, messages) && AllHeaded(cuts) && (Open(Lookup(fragments, h)) || AllEnded(cuts))
    requires Of(packets, h) == Stream(cuts)
    ensures Payloads(Raised(fragments, packets), h, true) == OnChannel(messages, 4)
    ensures Payloads(Raised(fragments, packets), h, false) == OnChannel(messages, 6)
  {
    RaisedIsDelivered(h, fragments, packets);
    ReassemblyUndoesFragmentation(h, fragments, packets, cuts, messages);
  }
}
