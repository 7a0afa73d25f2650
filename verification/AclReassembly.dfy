/**
  The receiving half of `L2CAP`: `onAclData` joins the fragments of each connection into PDUs.
 */
module AclReassembly {
  import opened Bytes
  import opened AclFragmentation

  /** An entry of `aclFragments`: a PDU whose end has not arrived. */
  datatype Partial = Partial(channel: uint16, length: uint16, payload: seq<byte>)

  /** An ACL packet as the controller reports it. */
  datatype Packet = Packet(handle: Handle, boundary: Boundary, data: seq<byte>)

  datatype Outcome = Nothing | Delivered(message: Message) | Thrown

  /** `onAclData` for one connection: its partial PDU before and after, and what the call does. */
  function OnFragment(partial: Option<Partial>, boundary: Boundary, data: seq<byte>): (Option<Partial>, Outcome) {
    match boundary
    case FirstFrag =>
      // readUIntLE is out of range on a short packet; the exception leaves the state alone
      if |data| < HEADER then (partial, Thrown)
      else
        var length := ReadLe16(data, 0);
        var channel := ReadLe16(data, 2);
        var payload := data[HEADER..];
        if length == |payload| then (partial, Delivered(Message(channel, payload)))
        else if length < |payload| then (partial, Nothing)
        else (Some(Partial(channel, length, payload)), Nothing)
    case NextFrag =>
      if partial.None? then (None, Nothing)
      else
        var p := partial.value.(payload := partial.value.payload + data);
        if |p.payload| == p.length then (None, Delivered(Message(p.channel, p.payload)))
        else if |p.payload| > p.length then (None, Nothing)
        else (Some(p), Nothing)
    case _ => (partial, Nothing)
  }

  /**
    What cannot be joined is dropped: it changes nothing, or takes with it the PDU that it makes too long. A
    whole PDU leaves one that was begun before it where it is.
   */
  lemma OddFragments(partial: Option<Partial>, boundary: Boundary, data: seq<byte>)
    ensures boundary == FirstFrag && |data| >= 4 && data[0] as int + 0x100 * data[1] as int == |data| - 4 ==>
      OnFragment(partial, boundary, data)
        == (partial, Delivered(Message(data[2] as int + 0x100 * data[3] as int, data[4..])))
    ensures boundary == FirstFrag && |data| < 4 ==> OnFragment(partial, boundary, data) == (partial, Thrown)
    ensures boundary == FirstFrag && |data| >= 4 && data[0] as int + 0x100 * data[1] as int < |data| - 4 ==>
      OnFragment(partial, boundary, data) == (partial, Nothing)
    ensures boundary == FirstNoFlushFrag || boundary == Complete ==>
      OnFragment(partial, boundary, data) == (partial, Nothing)
    ensures boundary == NextFrag && partial.None? ==> OnFragment(partial, boundary, data) == (None, Nothing)
    ensures boundary == NextFrag && partial.Some? && |partial.value.payload| + |data| > partial.value.length ==>
      OnFragment(partial, boundary, data) == (None, Nothing)
  {
  }

  function Lookup(fragments: map<Handle, Partial>, h: Handle): Option<Partial> {
    if h in fragments then Some(fragments[h]) else None
  }

  function Store(fragments: map<Handle, Partial>, h: Handle, p: Option<Partial>): (r: map<Handle, Partial>)
    ensures forall k :: Lookup(r, k) == if k == h then p else Lookup(fragments, k)
  {
    match p
    case None => fragments - {h}
    case Some(v) => fragments[h := v]
  }

  /** `onAclData` over all connections. */
  function OnAclData(fragments: map<Handle, Partial>, p: Packet): (map<Handle, Partial>, Outcome) {
    var (next, out) := OnFragment(Lookup(fragments, p.handle), p.boundary, p.data);
    (Store(fragments, p.handle, next), out)
  }

  function Outputs(o: Outcome): seq<Message> {
    if o.Delivered? then [o.message] else []
  }

  /** The messages delivered to one connection while all packets are processed. */
  function DeliveredTo(h: Handle, fragments: map<Handle, Partial>, packets: seq<Packet>): seq<Message>
    decreases |packets|
  {
    if packets == [] then [] else
      var (next, out) := OnAclData(fragments, packets[0]);
      (if packets[0].handle == h then Outputs(out) else []) + DeliveredTo(h, next, packets[1..])
  }

  /** The same for a single connection's packets. */
  function Join(partial: Option<Partial>, packets: seq<(Boundary, seq<byte>)>): seq<Message>
    decreases |packets|
  {
    if packets == [] then [] else
      var (next, out) := OnFragment(partial, packets[0].0, packets[0].1);
      Outputs(out) + Join(next, packets[1..])
  }

  /** The partial PDU those packets leave behind. */
  function Left(partial: Option<Partial>, packets: seq<(Boundary, seq<byte>)>): Option<Partial>
    decreases |packets|
  {
    if packets == [] then partial
    else Left(OnFragment(partial, packets[0].0, packets[0].1).0, packets[1..])
  }

  /** One connection's share of the incoming packets. */
  function Of(packets: seq<Packet>, h: Handle): seq<(Boundary, seq<byte>)> {
    if packets == [] then []
    else (if packets[0].handle == h then [(packets[0].boundary, packets[0].data)] else []) + Of(packets[1..], h)
  }

  lemma {:induction false} DeliveredAlone(h: Handle, fragments: map<Handle, Partial>, packets: seq<Packet>)
    ensures DeliveredTo(h, fragments, packets) == Join(Lookup(fragments, h), Of(packets, h))
    decreases |packets|
  {
    if packets != [] {
      var (next, out) := OnAclData(fragments, packets[0]);
      DeliveredAlone(h, next, packets[1..]);
      if packets[0].handle == h {
        var own := Of(packets, h);
        assert own == [(packets[0].boundary, packets[0].data)] + Of(packets[1..], h);
        assert own[1..] == Of(packets[1..], h);
        assert Join(Lookup(fragments, h), own) == Outputs(out) + Join(Lookup(next, h), own[1..]);
      } else {
        assert Of(packets, h) == Of(packets[1..], h);
      }
    }
  }

  lemma {:induction false} JoinAppend(partial: Option<Partial>, a: seq<(Boundary, seq<byte>)>,
    b: seq<(Boundary, seq<byte>)>)
    ensures Join(partial, a + b) == Join(partial, a) + Join(Left(partial, a), b)
    decreases |a|
  {
    if a == [] {
      assert a + b == b;
    } else {
      assert (a + b)[1..] == a[1..] + b;
      var (next, out) := OnFragment(partial, a[0].0, a[0].1);
      JoinAppend(next, a[1..], b);
      assert Join(partial, a + b) == Outputs(out) + (Join(next, a[1..]) + Join(Left(next, a[1..]), b));
    }
  }

  // ---------------------------------------------------------------- fragmentation undone

  /** A cut of a PDU at any places, into pieces of any length. */
  predicate Cut(pieces: seq<seq<byte>>, m: Message) {
    |m.payload| < 0x1_0000 && pieces != [] && Flatten(pieces) == Pdu(m)
  }

  /** The first piece holds the header. */
  predicate Headed(pieces: seq<seq<byte>>) {
    pieces != [] && |pieces[0]| >= HEADER
  }

  /** The PDU ends with the last piece. */
  predicate Ended(pieces: seq<seq<byte>>) {
    |pieces| > 1 ==> pieces[|pieces| - 1] != []
  }

  /** Something is missing from the partial PDU, as from every one that `onAclData` keeps. */
  predicate Open(partial: Option<Partial>) {
    partial.None? || |partial.value.payload| < partial.value.length
  }

  lemma StaysOpen(partial: Option<Partial>, boundary: Boundary, data: seq<byte>)
    requires Open(partial)
    ensures Open(OnFragment(partial, boundary, data).0)
  {
  }

  /** The pieces as a receiver sees them: the opening one first, the others continuing. */
  function Arrivals(pieces: seq<seq<byte>>): (r: seq<(Boundary, seq<byte>)>)
    ensures |r| == |pieces|
  {
    seq(|pieces|, i requires 0 <= i < |pieces| => (if i == 0 then FirstFrag else NextFrag, pieces[i]))
  }

  function Continuing(pieces: seq<seq<byte>>): (r: seq<(Boundary, seq<byte>)>)
    ensures |r| == |pieces|
  {
    seq(|pieces|, i requires 0 <= i < |pieces| => (NextFrag, pieces[i]))
  }

  /** Without a partial PDU, continuing fragments come to nothing. */
  lemma {:induction false} JoinNothing(pieces: seq<seq<byte>>)
    ensures Join(None, Continuing(pieces)) == [] && Left(None, Continuing(pieces)) == None
    decreases |pieces|
  {
    if pieces != [] {
      assert Continuing(pieces)[1..] == Continuing(pieces[1..]);
      JoinNothing(pieces[1..]);
    }
  }

  /** Empty fragments leave a partial PDU from which something is missing as it is. */
  lemma {:induction false} JoinEmpty(partial: Option<Partial>, pieces: seq<seq<byte>>)
    requires Open(partial) && Flatten(pieces) == []
    ensures Join(partial, Continuing(pieces)) == [] && Left(partial, Continuing(pieces)) == partial
    decreases |pieces|
  {
    if pieces != [] {
      assert pieces[0] == [] && Continuing(pieces)[1..] == Continuing(pieces[1..]);
      assert partial.Some? ==> partial.value.payload + [] == partial.value.payload;
      JoinEmpty(partial, pieces[1..]);
    }
  }

  lemma {:induction false} JoinRest(p: Partial, pieces: seq<seq<byte>>)
    requires Open(Some(p)) && |p.payload| + |Flatten(pieces)| == p.length
    ensures Join(Some(p), Continuing(pieces)) == [Message(p.channel, p.payload + Flatten(pieces))]
    ensures Left(Some(p), Continuing(pieces)) == None
    decreases |pieces|
  {
    var packets := Continuing(pieces);
    assert packets[1..] == Continuing(pieces[1..]);
    var q := p.(payload := p.payload + pieces[0]);
    assert (p.payload + pieces[0]) + Flatten(pieces[1..]) == p.payload + Flatten(pieces);
    if |q.payload| == p.length {
      assert Flatten(pieces[1..]) == [] && q.payload == p.payload + Flatten(pieces);
      assert OnFragment(Some(p), NextFrag, pieces[0]) == (None, Delivered(Message(p.channel, q.payload)));
      JoinNothing(pieces[1..]);
    } else {
      JoinRest(q, pieces[1..]);
      assert OnFragment(Some(p), NextFrag, pieces[0]) == (Some(q), Nothing);
    }
  }

  lemma FlattenEnd(pieces: seq<seq<byte>>)
    requires pieces != []
    ensures |Flatten(pieces)| >= |pieces[|pieces| - 1]|
  {
    var n := |pieces| - 1;
    assert pieces == pieces[..n] + [pieces[n]];
    FlattenAppend(pieces[..n], [pieces[n]]);
    FlattenOne(pieces[n]);
  }

  /** One PDU, cut anywhere behind its header, is delivered whole, whatever partial PDU was there before. */
  lemma JoinPdu(partial: Option<Partial>, pieces: seq<seq<byte>>, m: Message)
    requires Cut(pieces, m) && Headed(pieces) && (Open(partial) || Ended(pieces))
    ensures Join(partial, Arrivals(pieces)) == [m]
    ensures Left(partial, Arrivals(pieces)) == None || Left(partial, Arrivals(pieces)) == partial
  {
    var (packets, first, rest) := (Arrivals(pieces), pieces[0], pieces[1..]);
    PduFields(m);
    assert Pdu(m) == first + Flatten(rest);
    assert ReadLe16(first, 0) == |m.payload| && ReadLe16(first, 2) == m.channel;
    assert m.payload == first[HEADER..] + Flatten(rest);
    assert packets[1..] == Continuing(rest);
    if |first[HEADER..]| == |m.payload| {
      assert Flatten(rest) == [] && first[HEADER..] == m.payload;
      assert OnFragment(partial, FirstFrag, first) == (partial, Delivered(m));
      if rest != [] {
        FlattenEnd(rest);
        JoinEmpty(partial, rest);
      }
    } else {
      var p := Partial(m.channel, |m.payload|, first[HEADER..]);
      JoinRest(p, rest);
      assert OnFragment(partial, FirstFrag, first) == (Some(p), Nothing);
    }
  }

  /** With no partial PDU there, it is delivered exactly when its first piece holds the header. */
  lemma JoinPduExactly(pieces: seq<seq<byte>>, m: Message)
    requires Cut(pieces, m)
    ensures Join(None, Arrivals(pieces)) == (if Headed(pieces) then [m] else [])
    ensures Left(None, Arrivals(pieces)) == None
  {
    if Headed(pieces) {
      JoinPdu(None, pieces, m);
    } else {
      assert Arrivals(pieces)[1..] == Continuing(pieces[1..]);
      assert OnFragment(None, FirstFrag, pieces[0]) == (None, Thrown);
      JoinNothing(pieces[1..]);
    }
  }

  ghost predicate Cuts(cuts: seq<seq<seq<byte>>>, messages: seq<Message>) {
    |cuts| == |messages| && forall i :: 0 <= i < |cuts| ==> Cut(cuts[i], messages[i])
  }

  ghost predicate AllHeaded(cuts: seq<seq<seq<byte>>>) {
    forall i :: 0 <= i < |cuts| ==> Headed(cuts[i])
  }

  ghost predicate AllEnded(cuts: seq<seq<seq<byte>>>) {
    forall i :: 0 <= i < |cuts| ==> Ended(cuts[i])
  }

  function Stream(cuts: seq<seq<seq<byte>>>): seq<(Boundary, seq<byte>)> {
    if cuts == [] then [] else Arrivals(cuts[0]) + Stream(cuts[1..])
  }

  lemma {:induction false} JoinStream(partial: Option<Partial>, cuts: seq<seq<seq<byte>>>, messages: seq<Message>)
    requires Cuts(cuts, messages) && AllHeaded(cuts) && (Open(partial) || AllEnded(cuts))
    ensures Join(partial, Stream(cuts)) == messages
    decreases |cuts|
  {
    if cuts != [] {
      JoinPdu(partial, cuts[0], messages[0]);
      JoinAppend(partial, Arrivals(cuts[0]), Stream(cuts[1..]));
      JoinStream(Left(partial, Arrivals(cuts[0])), cuts[1..], messages[1..]);
      assert messages == [messages[0]] + messages[1..];
    }
  }

  /** Of any cuts, those whose first piece holds the header. */
  function Arriving(cuts: seq<seq<seq<byte>>>, messages: seq<Message>): (r: seq<Message>)
    requires |cuts| == |messages|
    ensures |r| <= |messages|
    ensures |r| == |messages| ==> AllHeaded(cuts)
    ensures AllHeaded(cuts) ==> r == messages
  {
    if cuts == [] then []
    else (if Headed(cuts[0]) then [messages[0]] else []) + Arriving(cuts[1..], messages[1..])
  }

  lemma {:induction false} JoinAnyStream(cuts: seq<seq<seq<byte>>>, messages: seq<Message>)
    requires Cuts(cuts, messages)
    ensures Join(None, Stream(cuts)) == Arriving(cuts, messages)
    decreases |cuts|
  {
    if cuts != [] {
      JoinPduExactly(cuts[0], messages[0]);
      JoinAppend(None, Arrivals(cuts[0]), Stream(cuts[1..]));
      JoinAnyStream(cuts[1..], messages[1..]);
    }
  }

  /**
    Reassembly undoes fragmentation: however each connection's PDUs are cut behind their headers and however
    the connections' packets are interleaved, every connection gets its PDUs once, in order and unchanged,
    from any content of `aclFragments`, left by a dead connection or not. Only a cut with empty pieces at its
    end asks that the content is one that `onAclData` leaves.
   */
  lemma ReassemblyUndoesFragmentation(
      h: Handle, fragments: map<Handle, Partial>, packets: seq<Packet>,
      cuts: seq<seq<seq<byte>>>, messages: seq<Message>)
    requires Cuts(cuts, messages) && AllHeaded(cuts) && (Open(Lookup(fragments, h)) || AllEnded(cuts))
    requires Of(packets, h) == Stream(cuts)
    ensures DeliveredTo(h, fragments, packets) == messages
  {
    DeliveredAlone(h, fragments, packets);
    JoinStream(Lookup(fragments, h), cuts, messages);
  }

  /** A connection with no partial PDU gets its PDUs exactly when each was cut behind its header. */
  lemma ReassemblyIsExact(
      h: Handle, fragments: map<Handle, Partial>, packets: seq<Packet>,
      cuts: seq<seq<seq<byte>>>, messages: seq<Message>)
    requires Cuts(cuts, messages) && h !in fragments
    requires Of(packets, h) == Stream(cuts)
    ensures DeliveredTo(h, fragments, packets) == messages <==> AllHeaded(cuts)
    ensures DeliveredTo(h, fragments, packets) == Arriving(cuts, messages)
  {
    DeliveredAlone(h, fragments, packets);
    JoinAnyStream(cuts, messages);
  }

  /** `aclFragments` after all packets. */
  function After(fragments: map<Handle, Partial>, packets: seq<Packet>): map<Handle, Partial>
    decreases |packets|
  {
    if packets == [] then fragments else After(OnAclData(fragments, packets[0]).0, packets[1..])
  }

  /** Whatever arrives, something is missing from every partial PDU that is kept. */
  lemma {:induction false} EntriesOpen(fragments: map<Handle, Partial>, packets: seq<Packet>)
    requires forall h :: Open(Lookup(fragments, h))
    ensures forall h :: Open(Lookup(After(fragments, packets), h))
    decreases |packets|
  {
    if packets != [] {
      StaysOpen(Lookup(fragments, packets[0].handle), packets[0].boundary, packets[0].data);
      EntriesOpen(OnAclData(fragments, packets[0]).0, packets[1..]);
    }
  }
}
