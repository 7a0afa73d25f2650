/**
  From `writeAclData` on one host to `onAclData` on the other: the two halves of `L2CAP` together.
 */
module AclEndToEnd {
  import opened Bytes
  import opened AclFragmentation
  import opened AclFlow
  import opened AclFlowTheorems
  import opened AclReassembly

  /** A controller reports a PDU's opening fragment with boundary 2, whichever opening flag it was sent with. */
  function Arrives(b: Boundary): Boundary {
    if b == FirstNoFlushFrag then FirstFrag else b
  }

  /** The fragments as their queue entries describe them. */
  function AsQueued(sent: seq<Entry>): (r: seq<(Boundary, seq<byte>)>)
    ensures |r| == |sent|
  {
    seq(|sent|, i requires 0 <= i < |sent| => (Arrives(sent[i].boundary), sent[i].fragment))
  }

  /** The fragments as `flushAcl` hands them over: each one flagged as the start of a PDU. */
  function AsSent(sent: seq<Entry>): (r: seq<(Boundary, seq<byte>)>)
    ensures |r| == |sent|
  {
    seq(|sent|, i requires 0 <= i < |sent| => (Arrives(FirstNoFlushFrag), sent[i].fragment))
  }

  function ChunkCuts(messages: seq<Message>, max: nat): (r: seq<seq<seq<byte>>>)
    requires Writable(messages, max)
    ensures |r| == |messages|
  {
    seq(|messages|, i requires 0 <= i < |messages| => Chunks(Pdu(messages[i]), max))
  }

  lemma ChunksCut(m: Message, max: nat)
    requires max >= HEADER && |m.payload| < 0x1_0000
    ensures Cut(Chunks(Pdu(m), max), m) && Headed(Chunks(Pdu(m), max)) && Ended(Chunks(Pdu(m), max))
  {
    ChunksRebuild(Pdu(m), max);
  }

  lemma {:induction false} StreamSnoc(cuts: seq<seq<seq<byte>>>, last: seq<seq<byte>>)
    ensures Stream(cuts + [last]) == Stream(cuts) + Arrivals(last)
  {
    if cuts == [] {
      assert cuts + [last] == [last] && [last][1..] == [];
    } else {
      assert (cuts + [last])[1..] == cuts[1..] + [last];
      StreamSnoc(cuts[1..], last);
    }
  }

  lemma AsQueuedAppend(a: seq<Entry>, b: seq<Entry>)
    ensures AsQueued(a + b) == AsQueued(a) + AsQueued(b)
    ensures AsSent(a + b) == AsSent(a) + AsSent(b)
  {
  }

  lemma AsQueuedEntries(h: Handle, pieces: seq<seq<byte>>)
    ensures AsQueued(Entries(h, pieces)) == Arrivals(pieces)
  {
  }

  lemma {:induction false} AllFragmentsStream(h: Handle, messages: seq<Message>, max: nat)
    requires Writable(messages, max)
    ensures AsQueued(AllFragments(h, messages, max)) == Stream(ChunkCuts(messages, max))
    decreases |messages|
  {
    if messages != [] {
      var n := |messages| - 1;
      assert Writable(messages[..n], max);
      var pieces := Chunks(Pdu(messages[n]), max);
      AllFragmentsStream(h, messages[..n], max);
      StreamSnoc(ChunkCuts(messages[..n], max), pieces);
      assert ChunkCuts(messages, max) == ChunkCuts(messages[..n], max) + [pieces];
      AsQueuedAppend(AllFragments(h, messages[..n], max), Entries(h, pieces));
      AsQueuedEntries(h, pieces);
    }
  }

  lemma AllFragmentsJoin(h: Handle, messages: seq<Message>, max: nat, partial: Option<Partial>)
    requires Writable(messages, max)
    ensures Join(partial, AsQueued(AllFragments(h, messages, max))) == messages
  {
    forall i | 0 <= i < |messages|
      ensures Cut(ChunkCuts(messages, max)[i], messages[i])
      ensures Headed(ChunkCuts(messages, max)[i]) && Ended(ChunkCuts(messages, max)[i])
    {
      ChunksCut(messages[i], max);
    }
    AllFragmentsStream(h, messages, max);
    JoinStream(partial, ChunkCuts(messages, max), messages);
  }

  lemma PrefixJoin(all: seq<Entry>, sent: seq<Entry>, queued: seq<Entry>, partial: Option<Partial>)
    requires all == sent + queued
    ensures Join(partial, AsQueued(sent)) <= Join(partial, AsQueued(all))
    ensures queued == [] ==> all == sent
  {
    AsQueuedAppend(sent, queued);
    JoinAppend(partial, AsQueued(sent), AsQueued(queued));
  }

  /**
    In every run whose connection events find nothing queued for their handles, what a connection has sent
    so far, read with the boundaries that were queued, gives the peer a prefix of the messages written on
    it, and all of them once nothing of it is queued; whatever partial PDU the peer held before.
   */
  lemma PeerReceivesPrefix(maxLen: nat, capacity: nat, actions: seq<Action>, h: Handle, partial: Option<Partial>)
    requires Along(Unqueued, Start(maxLen, capacity), actions)
    requires h in Run(Start(maxLen, capacity), actions).host.pending
    ensures var s := Run(Start(maxLen, capacity), actions);
      && h in s.tracks
      && Join(partial, AsQueued(s.tracks[h].sent)) <= s.tracks[h].messages
      && (For(s.host.queue, h) == [] ==> Join(partial, AsQueued(s.tracks[h].sent)) == s.tracks[h].messages)
  {
    SentIsWhatWasWritten(maxLen, capacity, actions, h);
    var s := Run(Start(maxLen, capacity), actions);
    var t := s.tracks[h];
    AllFragmentsJoin(h, t.messages, maxLen, partial);
    PrefixJoin(AllFragments(h, t.messages, maxLen), t.sent, For(s.host.queue, h), partial);
  }

  // ---------------------------------------------------------------- the boundary as sent

  predicate Small(m: Message, max: nat) {
    HEADER + |m.payload| <= max
  }

  lemma {:induction false} OpeningsDeliverSmall(partial: Option<Partial>, packets: seq<(Boundary, seq<byte>)>, max: nat)
    requires forall p :: p in packets ==> p.0 == FirstFrag && |p.1| <= max
    ensures forall m :: m in Join(partial, packets) ==> Small(m, max)
    decreases |packets|
  {
    if packets != [] {
      assert packets[0] in packets;
      var (next, out) := OnFragment(partial, packets[0].0, packets[0].1);
      OpeningsDeliverSmall(next, packets[1..], max);
    }
  }

  lemma {:induction false} FragmentsFit(h: Handle, messages: seq<Message>, max: nat)
    requires Writable(messages, max)
    ensures forall e :: e in AllFragments(h, messages, max) ==> |e.fragment| <= max
    decreases |messages|
  {
    if messages != [] {
      var n := |messages| - 1;
      assert forall m :: m in messages[..n] ==> m in messages;
      FragmentsFit(h, messages[..n], max);
      ChunksRebuild(Pdu(messages[n]), max);
    }
  }

  lemma {:induction false} SmallFragments(h: Handle, messages: seq<Message>, max: nat)
    requires Writable(messages, max)
    requires forall m :: m in messages ==> Small(m, max)
    ensures AsSent(AllFragments(h, messages, max)) == AsQueued(AllFragments(h, messages, max))
    decreases |messages|
  {
    if messages != [] {
      var n := |messages| - 1;
      assert forall m :: m in messages[..n] ==> m in messages;
      SmallFragments(h, messages[..n], max);
      assert messages[n] in messages;
      var (front, last) := (AllFragments(h, messages[..n], max), Fragments(h, messages[n], max));
      assert |last| == 1;
      AsQueuedAppend(front, last);
    }
  }

  /**
    `flushAcl` flags every fragment as an opening one and ignores the queued boundary. Read that way,
    the peer gets the messages if and only if each of them fits in one packet.
   */
  lemma PeerReceivesAsSent(h: Handle, messages: seq<Message>, max: nat, partial: Option<Partial>)
    requires Writable(messages, max)
    ensures Join(partial, AsSent(AllFragments(h, messages, max))) == messages
       <==> forall m :: m in messages ==> Small(m, max)
  {
    var all := AllFragments(h, messages, max);
    FragmentsFit(h, messages, max);
    OpeningsDeliverSmall(partial, AsSent(all), max);
    if forall m :: m in messages ==> Small(m, max) {
      SmallFragments(h, messages, max);
      AllFragmentsJoin(h, messages, max, partial);
    }
  }
}
