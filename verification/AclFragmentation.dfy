/**
  L2CAP PDUs and their ACL fragments (section 7.2 of Core 5.2 Vol 3 Part A).
 */
module AclFragmentation {
  import opened Bytes

  type Handle = h: int | 0 <= h < 0x1000

  datatype Boundary = FirstNoFlushFrag | NextFrag | FirstFrag | Complete

  datatype Broadcast = PointToPoint | ActiveBroadcast

  /** One element of `aclQueue`. */
  datatype Entry = Entry(handle: Handle, fragment: seq<byte>, boundary: Boundary, broadcast: Broadcast)

  /** What `writeAclData` was asked to send. */
  datatype Message = Message(channel: uint16, payload: seq<byte>)

  const HEADER := 4

  /** A basic L2CAP frame: payload length, channel, payload. */
  function Pdu(m: Message): (r: seq<byte>)
    requires |m.payload| < 0x1_0000
    ensures |r| == HEADER + |m.payload|
  {
    Le16(|m.payload|) + Le16(m.channel) + m.payload
  }

  lemma PduFields(m: Message)
    requires |m.payload| < 0x1_0000
    ensures ReadLe16(Pdu(m), 0) == |m.payload|
    ensures ReadLe16(Pdu(m), 2) == m.channel
    ensures Pdu(m)[HEADER..] == m.payload
  {
    ReadWriteLe16(|m.payload|, [], Le16(m.channel) + m.payload);
    assert Pdu(m) == [] + Le16(|m.payload|) + (Le16(m.channel) + m.payload);
    ReadWriteLe16(m.channel, Le16(|m.payload|), m.payload);
  }

  /** Payload length and channel, each with its low byte first, then the payload. */
  lemma PduBytes(m: Message)
    requires |m.payload| < 0x1_0000
    ensures var n := |m.payload|;
      Pdu(m) == [n % 0x100, n / 0x100, m.channel % 0x100, m.channel / 0x100] + m.payload
  {
  }

  /** `data` cut into pieces of `max` bytes, the last one possibly shorter. */
  function Chunks(data: seq<byte>, max: nat): (r: seq<seq<byte>>)
    requires max > 0
    ensures data == [] <==> r == []
    decreases |data|
  {
    if data == [] then []
    else if |data| <= max then [data]
    else [data[..max]] + Chunks(data[max..], max)
  }

  lemma ChunksFirst(data: seq<byte>, max: nat, n: nat)
    requires max > 0 && data != [] && n == if |data| < max then |data| else max
    ensures Chunks(data, max) == [data[..n]] + Chunks(data[n..], max)
  {
    if |data| <= max {
      assert data[..n] == data && data[n..] == [];
    }
  }

  lemma {:induction false} ChunksRebuild(data: seq<byte>, max: nat)
    requires max > 0
    ensures Flatten(Chunks(data, max)) == data
    ensures forall i :: 0 <= i < |Chunks(data, max)| ==> 0 < |Chunks(data, max)[i]| <= max
    ensures forall i :: 0 <= i < |Chunks(data, max)| - 1 ==> |Chunks(data, max)[i]| == max
    ensures data != [] ==> |Chunks(data, max)[0]| == if |data| <= max then |data| else max
    decreases |data|
  {
    if data == [] {
    } else if |data| <= max {
      FlattenOne(data);
    } else {
      ChunksRebuild(data[max..], max);
      assert Chunks(data, max)[1..] == Chunks(data[max..], max);
    }
  }

  /** The queue entries for a list of pieces: the first piece opens the PDU, the others continue it. */
  function Entries(h: Handle, pieces: seq<seq<byte>>): (r: seq<Entry>)
    ensures |r| == |pieces|
    ensures forall e :: e in r ==> e.handle == h
  {
    seq(|pieces|, i requires 0 <= i < |pieces| =>
      Entry(h, pieces[i], if i == 0 then FirstNoFlushFrag else NextFrag, PointToPoint))
  }

  /** The fragmentation of one message for a controller that takes `max` bytes a packet. */
  function Fragments(h: Handle, m: Message, max: nat): (r: seq<Entry>)
    requires |m.payload| < 0x1_0000 && max >= HEADER
    ensures forall e :: e in r ==> e.handle == h
  {
    Entries(h, Chunks(Pdu(m), max))
  }

  /** Exactly the entries of one connection, in queue order. */
  function For(q: seq<Entry>, h: Handle): (r: seq<Entry>)
    ensures forall e :: e in r <==> e in q && e.handle == h
  {
    if q == [] then [] else (if q[0].handle == h then [q[0]] else []) + For(q[1..], h)
  }

  /** `aclQueue.filter((acl) => acl.connectionHandle !== h)`. */
  function Without(q: seq<Entry>, h: Handle): (r: seq<Entry>)
    ensures forall e :: e in r <==> e in q && e.handle != h
  {
    if q == [] then [] else (if q[0].handle == h then [] else [q[0]]) + Without(q[1..], h)
  }

  lemma WithoutStep(kept: seq<Entry>, q: seq<Entry>, i: nat, h: Handle)
    requires i < |q|
    ensures (if q[i].handle == h then kept else kept + [q[i]]) + Without(q[i + 1..], h) == kept + Without(q[i..], h)
  {
    assert q[i..][0] == q[i] && q[i..][1..] == q[i + 1..];
    var w := Without(q[i + 1..], h);
    assert Without(q[i..], h) == (if q[i].handle == h then [] else [q[i]]) + w;
    assert (kept + [q[i]]) + w == kept + ([q[i]] + w);
    assert [] + w == w;
  }

  lemma {:induction false} ForAppend(a: seq<Entry>, b: seq<Entry>, h: Handle)
    ensures For(a + b, h) == For(a, h) + For(b, h)
  {
    if a == [] {
      assert a + b == b;
    } else {
      assert (a + b)[1..] == a[1..] + b;
      ForAppend(a[1..], b, h);
    }
  }

  lemma {:induction false} ForUniform(q: seq<Entry>, own: Handle, h: Handle)
    requires forall e :: e in q ==> e.handle == own
    ensures For(q, h) == if h == own then q else []
  {
    if q != [] {
      assert forall e :: e in q[1..] ==> e in q;
      ForUniform(q[1..], own, h);
      assert q == [q[0]] + q[1..];
    }
  }

  lemma {:induction false} ForAbsent(q: seq<Entry>, h: Handle)
    requires forall e :: e in q ==> e.handle != h
    ensures For(q, h) == []
  {
    if q != [] {
      ForAbsent(q[1..], h);
    }
  }

  lemma {:induction false} ForWithout(q: seq<Entry>, gone: Handle, h: Handle)
    ensures For(Without(q, gone), h) == if h == gone then [] else For(q, h)
  {
    if q != [] {
      ForWithout(q[1..], gone, h);
      ForAppend(if q[0].handle == gone then [] else [q[0]], Without(q[1..], gone), h);
      assert For([q[0]], h) == if q[0].handle == h then [q[0]] else [];
    }
  }
}
