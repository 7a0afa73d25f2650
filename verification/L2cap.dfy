/**
  The `L2CAP` object: its fields, its event handlers and `writeAclData`, each proved to take the step
  of the sending state machine, or of reassembly, that the theorems are about.
 */
module L2cap {
  import opened Bytes
  import opened AclFragmentation
  import opened AclFlow
  import opened AclReassembly

  /** The size of the controller's buffers and how many there are. */
  datatype BufferSize = BufferSize(length: nat, count: nat)

  /** A packet handed to `Hci.writeAclData`. */
  datatype HciPacket = HciPacket(handle: Handle, boundary: Boundary, broadcast: Broadcast, data: seq<byte>)

  datatype Event =
    | AttData(h: Handle, payload: seq<byte>)
    | SmpData(h: Handle, payload: seq<byte>)
    | DisconnectedEvent(h: Handle, reason: nat)

  const ATT_CHANNEL := 4
  const SMP_CHANNEL := 6

  /** The event a complete PDU raises; other channels raise none. */
  function Emits(h: Handle, o: Outcome): seq<Event> {
    if !o.Delivered? then []
    else if o.message.channel == ATT_CHANNEL then [AttData(h, o.message.payload)]
    else if o.message.channel == SMP_CHANNEL then [SmpData(h, o.message.payload)]
    else []
  }

  /** The packets the code hands over for a list of queue entries; the queued boundary plays no part. */
  function Handed(sent: seq<Entry>): (r: seq<HciPacket>)
    ensures |r| == |sent|
  {
    seq(|sent|, i requires 0 <= i < |sent| =>
      HciPacket(sent[i].handle, FirstNoFlushFrag, PointToPoint, sent[i].fragment))
  }

  class L2CAP {
    var aclSize: BufferSize
    var aclQueue: seq<Entry>
    var aclConnections: map<Handle, nat>
    var aclFragments: map<Handle, Partial>

    // the flush activations that wait at their `await`
    var suspended: nat

    // what the object has done to its surroundings
    var handed: seq<HciPacket>
    var emitted: seq<Event>

    ghost var system: System

    function HostState(): Host
      reads this
    {
      Host(aclSize.length, aclSize.count, aclQueue, aclConnections)
    }

    ghost predicate Valid()
      reads this
    {
      && system.host == HostState()
      && system.suspended == suspended
      && handed == Handed(system.wire)
    }

    /** Construction and `init`: the LE buffers, or the shared ones when there are no dedicated LE buffers. */
    constructor (le: BufferSize, shared: BufferSize)
      ensures Valid()
      ensures aclSize == if le.length == 0 || le.count == 0 then shared else le
      ensures system == Start(aclSize.length, aclSize.count)
      ensures aclFragments == map[] && emitted == []
    {
      aclSize := if le.length == 0 || le.count == 0 then shared else le;
      aclQueue, aclConnections, aclFragments := [], map[], map[];
      suspended, handed, emitted := 0, [], [];
      system := Start(
        (if le.length == 0 || le.count == 0 then shared else le).length,
        (if le.length == 0 || le.count == 0 then shared else le).count);
    }

    method PendingPackets() returns (total: nat)
      ensures total == Sum(aclConnections)
    {
      total := 0;
      var rest := aclConnections;
      while rest != map[]
        invariant total + Sum(rest) == Sum(aclConnections)
        decreases |rest|
      {
        var h :| h in rest;
        SumRemove(rest, h);
        Shrinks(rest, h);
        total := total + rest[h];
        rest := rest - {h};
      }
    }

    method IsControllerBusy() returns (busy: bool)
      ensures busy == Busy(HostState())
    {
      var total := PendingPackets();
      busy := total == aclSize.count;
    }

    /** `flushAcl` from its start, or from its `await`, to the next `await` or the end. */
    method FlushAcl()
      requires Valid()
      modifies this
      ensures Valid() && system == RunFlush(old(system))
      ensures unchanged(`aclSize) && unchanged(`aclFragments) && unchanged(`emitted)
    {
      while aclQueue != []
        invariant Flush(HostState()) == Flush(old(HostState()))
        invariant aclSize == old(aclSize) && aclFragments == old(aclFragments) && emitted == old(emitted)
        invariant suspended == old(suspended) && handed == old(handed) && system == old(system)
        decreases |aclQueue|
      {
        var busy := IsControllerBusy();
        if busy {
          break;
        }
        var entry := aclQueue[0];
        aclQueue := aclQueue[1..];
        if entry.handle in aclConnections {
          aclConnections := aclConnections[entry.handle := aclConnections[entry.handle] + 1];
          handed := handed + [HciPacket(entry.handle, FirstNoFlushFrag, PointToPoint, entry.fragment)];
          suspended := suspended + 1;
          system := RunFlush(system);
          return;
        }
      }
      system := RunFlush(system);
    }

    method ResumeFlush()
      requires Valid() && suspended > 0
      modifies this
      ensures Valid() && system == Apply(old(system), Resume)
      ensures unchanged(`aclSize) && unchanged(`aclFragments) && unchanged(`emitted)
    {
      suspended := suspended - 1;
      system := system.(suspended := suspended);
      FlushAcl();
    }

    /** Queues the fragments of one PDU and starts a flush; throws, queueing nothing, when the header does not fit. */
    method WriteAclData(h: Handle, channel: uint16, payload: seq<byte>) returns (thrown: bool)
      requires Valid()
      modifies this
      ensures Valid() && system == Apply(old(system), Write(h, Message(channel, payload)))
      ensures thrown == (aclSize.length < HEADER || |payload| >= 0x1_0000)
      ensures thrown ==> unchanged(this)
      ensures unchanged(`aclSize) && unchanged(`aclFragments) && unchanged(`emitted)
    {
      var l2capLength := HEADER + |payload|;
      var max := aclSize.length;
      var aclLength := if l2capLength < max then l2capLength else max;
      if aclLength < HEADER || |payload| >= 0x1_0000 {
        return true;
      }
      thrown := false;
      ghost var m := Message(channel, payload);
      ghost var pdu := Pdu(m);
      var fragment := Le16(|payload|) + Le16(channel) + payload[..aclLength - HEADER];
      var rest := payload[aclLength - HEADER..];
      aclQueue := aclQueue + [Entry(h, fragment, FirstNoFlushFrag, PointToPoint)];
      ghost var done := [fragment];
      assert pdu == fragment + rest;
      assert fragment == pdu[..aclLength] && rest == pdu[aclLength..];
      ChunksFirst(pdu, max, aclLength);
      while rest != []
        invariant done != [] && done + Chunks(rest, max) == Chunks(pdu, max)
        invariant aclQueue == old(aclQueue) + Entries(h, done)
        invariant aclSize == old(aclSize) && aclConnections == old(aclConnections)
        invariant aclFragments == old(aclFragments) && emitted == old(emitted)
        invariant suspended == old(suspended) && handed == old(handed) && system == old(system)
        decreases |rest|
      {
        aclLength := if |rest| < max then |rest| else max;
        fragment := rest[..aclLength];
        aclQueue := aclQueue + [Entry(h, fragment, NextFrag, PointToPoint)];
        ChunksFirst(rest, max, aclLength);
        assert (done + [fragment]) + Chunks(rest[aclLength..], max) == done + Chunks(rest, max);
        assert Entries(h, done + [fragment]) == Entries(h, done) + [Entry(h, fragment, NextFrag, PointToPoint)];
        done := done + [fragment];
        rest := rest[aclLength..];
      }
      assert done == Chunks(pdu, max);
      system := Queued(system, h, m);
      FlushAcl();
    }

    method OnLeConnectionComplete(failed: bool, h: Handle)
      requires Valid()
      modifies this
      ensures Valid() && system == if failed then old(system) else Apply(old(system), Connect(h))
      ensures unchanged(`aclSize) && unchanged(`aclFragments) && unchanged(`emitted)
    {
      if failed {
        return;
      }
      aclConnections := aclConnections[h := 0];
      system := Connected(system, h);
    }

    static method Filter(queue: seq<Entry>, h: Handle) returns (kept: seq<Entry>)
      ensures kept == Without(queue, h)
    {
      kept := [];
      for i := 0 to |queue|
        invariant kept + Without(queue[i..], h) == Without(queue, h)
      {
        WithoutStep(kept, queue, i, h);
        if queue[i].handle != h {
          kept := kept + [queue[i]];
        }
      }
    }

    method OnDisconnectionComplete(failed: bool, h: Handle, reason: nat)
      requires Valid()
      modifies this
      ensures Valid() && system == if failed then old(system) else Apply(old(system), Disconnect(h))
      ensures emitted == old(emitted) + if failed then [] else [DisconnectedEvent(h, reason)]
      ensures unchanged(`aclSize) && unchanged(`aclFragments)
    {
      if failed {
        return;
      }
      aclQueue := Filter(aclQueue, h);
      aclConnections := aclConnections - {h};
      system := Disconnected(system, h);
      FlushAcl();
      emitted := emitted + [DisconnectedEvent(h, reason)];
    }

    method OnNumberOfCompletedPackets(h: Handle, count: nat)
      requires Valid()
      modifies this
      ensures Valid() && system == Apply(old(system), Completed(h, count))
      ensures h !in old(aclConnections) ==> unchanged(this)
      ensures unchanged(`aclSize) && unchanged(`aclFragments) && unchanged(`emitted)
    {
      if h !in aclConnections {
        return;
      }
      var pending: int := aclConnections[h] - count;
      if pending < 0 {
        pending := 0;
      }
      aclConnections := aclConnections[h := pending];
      system := Acknowledged(system, h, count);
      FlushAcl();
    }

    /** Joins one incoming fragment; the sending half is not touched. */
    method OnAclData(p: Packet) returns (thrown: bool)
      requires Valid()
      modifies this
      ensures Valid() && system == old(system)
      ensures var (next, out) := AclReassembly.OnAclData(old(aclFragments), p);
        aclFragments == next && emitted == old(emitted) + Emits(p.handle, out) && thrown == out.Thrown?
    {
      thrown := false;
      if p.boundary == FirstFrag {
        if |p.data| < HEADER {
          return true;
        }
        var length := ReadLe16(p.data, 0);
        var channel := ReadLe16(p.data, 2);
        var payload := p.data[HEADER..];
        if length == |payload| {
          OnAclDataComplete(p.handle, channel, payload);
        } else if length > |payload| {
          aclFragments := aclFragments[p.handle := Partial(channel, length, payload)];
        }
        return;
      }
      if p.boundary == NextFrag {
        if p.handle !in aclFragments {
          return;
        }
        var partial := aclFragments[p.handle];
        partial := partial.(payload := partial.payload + p.data);
        aclFragments := aclFragments[p.handle := partial];
        if |partial.payload| == partial.length {
          OnAclDataComplete(p.handle, partial.channel, partial.payload);
          aclFragments := aclFragments - {p.handle};
        }
        if |partial.payload| > partial.length {
          aclFragments := aclFragments - {p.handle};
        }
      }
    }

    method OnAclDataComplete(h: Handle, channel: uint16, payload: seq<byte>)
      modifies this`emitted
      ensures channel == 4 ==> emitted == old(emitted) + [AttData(h, payload)]
      ensures channel == 6 ==> emitted == old(emitted) + [SmpData(h, payload)]
      ensures channel != 4 && channel != 6 ==> emitted == old(emitted)
      ensures emitted == old(emitted) + Emits(h, Delivered(Message(channel, payload)))
    {
      match channel
      case 4 => emitted := emitted + [AttData(h, payload)];
      case 6 => emitted := emitted + [SmpData(h, payload)];
      case _ =>
    }
  }
}
