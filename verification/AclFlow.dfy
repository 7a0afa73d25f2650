/**
  The sending half of `L2CAP` as a state machine: one FIFO for all connections, a pending count per
  connection, and `flushAcl` activations that suspend after every packet they hand to the controller.

  The code between two `await` points runs without interruption, so one action below is one such
  stretch: an event handler or a `writeAclData` call up to the first `await` of the flush it starts,
  or a suspended flush resumed up to its next `await`. A suspended flush keeps no local value that it
  reads again, so it is enough to count the suspended ones.

  Beside the host's own fields the state records what an observer sees: the packets handed over, what
  every live connection asked for, and the buffers the controller has in use (section 4.1.1 of
  Core 5.2 Vol 4 Part E).
 */
module AclFlow {
  import opened Bytes
  import opened AclFragmentation

  datatype Host = Host(maxLen: nat, capacity: nat, queue: seq<Entry>, pending: map<Handle, nat>)

  /** A live connection since its last connection event. */
  datatype Track = Track(backlog: seq<Entry>, messages: seq<Message>, sent: seq<Entry>)

  datatype System = System(
    host: Host,
    suspended: nat,
    wire: seq<Entry>,
    tracks: map<Handle, Track>,
    controller: map<Handle, nat>)

  datatype Action =
    | Connect(h: Handle)
    | Disconnect(h: Handle)
    | Completed(h: Handle, count: nat)
    | Write(h: Handle, m: Message)
    | Resume

  // ---------------------------------------------------------------- totals

  ghost function Sum(m: map<Handle, nat>): nat
    decreases |m|
  {
    if m == map[] then 0 else
      var h :| h in m;
      assert |m - {h}| < |m| by { Shrinks(m, h); }
      m[h] + Sum(m - {h})
  }

  lemma Shrinks(m: map<Handle, nat>, h: Handle)
    requires h in m
    ensures |m - {h}| == |m| - 1
  {
    assert (m - {h}).Keys == m.Keys - {h};
  }

  lemma {:induction false} SumRemove(m: map<Handle, nat>, h: Handle)
    requires h in m
    ensures Sum(m) == m[h] + Sum(m - {h})
    decreases |m|
  {
    var k :| h in m && k in m && Sum(m) == m[k] + Sum(m - {k});
    if k != h {
      Shrinks(m, k);
      SumRemove(m - {k}, h);
      Shrinks(m, h);
      SumRemove(m - {h}, k);
      assert m - {k} - {h} == m - {h} - {k};
    }
  }

  lemma SumUpdate(m: map<Handle, nat>, h: Handle, n: nat)
    ensures Sum(m[h := n]) == n + Sum(m) - (if h in m then m[h] else 0)
  {
    var u := m[h := n];
    SumRemove(u, h);
    if h in m {
      SumRemove(m, h);
      assert u - {h} == m - {h};
    } else {
      assert u - {h} == m;
    }
  }

  lemma SumDelete(m: map<Handle, nat>, h: Handle)
    ensures Sum(m - {h}) == Sum(m) - (if h in m then m[h] else 0)
  {
    if h in m {
      SumRemove(m, h);
    } else {
      assert m - {h} == m;
    }
  }

  // ---------------------------------------------------------------- steps

  /** `isControllerBusy`: the code compares with `===`. */
  ghost predicate Busy(s: Host) {
    Sum(s.pending) == s.capacity
  }

  /** `writeAclData` throws before it queues anything when a header field does not fit. */
  predicate Rejected(s: Host, m: Message) {
    s.maxLen < HEADER || |m.payload| >= 0x1_0000
  }

  /** `flushAcl` from its start, or from just after its `await`, to its next `await` or its end. */
  ghost function Flush(s: Host): (r: (Host, Option<Entry>))
    decreases |s.queue|
  {
    if s.queue == [] || Busy(s) then (s, None)
    else
      var e := s.queue[0];
      var rest := s.(queue := s.queue[1..]);
      if e.handle !in s.pending then Flush(rest)
      else (rest.(pending := s.pending[e.handle := s.pending[e.handle] + 1]), Some(e))
  }

  function InUse(s: System, h: Handle): nat {
    if h in s.controller then s.controller[h] else 0
  }

  /** Hands one packet to the controller and leaves its flush suspended. */
  function Send(s: System, e: Entry): System {
    s.(suspended := s.suspended + 1,
       wire := s.wire + [e],
       tracks := if e.handle in s.tracks
                 then s.tracks[e.handle := s.tracks[e.handle].(sent := s.tracks[e.handle].sent + [e])]
                 else s.tracks,
       controller := s.controller[e.handle := InUse(s, e.handle) + 1])
  }

  ghost function RunFlush(s: System): System {
    var (host, out) := Flush(s.host);
    match out
    case None => s.(host := host)
    case Some(e) => Send(s.(host := host), e)
  }

  function Connected(s: System, h: Handle): System {
    s.(host := s.host.(pending := s.host.pending[h := 0]),
       tracks := s.tracks[h := Track(For(s.host.queue, h), [], [])],
       controller := s.controller[h := InUse(s, h)])
  }

  function Disconnected(s: System, h: Handle): System {
    s.(host := s.host.(queue := Without(s.host.queue, h), pending := s.host.pending - {h}),
       tracks := s.tracks - {h},
       controller := s.controller - {h})
  }

  function Less(a: nat, b: nat): nat {
    if a < b then 0 else a - b
  }

  function Acknowledged(s: System, h: Handle, count: nat): System
    requires h in s.host.pending
  {
    s.(host := s.host.(pending := s.host.pending[h := Less(s.host.pending[h], count)]),
       controller := s.controller[h := Less(InUse(s, h), count)])
  }

  function Queued(s: System, h: Handle, m: Message): System
    requires !Rejected(s.host, m)
  {
    s.(host := s.host.(queue := s.host.queue + Fragments(h, m, s.host.maxLen)),
       tracks := if h in s.tracks
                 then s.tracks[h := s.tracks[h].(messages := s.tracks[h].messages + [m])]
                 else s.tracks)
  }

  ghost function Apply(s: System, a: Action): System {
    match a
    case Connect(h) => Connected(s, h)
    case Disconnect(h) => RunFlush(Disconnected(s, h))
    case Completed(h, count) =>
      if h !in s.host.pending then s else RunFlush(Acknowledged(s, h, count))
    case Write(h, m) =>
      if Rejected(s.host, m) then s else RunFlush(Queued(s, h, m))
    case Resume =>
      if s.suspended == 0 then s else RunFlush(s.(suspended := s.suspended - 1))
  }

  ghost function Run(s: System, actions: seq<Action>): System
    decreases |actions|
  {
    if actions == [] then s else Run(Apply(s, actions[0]), actions[1..])
  }

  function Start(maxLen: nat, capacity: nat): System {
    System(Host(maxLen, capacity, [], map[]), 0, [], map[], map[])
  }

  /** Connection events name handles that are not connected. */
  predicate Fresh(s: System, a: Action) {
    a.Connect? ==> a.h !in s.host.pending
  }

  /** Connection events name handles with no packets counted. */
  predicate Idle(s: System, a: Action) {
    a.Connect? ==> a.h !in s.host.pending || s.host.pending[a.h] == 0
  }

  /** Connection events name handles with no entries queued. */
  predicate Unqueued(s: System, a: Action) {
    a.Connect? ==> For(s.host.queue, a.h) == []
  }

  /** Connection events that free counts come while a flush is suspended or nothing is queued. */
  predicate Prompt(s: System, a: Action) {
    a.Connect? ==> s.suspended > 0 || s.host.queue == [] || Idle(s, a)
  }

  /** The controller completes only packets it was given on a live handle. */
  predicate Honest(s: System, a: Action) {
    a.Completed? && a.h in s.host.pending ==> a.count <= InUse(s, a.h)
  }

  /** The application writes only on live connections. */
  predicate Live(s: System, a: Action) {
    a.Write? ==> a.h in s.host.pending
  }

  /** `ok` holds of every action of the run, in the state it is taken in. */
  ghost predicate Along(ok: (System, Action) -> bool, s: System, actions: seq<Action>)
    decreases |actions|
  {
    actions == [] || (ok(s, actions[0]) && Along(ok, Apply(s, actions[0]), actions[1..]))
  }

  /** `good` holds of every state of the run. */
  ghost predicate Throughout(good: System -> bool, s: System, actions: seq<Action>)
    decreases |actions|
  {
    good(s) && (actions == [] || Throughout(good, Apply(s, actions[0]), actions[1..]))
  }

  /** Messages that `writeAclData` accepts. */
  predicate Writable(messages: seq<Message>, max: nat) {
    && (messages != [] ==> max >= HEADER)
    && (forall m :: m in messages ==> |m.payload| < 0x1_0000)
  }

  /** Everything a connection's messages turn into, in order. */
  function AllFragments(h: Handle, messages: seq<Message>, max: nat): (r: seq<Entry>)
    requires Writable(messages, max)
  {
    if messages == [] then []
    else AllFragments(h, messages[..|messages| - 1], max) + Fragments(h, messages[|messages| - 1], max)
  }

  // ---------------------------------------------------------------- one flush

  /** A flush hands over at most one packet, of a live connection, and keeps every live connection's order. */
  lemma {:induction false} FlushKeepsOrder(s: Host, h: Handle)
    requires h in s.pending
    ensures var (t, out) := Flush(s);
      (if out.Some? && out.value.handle == h then [out.value] else []) + For(t.queue, h) == For(s.queue, h)
    decreases |s.queue|
  {
    if s.queue != [] && !Busy(s) && s.queue[0].handle !in s.pending {
      FlushKeepsOrder(s.(queue := s.queue[1..]), h);
    }
  }

  lemma {:induction false} FlushEffect(s: Host)
    requires Sum(s.pending) <= s.capacity
    ensures var (t, out) := Flush(s);
      && t.maxLen == s.maxLen && t.capacity == s.capacity
      && Sum(t.pending) <= t.capacity
      && (forall e :: e in t.queue ==> e in s.queue)
      && match out
         case None => t.pending == s.pending && (t.queue == [] || Busy(t))
         case Some(e) => e in s.queue && e.handle in s.pending
                         && t.pending == s.pending[e.handle := s.pending[e.handle] + 1]
    decreases |s.queue|
  {
    if s.queue != [] && !Busy(s) {
      var e := s.queue[0];
      var rest := s.(queue := s.queue[1..]);
      if e.handle !in s.pending {
        FlushEffect(rest);
      } else {
        SumUpdate(s.pending, e.handle, s.pending[e.handle] + 1);
      }
    }
  }

  // ---------------------------------------------------------------- what every action keeps

  /** Nothing of a live connection is lost, doubled or reordered, and the credits are respected. */
  ghost predicate Inv(s: System) {
    && Sum(s.host.pending) <= s.host.capacity
    && s.tracks.Keys == s.host.pending.Keys
    && (forall h :: h in s.tracks ==> Accounted(h, s.tracks[h], s.host.queue, s.host.maxLen))
  }

  /** What has been sent and what is queued make up the backlog and everything written since. */
  predicate Accounted(h: Handle, t: Track, queue: seq<Entry>, max: nat) {
    && Writable(t.messages, max)
    && t.sent + For(queue, h) == Owed(h, t, max)
  }

  function Owed(h: Handle, t: Track, max: nat): seq<Entry>
    requires Writable(t.messages, max)
  {
    t.backlog + AllFragments(h, t.messages, max)
  }

  lemma AccountedSent(h: Handle, t: Track, queue: seq<Entry>, max: nat, e: Entry, rest: seq<Entry>)
    requires Accounted(h, t, queue, max)
    requires [e] + For(rest, h) == For(queue, h)
    ensures Accounted(h, t.(sent := t.sent + [e]), rest, max)
  {
    assert (t.sent + [e]) + For(rest, h) == t.sent + ([e] + For(rest, h));
  }

  lemma AllFragmentsSnoc(h: Handle, messages: seq<Message>, m: Message, max: nat)
    requires Writable(messages + [m], max)
    ensures Writable(messages, max)
    ensures AllFragments(h, messages + [m], max) == AllFragments(h, messages, max) + Fragments(h, m, max)
  {
    assert forall n :: n in messages ==> n in messages + [m];
    assert (messages + [m])[..|messages|] == messages;
  }

  lemma AccountedQueued(h: Handle, t: Track, queue: seq<Entry>, max: nat, m: Message)
    requires Accounted(h, t, queue, max)
    requires max >= HEADER && |m.payload| < 0x1_0000
    ensures Accounted(h, t.(messages := t.messages + [m]), queue + Fragments(h, m, max), max)
  {
    var added := Fragments(h, m, max);
    ForAppend(queue, added, h);
    ForUniform(added, h, h);
    AllFragmentsSnoc(h, t.messages, m, max);
    Regroup(t.sent, For(queue, h), added);
    Regroup(t.backlog, AllFragments(h, t.messages, max), added);
  }

  lemma AccountedOther(h: Handle, t: Track, queue: seq<Entry>, max: nat, other: Handle, m: Message)
    requires Accounted(h, t, queue, max) && other != h
    requires max >= HEADER && |m.payload| < 0x1_0000
    ensures Accounted(h, t, queue + Fragments(other, m, max), max)
  {
    ForAppend(queue, Fragments(other, m, max), h);
    ForUniform(Fragments(other, m, max), other, h);
  }

  lemma RunFlushKeeps(s: System)
    requires Inv(s)
    ensures Inv(RunFlush(s))
    ensures RunFlush(s).host.maxLen == s.host.maxLen && RunFlush(s).host.capacity == s.host.capacity
  {
    FlushEffect(s.host);
    var (host, out) := Flush(s.host);
    var r := RunFlush(s);
    forall h | h in r.tracks
      ensures Accounted(h, r.tracks[h], r.host.queue, r.host.maxLen)
    {
      FlushKeepsOrder(s.host, h);
      if out.Some? && out.value.handle == h {
        AccountedSent(h, s.tracks[h], s.host.queue, s.host.maxLen, out.value, host.queue);
      } else {
        assert [] + For(host.queue, h) == For(host.queue, h);
      }
    }
  }

  lemma ConnectedKeeps(s: System, h: Handle)
    requires Inv(s)
    ensures Inv(Connected(s, h))
  {
    SumUpdate(s.host.pending, h, 0);
  }

  lemma DisconnectedKeeps(s: System, h: Handle)
    requires Inv(s)
    ensures Inv(Disconnected(s, h))
  {
    SumDelete(s.host.pending, h);
    forall k | k in Disconnected(s, h).tracks
      ensures Accounted(k, s.tracks[k], Without(s.host.queue, h), s.host.maxLen)
    {
      ForWithout(s.host.queue, h, k);
    }
  }

  lemma AcknowledgedKeeps(s: System, h: Handle, count: nat)
    requires Inv(s) && h in s.host.pending
    ensures Inv(Acknowledged(s, h, count))
  {
    SumUpdate(s.host.pending, h, Less(s.host.pending[h], count));
  }

  lemma QueuedKeeps(s: System, h: Handle, m: Message)
    requires Inv(s) && !Rejected(s.host, m)
    ensures Inv(Queued(s, h, m))
  {
    var r := Queued(s, h, m);
    forall k | k in r.tracks
      ensures Accounted(k, r.tracks[k], r.host.queue, r.host.maxLen)
    {
      if k == h {
        AccountedQueued(h, s.tracks[h], s.host.queue, s.host.maxLen, m);
      } else {
        AccountedOther(k, s.tracks[k], s.host.queue, s.host.maxLen, h, m);
      }
    }
  }

  lemma ApplyKeeps(s: System, a: Action)
    requires Inv(s)
    ensures Inv(Apply(s, a))
    ensures Apply(s, a).host.maxLen == s.host.maxLen && Apply(s, a).host.capacity == s.host.capacity
  {
    match a
    case Connect(h) => ConnectedKeeps(s, h);
    case Disconnect(h) =>
      DisconnectedKeeps(s, h);
      RunFlushKeeps(Disconnected(s, h));
    case Completed(h, count) =>
      if h in s.host.pending {
        AcknowledgedKeeps(s, h, count);
        RunFlushKeeps(Acknowledged(s, h, count));
      }
    case Write(h, m) =>
      if !Rejected(s.host, m) {
        QueuedKeeps(s, h, m);
        RunFlushKeeps(Queued(s, h, m));
      }
    case Resume =>
      if s.suspended > 0 {
        RunFlushKeeps(s.(suspended := s.suspended - 1));
      }
  }

  lemma {:induction false} RunKeeps(s: System, actions: seq<Action>)
    requires Inv(s)
    ensures Inv(Run(s, actions))
    ensures Run(s, actions).host.maxLen == s.host.maxLen && Run(s, actions).host.capacity == s.host.capacity
    decreases |actions|
  {
    if actions != [] {
      ApplyKeeps(s, actions[0]);
      RunKeeps(Apply(s, actions[0]), actions[1..]);
    }
  }
}
