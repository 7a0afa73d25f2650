/**
  What holds of every run of the sending half of `L2CAP`, whatever the order of connection events,
  completions, writes and resumed flushes.
 */
module AclFlowTheorems {
  import opened Bytes
  import opened AclFragmentation
  import opened AclFlow

  // ---------------------------------------------------------------- credits

  /** No run ever counts more packets than the controller announced, so `===` in the busy test is `>=`. */
  lemma CreditSafety(maxLen: nat, capacity: nat, actions: seq<Action>)
    ensures var s := Run(Start(maxLen, capacity), actions);
      && Sum(s.host.pending) <= capacity
      && (Busy(s.host) <==> Sum(s.host.pending) >= capacity)
  {
    RunKeeps(Start(maxLen, capacity), actions);
  }

  /** The host counts for every connection the buffers that the controller has in use for it. */
  predicate Mirrors(s: System) {
    s.controller == s.host.pending
  }

  lemma FlushCounts(s: Host)
    requires Sum(s.pending) <= s.capacity
    ensures Flush(s).1.None? ==> Flush(s).0.pending == s.pending
    ensures Flush(s).1.Some? ==>
      var h := Flush(s).1.value.handle; h in s.pending && Flush(s).0.pending == s.pending[h := s.pending[h] + 1]
  {
    FlushEffect(s);
  }

  lemma RunFlushMirrors(s: System)
    requires Inv(s) && s.controller == s.host.pending
    ensures RunFlush(s).controller == RunFlush(s).host.pending
  {
    FlushCounts(s.host);
  }

  lemma ConnectedMirrors(s: System, h: Handle)
    requires Mirrors(s)
    ensures Mirrors(Connected(s, h)) <==> Idle(s, Connect(h))
  {
    var r := Connected(s, h);
    assert r.controller[h] == InUse(s, h) && r.host.pending[h] == 0;
    if h !in s.host.pending || s.host.pending[h] == 0 {
      assert r.controller == r.host.pending;
    }
  }

  /** A step keeps the two counts the same if and only if it is not a second connection event that forgets packets. */
  lemma StepMirrors(s: System, a: Action)
    requires Inv(s) && Mirrors(s)
    ensures Mirrors(Apply(s, a)) <==> Idle(s, a)
  {
    match a
    case Connect(h) => ConnectedMirrors(s, h);
    case Disconnect(h) =>
      DisconnectedKeeps(s, h);
      RunFlushMirrors(Disconnected(s, h));
    case Completed(h, count) =>
      if h in s.host.pending {
        AcknowledgedKeeps(s, h, count);
        RunFlushMirrors(Acknowledged(s, h, count));
      }
    case Write(h, m) =>
      if !Rejected(s.host, m) {
        QueuedKeeps(s, h, m);
        RunFlushMirrors(Queued(s, h, m));
      }
    case Resume =>
      if s.suspended > 0 {
        RunFlushMirrors(s.(suspended := s.suspended - 1));
      }
  }

  lemma {:induction false} RunMirrors(s: System, actions: seq<Action>)
    requires Inv(s) && Mirrors(s)
    ensures Throughout(Mirrors, s, actions) <==> Along(Idle, s, actions)
    ensures Along(Idle, s, actions) ==> Mirrors(Run(s, actions))
    decreases |actions|
  {
    if actions != [] {
      StepMirrors(s, actions[0]);
      ApplyKeeps(s, actions[0]);
      if Idle(s, actions[0]) {
        RunMirrors(Apply(s, actions[0]), actions[1..]);
      }
    }
  }

  /**
    The host's counts are the controller's own in every state of a run if and only if no connection
    event in it names a handle with packets counted.
   */
  lemma CountsAreExact(maxLen: nat, capacity: nat, actions: seq<Action>)
    ensures Throughout(Mirrors, Start(maxLen, capacity), actions) <==> Along(Idle, Start(maxLen, capacity), actions)
  {
    RunMirrors(Start(maxLen, capacity), actions);
  }

  /**
    In such a run the controller is never given more packets than it has buffers, and the next
    completion it reports, of packets it was given, never reaches the clamp at 0.
   */
  lemma ControllerNeverOverrun(maxLen: nat, capacity: nat, actions: seq<Action>, next: Action)
    requires Along(Idle, Start(maxLen, capacity), actions)
    ensures var s := Run(Start(maxLen, capacity), actions);
      && s.controller == s.host.pending
      && Sum(s.controller) <= capacity
      && (next.Completed? && next.h in s.host.pending && Honest(s, next) ==>
            next.count <= s.host.pending[next.h])
  {
    RunMirrors(Start(maxLen, capacity), actions);
    CreditSafety(maxLen, capacity, actions);
  }

  const SAMPLE := Message(4, [0x0a])

  lemma SumOne(m: map<Handle, nat>, h: Handle)
    requires m.Keys == {h}
    ensures Sum(m) == m[h]
  {
    SumRemove(m, h);
    assert m - {h} == map[];
  }

  /** A second connection event that forgets packets, and the overrun it leads to. */
  lemma ReconnectOverruns()
    ensures var s := Run(Start(27, 1), [Connect(1), Write(1, SAMPLE), Connect(1), Write(1, SAMPLE)]);
      s.controller == map[1 := 2] && s.host.capacity == 1
  {
    var s1 := Apply(Start(27, 1), Connect(1));
    var s2 := OneWritten(s1);
    var s3 := Apply(s2, Connect(1));
    var s4 := OneWritten(s3);
    RunFour(Start(27, 1), Connect(1), Write(1, SAMPLE), Connect(1), Write(1, SAMPLE));
  }

  function One(h: Handle): Entry {
    Entry(h, Pdu(SAMPLE), FirstNoFlushFrag, PointToPoint)
  }

  lemma SampleFits(h: Handle)
    ensures Fragments(h, SAMPLE, 27) == [One(h)]
  {
  }

  /** With one idle connection and one free buffer, a short message goes out at once. */
  lemma OneWritten(s: System) returns (r: System)
    requires s.host.maxLen == 27 && s.host.capacity == 1 && s.host.queue == [] && s.host.pending == map[1 := 0]
    ensures r == Apply(s, Write(1, SAMPLE))
    ensures r.host == Host(27, 1, [], map[1 := 1]) && r.suspended == s.suspended + 1
    ensures r.controller == s.controller[1 := InUse(s, 1) + 1]
    ensures r.tracks.Keys == s.tracks.Keys
  {
    SampleFits(1);
    SumOne(s.host.pending, 1);
    r := WrittenAlone(s, 1, SAMPLE, One(1));
  }

  lemma WrittenAlone(s: System, h: Handle, m: Message, e: Entry) returns (r: System)
    requires !Rejected(s.host, m) && s.host.queue == [] && Fragments(h, m, s.host.maxLen) == [e] && e.handle == h
    requires h in s.host.pending && !Busy(s.host)
    ensures r == Apply(s, Write(h, m))
    ensures r.host == s.host.(pending := s.host.pending[h := s.host.pending[h] + 1])
    ensures r.suspended == s.suspended + 1 && r.controller == s.controller[h := InUse(s, h) + 1] &&
      r.tracks.Keys == s.tracks.Keys
  {
    var q := Queued(s, h, m);
    assert q.host.queue == [e];
    FlushSends(q, e);
    r := Send(q.(host := q.host.(queue := [], pending := q.host.pending[h := q.host.pending[h] + 1])), e);
  }

  lemma RunFour(s: System, a: Action, b: Action, c: Action, d: Action)
    ensures Run(s, [a, b, c, d]) == Apply(Apply(Apply(Apply(s, a), b), c), d)
  {
    RunSnoc(s, [], a);
    RunSnoc(s, [a], b);
    RunSnoc(s, [a, b], c);
    RunSnoc(s, [a, b, c], d);
    assert [] + [a] == [a] && [a] + [b] == [a, b];
    assert [a, b] + [c] == [a, b, c] && [a, b, c] + [d] == [a, b, c, d];
  }

  lemma {:induction false} RunSnoc(s: System, actions: seq<Action>, a: Action)
    ensures Run(s, actions + [a]) == Apply(Run(s, actions), a)
    decreases |actions|
  {
    if actions == [] {
      assert [a][1..] == [] && [] + [a] == [a];
      assert Run(Apply(s, a), []) == Apply(s, a);
    } else {
      assert (actions + [a])[1..] == actions[1..] + [a];
      RunSnoc(Apply(s, actions[0]), actions[1..], a);
    }
  }

  lemma FlushWaits(s: System)
    requires s.host.queue == [] || Busy(s.host)
    ensures RunFlush(s) == s
  {
  }

  lemma FlushSends(s: System, e: Entry)
    requires s.host.queue == [e] && e.handle in s.host.pending && !Busy(s.host)
    ensures RunFlush(s) == Send(s.(host := s.host.(queue := [],
                                     pending := s.host.pending[e.handle := s.host.pending[e.handle] + 1])), e)
  {
    assert s.host.queue[1..] == [];
  }

  // ---------------------------------------------------------------- exactly once, in order

  /**
    In every run, what a live connection has sent since its connection event, followed by what is still
    queued for it, is what was queued for its handle at that event followed by the fragments of its
    messages, whatever other connections, disconnections and overlapping flushes did.
   */
  lemma ExactlyOnceInOrder(maxLen: nat, capacity: nat, actions: seq<Action>, h: Handle)
    ensures var s := Run(Start(maxLen, capacity), actions);
      h in s.host.pending ==>
        && h in s.tracks && Writable(s.tracks[h].messages, maxLen)
        && s.tracks[h].sent + For(s.host.queue, h) == Owed(h, s.tracks[h], maxLen)
  {
    RunKeeps(Start(maxLen, capacity), actions);
    var s := Run(Start(maxLen, capacity), actions);
    if h in s.tracks {
      assert Accounted(h, s.tracks[h], s.host.queue, s.host.maxLen);
    }
  }

  ghost predicate NoBacklog(s: System) {
    forall h :: h in s.tracks ==> s.tracks[h].backlog == []
  }

  /** What a live connection has sent and has queued is exactly what was written on it. */
  ghost predicate AsWritten(s: System) {
    forall h :: h in s.tracks ==>
      && Writable(s.tracks[h].messages, s.host.maxLen)
      && s.tracks[h].sent + For(s.host.queue, h) == AllFragments(h, s.tracks[h].messages, s.host.maxLen)
  }

  lemma BacklogTells(s: System, h: Handle)
    requires Inv(s) && h in s.tracks
    ensures Writable(s.tracks[h].messages, s.host.maxLen)
    ensures s.tracks[h].sent + For(s.host.queue, h) == AllFragments(h, s.tracks[h].messages, s.host.maxLen) <==>
      s.tracks[h].backlog == []
  {
    var t := s.tracks[h];
    assert Accounted(h, t, s.host.queue, s.host.maxLen);
    var all := AllFragments(h, t.messages, s.host.maxLen);
    if t.backlog == [] {
      assert [] + all == all;
    } else {
      assert |t.backlog + all| > |all|;
    }
  }

  lemma BacklogTellsAll(s: System)
    requires Inv(s)
    ensures AsWritten(s) <==> NoBacklog(s)
  {
    forall h | h in s.tracks
      ensures Writable(s.tracks[h].messages, s.host.maxLen)
      ensures s.tracks[h].sent + For(s.host.queue, h) == AllFragments(h, s.tracks[h].messages, s.host.maxLen) <==>
        s.tracks[h].backlog == []
    {
      BacklogTells(s, h);
    }
  }

  lemma RunFlushBacklog(s: System)
    ensures NoBacklog(RunFlush(s)) <==> NoBacklog(s)
  {
    var r := RunFlush(s);
    assert r.tracks.Keys == s.tracks.Keys && forall h :: h in s.tracks ==> r.tracks[h].backlog == s.tracks[h].backlog;
  }

  lemma StepBacklog(s: System, a: Action)
    requires NoBacklog(s)
    ensures NoBacklog(Apply(s, a)) <==> Unqueued(s, a)
  {
    match a
    case Connect(h) => assert Connected(s, h).tracks[h].backlog == For(s.host.queue, h);
    case Disconnect(h) => RunFlushBacklog(Disconnected(s, h));
    case Completed(h, count) =>
      if h in s.host.pending {
        RunFlushBacklog(Acknowledged(s, h, count));
      }
    case Write(h, m) =>
      if !Rejected(s.host, m) {
        RunFlushBacklog(Queued(s, h, m));
      }
    case Resume =>
      if s.suspended > 0 {
        RunFlushBacklog(s.(suspended := s.suspended - 1));
      }
  }

  lemma {:induction false} RunAsWritten(s: System, actions: seq<Action>)
    requires Inv(s) && NoBacklog(s)
    ensures Throughout(AsWritten, s, actions) <==> Along(Unqueued, s, actions)
    ensures Along(Unqueued, s, actions) ==> AsWritten(Run(s, actions))
    decreases |actions|
  {
    BacklogTellsAll(s);
    if actions != [] {
      var next := Apply(s, actions[0]);
      StepBacklog(s, actions[0]);
      ApplyKeeps(s, actions[0]);
      BacklogTellsAll(next);
      if Unqueued(s, actions[0]) {
        RunAsWritten(next, actions[1..]);
      }
    }
  }

  /**
    In every state of a run all live connections have sent and queued exactly what was written on them
    if and only if no connection event in it finds entries for its handle in the queue.
   */
  lemma WrittenIsExact(maxLen: nat, capacity: nat, actions: seq<Action>)
    ensures Throughout(AsWritten, Start(maxLen, capacity), actions) <==>
      Along(Unqueued, Start(maxLen, capacity), actions)
  {
    RunAsWritten(Start(maxLen, capacity), actions);
  }

  lemma SentIsWhatWasWritten(maxLen: nat, capacity: nat, actions: seq<Action>, h: Handle)
    requires Along(Unqueued, Start(maxLen, capacity), actions)
    requires h in Run(Start(maxLen, capacity), actions).host.pending
    ensures var s := Run(Start(maxLen, capacity), actions);
      && h in s.tracks && Writable(s.tracks[h].messages, maxLen)
      && s.tracks[h].sent + For(s.host.queue, h) ==
         AllFragments(h, s.tracks[h].messages, maxLen)
  {
    RunKeeps(Start(maxLen, capacity), actions);
    RunAsWritten(Start(maxLen, capacity), actions);
  }

  // ---------------------------------------------------------------- a discipline that is enough

  /** Connection events on handles that are not connected, writes on handles that are. */
  predicate Disciplined(s: System, a: Action) {
    Fresh(s, a) && Live(s, a)
  }

  /** Every queued entry belongs to a live connection. */
  ghost predicate Tidy(s: System) {
    forall e :: e in s.host.queue ==> e.handle in s.host.pending
  }

  lemma RunFlushTidy(s: System)
    requires Inv(s) && Tidy(s)
    ensures Tidy(RunFlush(s))
  {
    FlushEffect(s.host);
  }

  lemma QueuedTidy(s: System, h: Handle, m: Message)
    requires Tidy(s) && h in s.host.pending && !Rejected(s.host, m)
    ensures Tidy(Queued(s, h, m))
  {
  }

  lemma DisconnectedTidy(s: System, h: Handle)
    requires Tidy(s)
    ensures Tidy(Disconnected(s, h))
  {
  }

  lemma ApplyTidy(s: System, a: Action)
    requires Inv(s) && Tidy(s) && Disciplined(s, a)
    ensures Tidy(Apply(s, a))
  {
    match a
    case Connect(h) =>
    case Disconnect(h) =>
      DisconnectedKeeps(s, h);
      DisconnectedTidy(s, h);
      RunFlushTidy(Disconnected(s, h));
    case Completed(h, count) =>
      if h in s.host.pending {
        AcknowledgedKeeps(s, h, count);
        RunFlushTidy(Acknowledged(s, h, count));
      }
    case Write(h, m) =>
      if !Rejected(s.host, m) {
        QueuedKeeps(s, h, m);
        QueuedTidy(s, h, m);
        RunFlushTidy(Queued(s, h, m));
      }
    case Resume =>
      if s.suspended > 0 {
        RunFlushTidy(s.(suspended := s.suspended - 1));
      }
  }

  /** A disciplined run meets all the conditions that the other theorems name. */
  lemma {:induction false} DisciplineIsEnough(s: System, actions: seq<Action>)
    requires Inv(s) && Tidy(s) && Along(Disciplined, s, actions)
    ensures Along(Idle, s, actions) && Along(Unqueued, s, actions) && Along(Prompt, s, actions) &&
      Along(Steady, s, actions)
    decreases |actions|
  {
    if actions != [] {
      var a := actions[0];
      if a.Connect? {
        ForAbsent(s.host.queue, a.h);
      }
      ApplyTidy(s, a);
      ApplyKeeps(s, a);
      DisciplineIsEnough(Apply(s, a), actions[1..]);
    }
  }

  /** A write to an absent handle while the controller is busy waits for its next user. */
  lemma StaleFragmentIsSent()
    ensures var s := Run(Start(27, 1), [Connect(1), Write(1, SAMPLE), Write(2, SAMPLE), Connect(2), Completed(1, 1)]);
      && 2 in s.tracks && s.tracks[2].messages == []
      && s.tracks[2].sent == Fragments(2, SAMPLE, 27) != []
  {
    var s1 := Apply(Start(27, 1), Connect(1));
    var s2 := OneWritten(s1);
    SumOne(s2.host.pending, 1);
    SampleFits(2);
    var s3 := Queued(s2, 2, SAMPLE);
    assert s3.host.queue == [One(2)];
    FlushWaits(s3);
    var s4 := Apply(s3, Connect(2));
    var s5 := Acknowledged(s4, 1, 1);
    assert s5.host.pending == map[1 := 0, 2 := 0];
    SumZero(s5.host.pending);
    FlushSends(s5, One(2));
    RunFour(Start(27, 1), Connect(1), Write(1, SAMPLE), Write(2, SAMPLE), Connect(2));
    RunSnoc(Start(27, 1), [Connect(1), Write(1, SAMPLE), Write(2, SAMPLE), Connect(2)], Completed(1, 1));
    assert [Connect(1), Write(1, SAMPLE), Write(2, SAMPLE), Connect(2)] + [Completed(1, 1)]
        == [Connect(1), Write(1, SAMPLE), Write(2, SAMPLE), Connect(2), Completed(1, 1)];
  }

  /** The packets counted as sent are the last ones handed to the controller for that handle. */
  ghost predicate OnWire(s: System) {
    forall h :: h in s.tracks ==> EndsWith(For(s.wire, h), s.tracks[h].sent)
  }

  ghost predicate EndsWith<T(!new)>(whole: seq<T>, end: seq<T>) {
    exists front: seq<T> :: whole == front + end
  }

  lemma SentOnWire(wire: seq<Entry>, h: Handle, sent: seq<Entry>, e: Entry)
    requires EndsWith(For(wire, h), sent)
    ensures EndsWith(For(wire + [e], h), if e.handle == h then sent + [e] else sent)
  {
    var front :| For(wire, h) == front + sent;
    ForAppend(wire, [e], h);
    ForUniform([e], e.handle, h);
    if e.handle == h {
      Regroup(front, sent, [e]);
      assert For(wire + [e], h) == front + (sent + [e]);
    } else {
      assert For(wire + [e], h) == front + sent;
    }
  }

  lemma RunFlushOnWire(s: System)
    requires OnWire(s)
    ensures OnWire(RunFlush(s))
  {
    var r := RunFlush(s);
    var out := Flush(s.host).1;
    forall h | h in r.tracks
      ensures EndsWith(For(r.wire, h), r.tracks[h].sent)
    {
      assert EndsWith(For(s.wire, h), s.tracks[h].sent);
      if out.Some? {
        SentOnWire(s.wire, h, s.tracks[h].sent, out.value);
      }
    }
  }

  lemma {:induction false} RunOnWire(s: System, actions: seq<Action>)
    requires OnWire(s)
    ensures OnWire(Run(s, actions))
    decreases |actions|
  {
    if actions != [] {
      var a := actions[0];
      match a {
        case Connect(h) =>
          assert For(s.wire, h) == For(s.wire, h) + [];
          assert EndsWith(For(s.wire, h), Connected(s, h).tracks[h].sent);
        case Disconnect(h) => RunFlushOnWire(Disconnected(s, h));
        case Completed(h, count) =>
          if h in s.host.pending { RunFlushOnWire(Acknowledged(s, h, count)); }
        case Write(h, m) =>
          if !Rejected(s.host, m) { RunFlushOnWire(Queued(s, h, m)); }
        case Resume =>
          if s.suspended > 0 { RunFlushOnWire(s.(suspended := s.suspended - 1)); }
      }
      RunOnWire(Apply(s, a), actions[1..]);
    }
  }

  // ---------------------------------------------------------------- no stalls

  /** Nothing waits while the controller has room, unless a flush is about to continue. */
  ghost predicate Working(s: System) {
    s.suspended == 0 ==> s.host.queue == [] || Busy(s.host)
  }

  lemma ConnectedWorking(s: System, h: Handle)
    requires Inv(s) && Working(s)
    ensures Working(Connected(s, h)) <==> Prompt(s, Connect(h))
  {
    SumUpdate(s.host.pending, h, 0);
  }

  /** A step leaves no work waiting if and only if it is not a second connection event that frees counts unnoticed. */
  lemma StepWorking(s: System, a: Action)
    requires Inv(s) && Working(s)
    ensures Working(Apply(s, a)) <==> Prompt(s, a)
  {
    match a
    case Connect(h) => ConnectedWorking(s, h);
    case Disconnect(h) =>
      DisconnectedKeeps(s, h);
      FlushEffect(Disconnected(s, h).host);
    case Completed(h, count) =>
      if h in s.host.pending {
        AcknowledgedKeeps(s, h, count);
        FlushEffect(Acknowledged(s, h, count).host);
      }
    case Write(h, m) =>
      if !Rejected(s.host, m) {
        QueuedKeeps(s, h, m);
        FlushEffect(Queued(s, h, m).host);
      }
    case Resume => FlushEffect(s.host);
  }

  lemma {:induction false} RunWorking(s: System, actions: seq<Action>)
    requires Inv(s) && Working(s)
    ensures Throughout(Working, s, actions) <==> Along(Prompt, s, actions)
    ensures Along(Prompt, s, actions) ==> Working(Run(s, actions))
    decreases |actions|
  {
    if actions != [] {
      StepWorking(s, actions[0]);
      ApplyKeeps(s, actions[0]);
      if Prompt(s, actions[0]) {
        RunWorking(Apply(s, actions[0]), actions[1..]);
      }
    }
  }

  /**
    In every state of a run, whenever no flush is suspended, the queue is empty or every controller
    buffer is in use, if and only if every connection event in it is prompt.
   */
  lemma WorkIsConservedExactly(maxLen: nat, capacity: nat, actions: seq<Action>)
    ensures Throughout(Working, Start(maxLen, capacity), actions) <==> Along(Prompt, Start(maxLen, capacity), actions)
  {
    RunWorking(Start(maxLen, capacity), actions);
  }

  lemma WorkConservation(maxLen: nat, capacity: nat, actions: seq<Action>)
    requires Along(Prompt, Start(maxLen, capacity), actions)
    ensures var s := Run(Start(maxLen, capacity), actions);
      s.suspended == 0 ==> s.host.queue == [] || Sum(s.host.pending) == capacity
  {
    RunKeeps(Start(maxLen, capacity), actions);
    RunWorking(Start(maxLen, capacity), actions);
  }

  /** A second connection event that frees the count without starting a flush, and the stall it leads to. */
  lemma ReconnectStalls()
    ensures var s := Run(Start(27, 1), [Connect(1), Write(1, SAMPLE), Write(1, SAMPLE), Resume, Connect(1)]);
      s.suspended == 0 && s.host.queue != [] && Sum(s.host.pending) == 0 < s.host.capacity
  {
    var s1 := Apply(Start(27, 1), Connect(1));
    var s2 := OneWritten(s1);
    SumOne(s2.host.pending, 1);
    SampleFits(1);
    var s3 := Queued(s2, 1, SAMPLE);
    assert s3.host.queue == [One(1)];
    FlushWaits(s3);
    var s4 := s3.(suspended := 0);
    FlushWaits(s4);
    var s5 := Apply(s4, Connect(1));
    SumOne(s5.host.pending, 1);
    RunFour(Start(27, 1), Connect(1), Write(1, SAMPLE), Write(1, SAMPLE), Resume);
    RunSnoc(Start(27, 1), [Connect(1), Write(1, SAMPLE), Write(1, SAMPLE), Resume], Connect(1));
    assert [Connect(1), Write(1, SAMPLE), Write(1, SAMPLE), Resume] + [Connect(1)]
        == [Connect(1), Write(1, SAMPLE), Write(1, SAMPLE), Resume, Connect(1)];
  }

  lemma {:induction false} SumZero(m: map<Handle, nat>)
    requires forall h :: h in m ==> m[h] == 0
    ensures Sum(m) == 0
    decreases |m|
  {
    if m != map[] {
      var h :| h in m;
      SumRemove(m, h);
      Shrinks(m, h);
      SumZero(m - {h});
    }
  }

  /** Connection events name handles with nothing counted and nothing queued. */
  predicate Steady(s: System, a: Action) {
    Idle(s, a) && Unqueued(s, a)
  }

  lemma {:induction false} SteadyIsAll(s: System, actions: seq<Action>)
    requires Along(Steady, s, actions)
    ensures Along(Idle, s, actions) && Along(Unqueued, s, actions) && Along(Prompt, s, actions)
    decreases |actions|
  {
    if actions != [] {
      SteadyIsAll(Apply(s, actions[0]), actions[1..]);
    }
  }

  /**
    Nothing is stuck: once no flush is suspended and the controller holds no packet, every live
    connection has sent every fragment of every message it was asked to send, once and in order.
   */
  lemma QuietMeansAllSent(maxLen: nat, capacity: nat, actions: seq<Action>, h: Handle)
    requires capacity > 0
    requires Along(Steady, Start(maxLen, capacity), actions)
    requires var s := Run(Start(maxLen, capacity), actions);
      s.suspended == 0 && (forall k :: k in s.controller ==> s.controller[k] == 0) && h in s.host.pending
    ensures var s := Run(Start(maxLen, capacity), actions);
      && h in s.tracks && Writable(s.tracks[h].messages, maxLen)
      && s.tracks[h].sent == AllFragments(h, s.tracks[h].messages, maxLen)
      && EndsWith(For(s.wire, h), s.tracks[h].sent)
  {
    SteadyIsAll(Start(maxLen, capacity), actions);
    var s := Run(Start(maxLen, capacity), actions);
    RunMirrors(Start(maxLen, capacity), actions);
    SumZero(s.host.pending);
    WorkConservation(maxLen, capacity, actions);
    SentIsWhatWasWritten(maxLen, capacity, actions, h);
    RunOnWire(Start(maxLen, capacity), actions);
    assert s.tracks[h].sent + [] == s.tracks[h].sent;
  }
}
