/**
  What the counts and records of the sending half of `L2CAP` say of a run, told from the run itself: its
  actions, and the packets handed over while they were taken.
 */
module AclAccounts {
  import opened Bytes
  import opened AclFragmentation
  import opened AclFlow
  import opened AclFlowTheorems

  /** How many actions there are up to the last connection event for a handle. */
  function Connection(actions: seq<Action>, h: Handle): (k: nat)
    ensures k <= |actions|
  {
    if actions == [] then 0
    else if actions[|actions| - 1] == Connect(h) then |actions|
    else Connection(actions[..|actions| - 1], h)
  }

  /** And up to the last disconnection event. */
  function Disconnection(actions: seq<Action>, h: Handle): (k: nat)
    ensures k <= |actions|
  {
    if actions == [] then 0
    else if actions[|actions| - 1] == Disconnect(h) then |actions|
    else Disconnection(actions[..|actions| - 1], h)
  }

  /** The packets the controller has completed on a handle. */
  function Returned(actions: seq<Action>, h: Handle): nat {
    if actions == [] then 0
    else
      var a := actions[|actions| - 1];
      Returned(actions[..|actions| - 1], h) + if a.Completed? && a.h == h then a.count else 0
  }

  /** The messages written on a handle, but those whose write throws. */
  function Asked(actions: seq<Action>, h: Handle, maxLen: nat): seq<Message> {
    if actions == [] then []
    else
      var a := actions[|actions| - 1];
      Asked(actions[..|actions| - 1], h, maxLen)
        + if a.Write? && a.h == h && maxLen >= 4 && |a.m.payload| < 0x1_0000 then [a.m] else []
  }

  /** How many packets have been handed over after the first `n` actions of a run. */
  ghost function HandedAt(s: System, actions: seq<Action>, n: nat): nat
    requires n <= |actions|
  {
    |Run(s, actions[..n]).wire|
  }

  lemma Snoc(s: System, actions: seq<Action>)
    requires actions != []
    ensures Run(s, actions) == Apply(Run(s, actions[..|actions| - 1]), actions[|actions| - 1])
  {
    RunSnoc(s, actions[..|actions| - 1], actions[|actions| - 1]);
    assert actions == actions[..|actions| - 1] + [actions[|actions| - 1]];
  }

  // ---------------------------------------------------------------- one step

  /** What a flush hands over. */
  ghost function Flushed(s: System): seq<Entry> {
    match Flush(s.host).1
    case None => []
    case Some(e) => [e]
  }

  lemma RunFlushTells(s: System, h: Handle)
    requires Sum(s.host.pending) <= s.host.capacity
    ensures RunFlush(s).wire == s.wire + Flushed(s)
    ensures RunFlush(s).host.pending.Keys == s.host.pending.Keys
    ensures h in s.host.pending ==> RunFlush(s).host.pending[h] == s.host.pending[h] + |For(Flushed(s), h)|
  {
    FlushCounts(s.host);
    assert s.wire + [] == s.wire;
    if Flush(s.host).1.Some? {
      ForUniform(Flushed(s), Flush(s.host).1.value.handle, h);
    }
  }

  lemma RunFlushRecords(s: System, h: Handle)
    requires h in s.tracks
    ensures h in RunFlush(s).tracks
    ensures RunFlush(s).tracks[h] == s.tracks[h].(sent := s.tracks[h].sent + For(Flushed(s), h))
  {
    var t := s.tracks[h];
    assert t.sent + [] == t.sent;
    if Flush(s.host).1.Some? {
      ForUniform(Flushed(s), Flush(s.host).1.value.handle, h);
    }
  }

  /** The state from which the flush of a step starts, if it has one. */
  ghost function Before(s: System, a: Action): Option<System> {
    match a
    case Connect(h) => None
    case Disconnect(h) => Some(Disconnected(s, h))
    case Completed(h, count) => if h !in s.host.pending then None else Some(Acknowledged(s, h, count))
    case Write(h, m) => if Rejected(s.host, m) then None else Some(Queued(s, h, m))
    case Resume => if s.suspended == 0 then None else Some(s.(suspended := s.suspended - 1))
  }

  lemma BeforeKeeps(s: System, a: Action)
    requires Inv(s)
    ensures Before(s, a).Some? ==> Inv(Before(s, a).value) && Apply(s, a) == RunFlush(Before(s, a).value)
  {
    match a
    case Connect(h) =>
    case Disconnect(h) => DisconnectedKeeps(s, h);
    case Completed(h, count) =>
      if h in s.host.pending {
        AcknowledgedKeeps(s, h, count);
      }
    case Write(h, m) =>
      if !Rejected(s.host, m) {
        QueuedKeeps(s, h, m);
      }
    case Resume =>
  }

  /** What a step hands over. */
  ghost function New(s: System, a: Action): seq<Entry> {
    match Before(s, a)
    case None => []
    case Some(b) => Flushed(b)
  }

  /** What a step does to a connection before it flushes. */
  lemma BeforeTells(s: System, a: Action, h: Handle)
    requires Inv(s) && a != Connect(h) && Before(s, a).Some? && h in Before(s, a).value.host.pending
    ensures var b := Before(s, a).value;
      && h in s.host.pending && h in s.tracks && h in b.tracks
      && b.host.pending[h] == Counted(s.host.pending[h], a, h)
      && b.tracks[h] == Recorded(s.tracks[h], a, h, s.host.maxLen)
  {
    var t := s.tracks[h];
    assert t.messages + [] == t.messages;
  }

  /** A completion subtracts what it reports, as far as there is something to subtract from. */
  function Counted(n: nat, a: Action, h: Handle): nat {
    if !a.Completed? || a.h != h then n else if n < a.count then 0 else n - a.count
  }

  function Recorded(t: Track, a: Action, h: Handle, maxLen: nat): Track {
    if a.Write? && a.h == h && maxLen >= 4 && |a.m.payload| < 0x1_0000 then t.(messages := t.messages + [a.m]) else t
  }

  lemma NotBefore(s: System, a: Action, h: Handle)
    requires Inv(s) && a != Connect(h) && Before(s, a).None? && h in Apply(s, a).host.pending
    ensures h in s.host.pending && h in s.tracks && h in Apply(s, a).tracks
    ensures Apply(s, a).host.pending[h] == s.host.pending[h] == Counted(s.host.pending[h], a, h)
    ensures Apply(s, a).tracks[h] == s.tracks[h] == Recorded(s.tracks[h], a, h, s.host.maxLen)
  {
  }

  /** What one step does to a connection that is live after it and does not begin with it. */
  lemma StepTells(s: System, a: Action, h: Handle)
    requires Inv(s) && h in Apply(s, a).host.pending && a != Connect(h)
    ensures h in s.host.pending && h in s.tracks && h in Apply(s, a).tracks
    ensures Apply(s, a).host.pending[h] == Counted(s.host.pending[h], a, h) + |For(New(s, a), h)|
    ensures var t := Recorded(s.tracks[h], a, h, s.host.maxLen);
      Apply(s, a).tracks[h] == t.(sent := t.sent + For(New(s, a), h))
  {
    BeforeKeeps(s, a);
    hide Inv, Apply, RunFlush, Before, Counted, Recorded;
    if Before(s, a).Some? {
      var b := Before(s, a).value;
      RunFlushTells(b, h) by { SumIsBounded(b); }
      BeforeTells(s, a, h);
      RunFlushRecords(b, h);
    } else {
      NotBefore(s, a, h);
      var t := s.tracks[h];
      assert t.sent + [] == t.sent;
    }
  }

  lemma SumIsBounded(s: System)
    requires Inv(s)
    ensures Sum(s.host.pending) <= s.host.capacity
  {
  }

  lemma StepHands(s: System, a: Action)
    requires Inv(s)
    ensures Apply(s, a).wire == s.wire + New(s, a)
  {
    BeforeKeeps(s, a);
    assert s.wire + [] == s.wire;
    if Before(s, a).Some? {
      RunFlushTells(Before(s, a).value, 0);
    }
  }

  lemma {:induction false} RunHands(s: System, actions: seq<Action>, n: nat)
    requires Inv(s) && n <= |actions|
    ensures HandedAt(s, actions, n) <= |Run(s, actions).wire|
    ensures Run(s, actions[..n]).wire <= Run(s, actions).wire
    decreases |actions|
  {
    if n == |actions| {
      assert actions[..n] == actions;
    } else {
      var front := actions[..|actions| - 1];
      Snoc(s, actions);
      RunKeeps(s, front);
      StepHands(Run(s, front), actions[|actions| - 1]);
      RunHands(s, front, n);
      assert front[..n] == actions[..n];
    }
  }

  // ---------------------------------------------------------------- since the connection event

  /** The packets handed over for a handle after the first `n` actions. */
  ghost function HandedFor(s: System, actions: seq<Action>, n: nat, h: Handle): seq<Entry>
    requires Inv(s) && n <= |actions|
  {
    RunHands(s, actions, n);
    For(Run(s, actions).wire[HandedAt(s, actions, n)..], h)
  }

  lemma HandedNext(s: System, actions: seq<Action>, n: nat, h: Handle)
    requires Inv(s) && n < |actions|
    ensures var (front, a) := (actions[..|actions| - 1], actions[|actions| - 1]);
      HandedFor(s, actions, n, h) == HandedFor(s, front, n, h) + For(New(Run(s, front), a), h)
  {
    var (front, a) := (actions[..|actions| - 1], actions[|actions| - 1]);
    Snoc(s, actions);
    RunKeeps(s, front);
    StepHands(Run(s, front), a);
    RunHands(s, front, n);
    RunHands(s, actions, n);
    assert front[..n] == actions[..n];
    var (w, k) := (Run(s, front).wire, HandedAt(s, front, n));
    assert (w + New(Run(s, front), a))[k..] == w[k..] + New(Run(s, front), a);
    ForAppend(w[k..], New(Run(s, front), a), h);
  }

  lemma HandedNone(s: System, actions: seq<Action>, h: Handle)
    requires Inv(s)
    ensures HandedFor(s, actions, |actions|, h) == []
  {
    assert actions[..|actions|] == actions;
    assert Run(s, actions).wire[|Run(s, actions).wire|..] == [];
  }

  /**
    The records of a live connection are what the run says: the packets handed over since its connection
    event, the messages written since, and what was queued for its handle then.
   */
  lemma {:induction false} RecordsAreExact(maxLen: nat, capacity: nat, actions: seq<Action>, h: Handle)
    requires h in Run(Start(maxLen, capacity), actions).host.pending
    ensures var (s, k) := (Start(maxLen, capacity), Connection(actions, h));
      && h in Run(s, actions).tracks && 0 < k
      && Run(s, actions).tracks[h].sent == HandedFor(s, actions, k, h)
      && Run(s, actions).tracks[h].messages == Asked(actions[k..], h, maxLen)
      && Run(s, actions).tracks[h].backlog == For(Run(s, actions[..k]).host.queue, h)
    decreases |actions|
  {
    var s := Start(maxLen, capacity);
    var (front, a) := (actions[..|actions| - 1], actions[|actions| - 1]);
    RunKeeps(s, front);
    Snoc(s, actions);
    if a == Connect(h) {
      HandedNone(s, actions, h);
      assert actions[|actions|..] == [] && actions[..|actions|] == actions;
    } else {
      var k := Connection(actions, h);
      StepTells(Run(s, front), a, h);
      hide Inv, Apply, New, HandedFor, For, Asked, Run;
      RecordsAreExact(maxLen, capacity, front, h);
      HandedNext(s, actions, k, h);
      AskedNext(actions, k, h, maxLen);
      assert actions[..k] == front[..k];
    }
  }

  lemma AskedNext(actions: seq<Action>, k: nat, h: Handle, maxLen: nat)
    requires k < |actions|
    ensures var (front, a) := (actions[..|actions| - 1], actions[|actions| - 1]);
      Asked(actions[k..], h, maxLen) == Asked(front[k..], h, maxLen)
        + if a.Write? && a.h == h && maxLen >= 4 && |a.m.payload| < 0x1_0000 then [a.m] else []
  {
    assert actions[k..][..|actions[k..]| - 1] == actions[..|actions| - 1][k..];
    assert actions[k..][|actions[k..]| - 1] == actions[|actions| - 1];
  }

  /** The controller completes no more packets of a live connection than it was handed on it. */
  ghost predicate Owing(s: System, actions: seq<Action>, h: Handle)
    requires Inv(s)
    decreases |actions|
  {
    actions == [] ||
      var (front, a) := (actions[..|actions| - 1], actions[|actions| - 1]);
      var k := Connection(front, h);
      && Owing(s, front, h)
      && (a.Completed? && a.h == h && h in Run(s, front).host.pending ==>
            Returned(front[k..], h) + a.count <= |HandedFor(s, front, k, h)|)
  }

  /**
    In every run, a live connection's pending count is the number of packets handed over on it since its
    connection event, less those that the controller has completed since.
   */
  lemma {:induction false} PendingIsExact(maxLen: nat, capacity: nat, actions: seq<Action>, h: Handle)
    requires Owing(Start(maxLen, capacity), actions, h)
    requires h in Run(Start(maxLen, capacity), actions).host.pending
    ensures var (s, k) := (Start(maxLen, capacity), Connection(actions, h));
      Run(s, actions).host.pending[h] == |HandedFor(s, actions, k, h)| - Returned(actions[k..], h)
    decreases |actions|
  {
    var s := Start(maxLen, capacity);
    var (front, a) := (actions[..|actions| - 1], actions[|actions| - 1]);
    RunKeeps(s, front);
    Snoc(s, actions);
    if a == Connect(h) {
      HandedNone(s, actions, h);
      assert actions[|actions|..] == [];
    } else {
      var k := Connection(actions, h);
      StepTells(Run(s, front), a, h);
      PendingIsExact(maxLen, capacity, front, h);
      HandedNext(s, actions, k, h);
      assert actions[k..][..|actions[k..]| - 1] == front[k..];
      assert actions[k..][|actions[k..]| - 1] == a;
    }
  }

  // ---------------------------------------------------------------- the controller's buffers

  /** The packets of a handle that the controller holds: handed over since it dropped all, and not completed. */
  ghost function Occupied(s: System, actions: seq<Action>, h: Handle): int
    requires Inv(s)
  {
    var k := Disconnection(actions, h);
    |HandedFor(s, actions, k, h)| - Returned(actions[k..], h)
  }

  /** The controller completes no more packets of a handle than it holds. */
  ghost predicate Truthful(s: System, actions: seq<Action>, h: Handle)
    requires Inv(s)
    decreases |actions|
  {
    actions == [] ||
      var (front, a) := (actions[..|actions| - 1], actions[|actions| - 1]);
      Truthful(s, front, h) && (a.Completed? && a.h == h ==> a.count <= Occupied(s, front, h))
  }

  /** The controller holds packets of live connections only. */
  predicate Attached(s: System) {
    s.controller.Keys <= s.host.pending.Keys
  }

  lemma RunFlushHolds(s: System, h: Handle)
    requires Sum(s.host.pending) <= s.host.capacity && Attached(s)
    ensures Attached(RunFlush(s)) && InUse(RunFlush(s), h) == InUse(s, h) + |For(Flushed(s), h)|
    ensures h !in s.host.pending ==> For(Flushed(s), h) == []
  {
    FlushCounts(s.host);
    if Flush(s.host).1.Some? {
      ForUniform(Flushed(s), Flush(s.host).1.value.handle, h);
    }
  }

  /** What a step leaves the controller with before it flushes. */
  function Holds(n: nat, a: Action, h: Handle): nat {
    if a == Disconnect(h) then 0 else Counted(n, a, h)
  }

  lemma BeforeHolds(s: System, a: Action, h: Handle)
    requires Inv(s) && Attached(s) && Before(s, a).Some?
    ensures Attached(Before(s, a).value) && InUse(Before(s, a).value, h) == Holds(InUse(s, h), a, h)
    ensures a == Disconnect(h) ==> h !in Before(s, a).value.host.pending
  {
  }

  lemma StepHolds(s: System, a: Action, h: Handle)
    requires Inv(s) && Attached(s)
    ensures Attached(Apply(s, a)) && InUse(Apply(s, a), h) == Holds(InUse(s, h), a, h) + |For(New(s, a), h)|
    ensures a == Disconnect(h) ==> For(New(s, a), h) == []
  {
    BeforeKeeps(s, a);
    if Before(s, a).Some? {
      var b := Before(s, a).value;
      SumIsBounded(b);
      BeforeHolds(s, a, h);
      RunFlushHolds(b, h);
    }
  }

  /** The model's controller holds what the run says, as long as it completes only what it holds. */
  lemma {:induction false} ControllerIsExact(maxLen: nat, capacity: nat, actions: seq<Action>, h: Handle)
    requires Truthful(Start(maxLen, capacity), actions, h)
    ensures var s := Start(maxLen, capacity);
      Attached(Run(s, actions)) && InUse(Run(s, actions), h) == Occupied(s, actions, h)
    decreases |actions|
  {
    var s := Start(maxLen, capacity);
    if actions == [] {
      HandedNone(s, actions, h);
    } else {
      var (front, a) := (actions[..|actions| - 1], actions[|actions| - 1]);
      RunKeeps(s, front);
      Snoc(s, actions);
      ControllerIsExact(maxLen, capacity, front, h);
      StepHolds(Run(s, front), a, h);
      if a == Disconnect(h) {
        HandedNone(s, actions, h);
        assert actions[|actions|..] == [];
      } else {
        var k := Disconnection(actions, h);
        HandedNext(s, actions, k, h);
        assert actions[k..][..|actions[k..]| - 1] == front[k..];
        assert actions[k..][|actions[k..]| - 1] == a;
      }
    }
  }

  lemma {:induction false} SumBelow(m: map<Handle, nat>, n: map<Handle, nat>)
    requires forall h :: h in m ==> m[h] <= if h in n then n[h] else 0
    ensures Sum(m) <= Sum(n)
    decreases |m|
  {
    if m != map[] {
      var h :| h in m;
      SumRemove(m, h);
      Shrinks(m, h);
      SumDelete(n, h);
      SumBelow(m - {h}, n - {h});
    }
  }

  /**
    In a run in which no connection event forgets packets, and the controller completes only what it holds,
    it never holds more packets than it has buffers, whichever handles they are counted over.
   */
  lemma BuffersAreEnough(maxLen: nat, capacity: nat, actions: seq<Action>, held: map<Handle, nat>)
    requires Along(Idle, Start(maxLen, capacity), actions)
    requires forall h :: Truthful(Start(maxLen, capacity), actions, h)
    requires forall h :: h in held ==> held[h] == Occupied(Start(maxLen, capacity), actions, h)
    ensures Sum(held) <= capacity
  {
    var s := Start(maxLen, capacity);
    forall h | h in held
      ensures held[h] <= if h in Run(s, actions).controller then Run(s, actions).controller[h] else 0
    {
      ControllerIsExact(maxLen, capacity, actions, h);
    }
    RunMirrors(s, actions);
    CreditSafety(maxLen, capacity, actions);
    SumBelow(held, Run(s, actions).controller);
  }

  // ---------------------------------------------------------------- the flushes that wait

  function Resumed(actions: seq<Action>): nat {
    if actions == [] then 0
    else Resumed(actions[..|actions| - 1]) + if actions[|actions| - 1].Resume? then 1 else 0
  }

  /** A flush resumes only after a packet that it waits for. */
  ghost predicate Awaited(s: System, actions: seq<Action>)
    decreases |actions|
  {
    actions == [] ||
      var (front, a) := (actions[..|actions| - 1], actions[|actions| - 1]);
      Awaited(s, front) && (a.Resume? ==> Resumed(front) < |Run(s, front).wire|)
  }

  lemma RunFlushSuspends(s: System)
    ensures RunFlush(s).suspended + |s.wire| == s.suspended + |RunFlush(s).wire|
  {
  }

  /** A flush waits for every packet handed over, until it is resumed. */
  lemma {:induction false} SuspendedIsExact(maxLen: nat, capacity: nat, actions: seq<Action>)
    requires Awaited(Start(maxLen, capacity), actions)
    ensures var s := Run(Start(maxLen, capacity), actions); s.suspended + Resumed(actions) == |s.wire|
    decreases |actions|
  {
    if actions != [] {
      var (front, a) := (actions[..|actions| - 1], actions[|actions| - 1]);
      var before := Run(Start(maxLen, capacity), front);
      Snoc(Start(maxLen, capacity), actions);
      SuspendedIsExact(maxLen, capacity, front);
      hide RunFlush;
      match a
      case Connect(h) =>
      case Disconnect(h) => RunFlushSuspends(Disconnected(before, h));
      case Completed(h, count) => if h in before.host.pending { RunFlushSuspends(Acknowledged(before, h, count)); }
      case Write(h, m) => if !Rejected(before.host, m) { RunFlushSuspends(Queued(before, h, m)); }
      case Resume => RunFlushSuspends(before.(suspended := before.suspended - 1));
    }
  }
}
