/**
  Commands waiting for their results (`HciCmd`): submission with a timeout, and the scan of
  `onCmdResult`, which removes entries from the list it is iterating over.

  Each entry's `onResult` closure is its identity; it is modelled by a number. A timeout is a step that
  may be taken as long as the command's timer has not been cleared.
 */
module HciCmd {
  import opened Bytes
  import opened HciFraming

  /** `HciOpcode.build`: a 6-bit group and a 10-bit command. */
  function Opcode(ogf: nat, ocf: nat): (r: uint16)
    requires ogf < 64 && ocf < 1024
  {
    ogf * 1024 + ocf
  }

  lemma OpcodeParts(ogf: nat, ocf: nat)
    requires ogf < 64 && ocf < 1024
    ensures Opcode(ogf, ocf) / 0x400 == ogf && Opcode(ogf, ocf) % 0x400 == ocf
  {
  }

  datatype Pending = Pending(
    id: nat, opcode: uint16, connectionHandle: Option<nat>, advertisingHandle: Option<nat>)

  datatype CmdResult = CmdResult(opcode: uint16, status: nat, returnParameters: Option<seq<byte>>)

  datatype Outcome = Resolved(evt: CmdResult) | Failed(status: nat) | TimedOut | NotBuilt

  /** A call of a command's `resolve` or `reject`. */
  datatype Settlement = Settlement(id: nat, outcome: Outcome)

  /** What the scan finds at one entry; a missing or short parameter block is an assertion error. */
  datatype Verdict = Match | NoMatch | Raise

  function Compare(handle: Option<nat>, evt: CmdResult, width: nat): Verdict
    requires width == 1 || width == 2
  {
    if handle.None? then Match
    else if evt.returnParameters.None? || |evt.returnParameters.value| < width then Raise
    else if handle.value ==
        (if width == 2 then ReadLe16(evt.returnParameters.value, 0) else evt.returnParameters.value[0]) then Match
    else NoMatch
  }

  function Check(c: Pending, evt: CmdResult): Verdict {
    if c.opcode != evt.opcode then NoMatch
    else if Compare(c.connectionHandle, evt, 2) != Match then Compare(c.connectionHandle, evt, 2)
    else Compare(c.advertisingHandle, evt, 1)
  }

  function OutcomeOf(evt: CmdResult): Outcome {
    if evt.status == 0 then Resolved(evt) else Failed(evt.status)
  }

  // ---------------------------------------------------------------- which command a result is for

  predicate Carries(evt: CmdResult, bytes: seq<byte>) {
    evt.returnParameters.Some? && bytes <= evt.returnParameters.value
  }

  /** The return parameters begin with the handle, low byte first, if the command has one. */
  predicate ForConnection(c: Pending, evt: CmdResult) {
    c.connectionHandle.Some? ==>
      var h := c.connectionHandle.value;
      h < 0x1_0000 && Carries(evt, [h % 0x100, h / 0x100])
  }

  predicate ForAdvertising(c: Pending, evt: CmdResult) {
    c.advertisingHandle.Some? ==> c.advertisingHandle.value < 0x100 && Carries(evt, [c.advertisingHandle.value])
  }

  /** The result is of the command's operation, on its connection and its advertising set. */
  predicate Belongs(c: Pending, evt: CmdResult) {
    c.opcode == evt.opcode && ForConnection(c, evt) && ForAdvertising(c, evt)
  }

  predicate Shorter(evt: CmdResult, n: nat) {
    evt.returnParameters.None? || |evt.returnParameters.value| < n
  }

  /** The result is of the command's operation, but has no room for a handle that the command has. */
  predicate Malformed(c: Pending, evt: CmdResult) {
    && c.opcode == evt.opcode
    && if c.connectionHandle.Some? && Shorter(evt, 2) then true
       else ForConnection(c, evt) && c.advertisingHandle.Some? && Shorter(evt, 1)
  }

  lemma CompareTells(handle: Option<nat>, evt: CmdResult, width: nat)
    requires width == 1 || width == 2
    ensures Compare(handle, evt, width) == Raise <==> handle.Some? && Shorter(evt, width)
    ensures Compare(handle, evt, width) == Match <==> (handle.Some? ==>
      var h := handle.value;
      if width == 2 then h < 0x1_0000 && Carries(evt, [h % 0x100, h / 0x100]) else h < 0x100 && Carries(evt, [h]))
  {
    if handle.Some? && !Shorter(evt, width) {
      var (h, p) := (handle.value, evt.returnParameters.value);
      if width == 2 {
        WriteReadLe16(p, 0);
        assert h < 0x1_0000 && [h % 0x100, h / 0x100] <= p ==> p[0] == h % 0x100 && p[1] == h / 0x100;
        assert p[..2] == [p[0], p[1]] <= p;
      } else {
        assert [p[0]] <= p;
      }
    }
  }

  /** The scan's verdict on an entry. */
  lemma CheckTells(c: Pending, evt: CmdResult)
    ensures Check(c, evt) == Match <==> Belongs(c, evt)
    ensures Check(c, evt) == Raise <==> Malformed(c, evt)
  {
    CompareTells(c.connectionHandle, evt, 2);
    CompareTells(c.advertisingHandle, evt, 1);
  }

  lemma AllTold(evt: CmdResult)
    ensures forall c :: Check(c, evt) == Match <==> Belongs(c, evt)
    ensures forall c :: Check(c, evt) == Raise <==> Malformed(c, evt)
  {
    forall c
      ensures Check(c, evt) == Match <==> Belongs(c, evt)
      ensures Check(c, evt) == Raise <==> Malformed(c, evt)
    {
      CheckTells(c, evt);
    }
  }

  // ---------------------------------------------------------------- the scan, exactly

  /** How the scan treats a position of the list as it was when the scan began. */
  datatype Turn = Visited | Skipped | NotReached

  /** Removing the entry under the iterator moves its successor out of the iterator's way. */
  function TurnOf(list: seq<Pending>, evt: CmdResult, j: nat): Turn
    requires j < |list|
  {
    if j == 0 then Visited else
      match TurnOf(list, evt, j - 1)
      case NotReached => NotReached
      case Skipped => Visited
      case Visited =>
        match Check(list[j - 1], evt)
        case Match => Skipped
        case NoMatch => Visited
        case Raise => NotReached
  }

  predicate Hit(list: seq<Pending>, evt: CmdResult, j: nat)
    requires j < |list|
  {
    TurnOf(list, evt, j) == Visited && Check(list[j], evt) == Match
  }

  /** The entries among the first `n` that the scan settles, or leaves, in list order. */
  function Pick(list: seq<Pending>, evt: CmdResult, n: nat, hit: bool): seq<Pending>
    requires n <= |list|
  {
    if n == 0 then []
    else Pick(list, evt, n - 1, hit) + if Hit(list, evt, n - 1) == hit then [list[n - 1]] else []
  }

  function Settled(list: seq<Pending>, evt: CmdResult): seq<Pending> {
    Pick(list, evt, |list|, true)
  }

  function Kept(list: seq<Pending>, evt: CmdResult): seq<Pending> {
    Pick(list, evt, |list|, false)
  }

  /** No result settles a command that it is not for. */
  lemma {:induction false} OnlyMatchesSettle(list: seq<Pending>, evt: CmdResult, n: nat, c: Pending)
    requires n <= |list| && c in Pick(list, evt, n, true)
    ensures c in list && Belongs(c, evt)
  {
    if !Hit(list, evt, n - 1) || c != list[n - 1] {
      OnlyMatchesSettle(list, evt, n - 1, c);
    } else {
      CheckTells(c, evt);
    }
  }

  lemma {:induction false} AllVisited(list: seq<Pending>, evt: CmdResult, j: nat)
    requires j < |list|
    requires forall k :: 0 <= k < j ==> Check(list[k], evt) == NoMatch
    ensures TurnOf(list, evt, j) == Visited
  {
    if j > 0 {
      AllVisited(list, evt, j - 1);
    }
  }

  lemma {:induction false} PickNoHits(list: seq<Pending>, evt: CmdResult, n: nat, from: nat)
    requires from <= n <= |list|
    requires forall k :: from <= k < n ==> !Hit(list, evt, k)
    ensures Pick(list, evt, n, true) == Pick(list, evt, from, true)
    ensures Pick(list, evt, n, false) == Pick(list, evt, from, false) + list[from..n]
  {
    if from < n {
      PickNoHits(list, evt, n - 1, from);
      assert list[from..n] == list[from..n - 1] + [list[n - 1]];
    }
  }

  /**
    A result that is for a single command, with none before that it is malformed for, settles exactly that
    one; the rest keep their order.
   */
  lemma SingleMatchIsRemoved(list: seq<Pending>, evt: CmdResult, i: nat)
    requires i < |list| && Belongs(list[i], evt)
    requires forall k :: 0 <= k < |list| && k != i ==> !Belongs(list[k], evt)
    requires forall k :: 0 <= k < i ==> !Malformed(list[k], evt)
    ensures Settled(list, evt) == [list[i]] && Kept(list, evt) == list[..i] + list[i + 1..]
  {
    AllTold(evt);
    AllVisited(list, evt, i);
    PickNoMatches(list, evt, i, 0);
    PickNoMatches(list, evt, |list|, i + 1);
    assert Pick(list, evt, 0, true) == [] && Pick(list, evt, 0, false) == [];
    assert Pick(list, evt, i + 1, true) == Pick(list, evt, i, true) + [list[i]];
    assert Pick(list, evt, i + 1, false) == Pick(list, evt, i, false) + [];
    assert list[0..i] == list[..i] && list[i + 1..|list|] == list[i + 1..];
  }

  lemma PickNoMatches(list: seq<Pending>, evt: CmdResult, n: nat, from: nat)
    requires from <= n <= |list|
    requires forall k :: from <= k < n ==> Check(list[k], evt) != Match
    ensures Pick(list, evt, n, true) == Pick(list, evt, from, true)
    ensures Pick(list, evt, n, false) == Pick(list, evt, from, false) + list[from..n]
  {
    PickNoHits(list, evt, n, from);
  }

  /** A result that is for no command changes nothing. */
  lemma NoMatchChangesNothing(list: seq<Pending>, evt: CmdResult)
    requires forall c :: c in list ==> !Belongs(c, evt)
    ensures Settled(list, evt) == [] && Kept(list, evt) == list
  {
    AllTold(evt);
    PickNoHits(list, evt, |list|, 0);
    assert list[0..|list|] == list;
  }

  /** Of consecutive commands that a result is for, it settles every other one, from the first that is visited. */
  lemma {:induction false} EveryOtherMatch(list: seq<Pending>, evt: CmdResult, from: nat, j: nat)
    requires from <= j < |list| && TurnOf(list, evt, from) == Visited
    requires forall k :: from <= k <= j ==> Belongs(list[k], evt)
    ensures TurnOf(list, evt, j) == if (j - from) % 2 == 0 then Visited else Skipped
    ensures Hit(list, evt, j) <==> (j - from) % 2 == 0
  {
    AllTold(evt);
    if j > from {
      EveryOtherMatch(list, evt, from, j - 1);
    }
  }

  /** Every command that the result is for is settled. */
  ghost predicate AllSettled(list: seq<Pending>, evt: CmdResult) {
    forall j :: 0 <= j < |list| && Belongs(list[j], evt) ==> Hit(list, evt, j)
  }

  predicate MatchBefore(list: seq<Pending>, evt: CmdResult, j: nat)
    requires j <= |list|
  {
    j > 0 && Belongs(list[j - 1], evt)
  }

  /** No command that the result is for follows another, nor one that it is malformed for and the scan looks at. */
  ghost predicate Spaced(list: seq<Pending>, evt: CmdResult) {
    forall j :: 0 <= j < |list| && Belongs(list[j], evt) ==>
      !MatchBefore(list, evt, j) && Unhindered(list, evt, j)
  }

  ghost predicate Unhindered(list: seq<Pending>, evt: CmdResult, j: nat)
    requires j <= |list|
  {
    forall k :: 0 <= k < j && Malformed(list[k], evt) ==> MatchBefore(list, evt, k)
  }

  lemma {:induction false} TurnSpaced(list: seq<Pending>, evt: CmdResult, j: nat, m: nat)
    requires j <= m < |list| && Spaced(list, evt) && Belongs(list[m], evt)
    ensures TurnOf(list, evt, j) == if MatchBefore(list, evt, j) then Skipped else Visited
  {
    if j > 0 {
      CheckTells(list[j - 1], evt);
      TurnSpaced(list, evt, j - 1, m);
      assert Unhindered(list, evt, m);
    }
  }

  lemma {:induction false} StaysUnreached(list: seq<Pending>, evt: CmdResult, n: nat, k: nat)
    requires n <= k < |list| && TurnOf(list, evt, n) == NotReached
    ensures TurnOf(list, evt, k) == NotReached
  {
    if k > n {
      StaysUnreached(list, evt, n, k - 1);
    }
  }

  lemma HitIsUnhindered(list: seq<Pending>, evt: CmdResult, j: nat)
    requires j < |list| && AllSettled(list, evt) && Belongs(list[j], evt)
    ensures !MatchBefore(list, evt, j) && Unhindered(list, evt, j)
  {
    AllTold(evt);
    forall k | 0 <= k < j && Malformed(list[k], evt) ensures MatchBefore(list, evt, k) {
      if TurnOf(list, evt, k) == Visited {
        NotReachedAfter(list, evt, k, j);
      } else if TurnOf(list, evt, k) == NotReached {
        StaysUnreached(list, evt, k, j);
      }
    }
  }

  /** A result settles every command that it is for if and only if these are spaced. */
  lemma AllMatchesSettle(list: seq<Pending>, evt: CmdResult)
    ensures AllSettled(list, evt) <==> Spaced(list, evt)
  {
    AllTold(evt);
    if AllSettled(list, evt) {
      forall j | 0 <= j < |list| && Belongs(list[j], evt)
        ensures !MatchBefore(list, evt, j) && Unhindered(list, evt, j)
      {
        HitIsUnhindered(list, evt, j);
      }
    }
    if Spaced(list, evt) {
      forall j | 0 <= j < |list| && Belongs(list[j], evt) ensures Hit(list, evt, j) {
        TurnSpaced(list, evt, j, j);
      }
    }
  }

  /** In a list without doubles, the commands settled are the entries that are hit. */
  lemma {:induction false} PickedAreHit(list: seq<Pending>, evt: CmdResult, n: nat, j: nat)
    requires j < n <= |list| && Distinct(list)
    ensures list[j] in Pick(list, evt, n, true) <==> Hit(list, evt, j)
  {
    if j < n - 1 {
      PickedAreHit(list, evt, n - 1, j);
      assert list[n - 1] != list[j];
    } else {
      PickedEarlier(list, evt, j);
    }
  }

  lemma {:induction false} PickedEarlier(list: seq<Pending>, evt: CmdResult, n: nat)
    requires n <= |list|
    ensures forall c :: c in Pick(list, evt, n, true) ==> exists k :: 0 <= k < n && list[k] == c
  {
    if n > 0 {
      PickedEarlier(list, evt, n - 1);
    }
  }

  /** Of the commands of a list without doubles, a result settles all it is for if and only if these are spaced. */
  lemma SettlesAllItIsFor(list: seq<Pending>, evt: CmdResult)
    requires Distinct(list)
    ensures (forall c :: c in list ==> (c in Settled(list, evt) <==> Belongs(c, evt))) <==> Spaced(list, evt)
  {
    AllMatchesSettle(list, evt);
    forall c | c in Settled(list, evt)
      ensures c in list && Belongs(c, evt)
    {
      OnlyMatchesSettle(list, evt, |list|, c);
    }
    forall j | 0 <= j < |list|
      ensures list[j] in Settled(list, evt) <==> Hit(list, evt, j)
    {
      PickedAreHit(list, evt, |list|, j);
    }
  }

  // ---------------------------------------------------------------- runs

  datatype System = System(pending: seq<Pending>, timers: set<nat>, settlements: seq<Settlement>, next: nat)

  datatype Action =
    | Submit(opcode: uint16, connectionHandle: Option<nat>, advertisingHandle: Option<nat>, payloadLength: nat)
    | Result(evt: CmdResult)
    | Timeout(id: nat)

  function Settlements(cs: seq<Pending>, o: Outcome): (r: seq<Settlement>)
    ensures |r| == |cs|
  {
    seq(|cs|, i requires 0 <= i < |cs| => Settlement(cs[i].id, o))
  }

  function Ids(cs: seq<Pending>): set<nat> {
    set c | c in cs :: c.id
  }

  function Drop(list: seq<Pending>, id: nat): seq<Pending> {
    if list == [] then []
    else if list[0].id == id then list[1..]
    else [list[0]] + Drop(list[1..], id)
  }

  /** `buildCommand` throws when the payload length does not fit its byte. */
  predicate Buildable(a: Action) {
    a.Submit? ==> a.payloadLength < 0x100
  }

  function Apply(s: System, a: Action): System {
    match a
    case Submit(opcode, conn, adv, length) =>
      s.(pending := s.pending + [Pending(s.next, opcode, conn, adv)],
         timers := s.timers + {s.next},
         settlements := s.settlements + (if Buildable(a) then [] else [Settlement(s.next, NotBuilt)]),
         next := s.next + 1)
    case Result(evt) =>
      s.(pending := Kept(s.pending, evt),
         timers := s.timers - Ids(Settled(s.pending, evt)),
         settlements := s.settlements + Settlements(Settled(s.pending, evt), OutcomeOf(evt)))
    case Timeout(id) =>
      if id !in s.timers then s else
        s.(pending := Drop(s.pending, id), timers := s.timers - {id},
           settlements := s.settlements + [Settlement(id, TimedOut)])
  }

  function Run(s: System, actions: seq<Action>): System
    decreases |actions|
  {
    if actions == [] then s else Run(Apply(s, actions[0]), actions[1..])
  }

  const START := System([], {}, [], 0)

  predicate Distinct(list: seq<Pending>) {
    forall i, j :: 0 <= i < j < |list| ==> list[i].id != list[j].id
  }

  predicate SettledOnce(q: seq<Settlement>) {
    forall i, j :: 0 <= i < j < |q| ==> q[i].id != q[j].id
  }

  function SettledIds(q: seq<Settlement>): set<nat> {
    set t | t in q :: t.id
  }

  /** Every submitted command is either pending, with its timer running, or settled, once. */
  ghost predicate Exact(s: System) {
    && Distinct(s.pending) && SettledOnce(s.settlements)
    && s.timers == Ids(s.pending)
    && Ids(s.pending) !! SettledIds(s.settlements)
    && (forall id :: id in Ids(s.pending) || id in SettledIds(s.settlements) <==> 0 <= id < s.next)
  }

  lemma {:induction false} PickSplits(list: seq<Pending>, evt: CmdResult, n: nat)
    requires n <= |list| && Distinct(list)
    ensures var (hit, kept) := (Pick(list, evt, n, true), Pick(list, evt, n, false));
      && Distinct(hit) && Distinct(kept)
      && Ids(hit) !! Ids(kept) && Ids(hit) + Ids(kept) == Ids(list[..n])
  {
    if n > 0 {
      PickSplits(list, evt, n - 1);
      var c := list[n - 1];
      assert list[..n] == list[..n - 1] + [c];
      IdsAppend(list[..n - 1], c);
      assert c.id !in Ids(list[..n - 1]);
      var hit := Hit(list, evt, n - 1);
      IdsAppend(Pick(list, evt, n - 1, hit), c);
      DistinctAppend(Pick(list, evt, n - 1, hit), c);
      assert Pick(list, evt, n, !hit) == Pick(list, evt, n - 1, !hit);
    }
  }

  lemma IdsAppend(list: seq<Pending>, c: Pending)
    ensures Ids(list + [c]) == Ids(list) + {c.id}
  {
    assert c in list + [c];
    forall d | d in list ensures d in list + [c] {
    }
  }

  lemma DistinctAppend(list: seq<Pending>, c: Pending)
    requires Distinct(list) && c.id !in Ids(list)
    ensures Distinct(list + [c])
  {
    forall i | 0 <= i < |list|
      ensures list[i].id != c.id
    {
      assert list[i] in list;
    }
  }

  lemma {:induction false} DropRemoves(list: seq<Pending>, id: nat)
    requires Distinct(list) && id in Ids(list)
    ensures Distinct(Drop(list, id)) && Ids(Drop(list, id)) == Ids(list) - {id}
  {
    assert list == [list[0]] + list[1..];
    IdsPrepend(list[0], list[1..]);
    assert list[0].id !in Ids(list[1..]);
    if list[0].id != id {
      DropRemoves(list[1..], id);
      IdsPrepend(list[0], Drop(list[1..], id));
      DistinctPrepend(list[0], Drop(list[1..], id));
    }
  }

  lemma IdsPrepend(c: Pending, list: seq<Pending>)
    ensures Ids([c] + list) == {c.id} + Ids(list)
  {
    assert ([c] + list)[0] == c;
    forall d | d in list ensures d in [c] + list {
    }
  }

  lemma DistinctPrepend(c: Pending, list: seq<Pending>)
    requires Distinct(list) && c.id !in Ids(list)
    ensures Distinct([c] + list)
  {
    forall i | 0 <= i < |list|
      ensures list[i].id != c.id
    {
      assert list[i] in list;
    }
  }

  lemma SettlementsAppend(q: seq<Settlement>, cs: seq<Pending>, o: Outcome)
    requires SettledOnce(q) && Distinct(cs) && Ids(cs) !! SettledIds(q)
    ensures SettledOnce(q + Settlements(cs, o))
    ensures SettledIds(q + Settlements(cs, o)) == SettledIds(q) + Ids(cs)
  {
    var r := q + Settlements(cs, o);
    forall i | 0 <= i < |q| ensures q[i] in r && q[i].id in SettledIds(q) {
      assert r[i] == q[i];
    }
    forall i | 0 <= i < |cs| ensures Settlement(cs[i].id, o) in r && cs[i].id in Ids(cs) {
      assert r[|q| + i] == Settlement(cs[i].id, o);
      assert cs[i] in cs;
    }
    forall t | t in r ensures t.id in SettledIds(q) + Ids(cs) {
    }
    forall id | id in Ids(cs) ensures id in SettledIds(r) {
      var c :| c in cs && c.id == id;
      var i :| 0 <= i < |cs| && cs[i] == c;
      assert Settlement(cs[i].id, o) in r;
    }
  }

  /** A step keeps the bookkeeping exact if and only if it does not submit a command that cannot be built. */
  lemma StepExact(s: System, a: Action)
    requires Exact(s)
    ensures Exact(Apply(s, a)) <==> Buildable(a)
  {
    match a
    case Submit(opcode, conn, adv, length) =>
      var c := Pending(s.next, opcode, conn, adv);
      assert c.id !in Ids(s.pending) && c.id !in SettledIds(s.settlements);
      IdsAppend(s.pending, c);
      DistinctAppend(s.pending, c);
      if Buildable(a) {
        assert s.settlements + [] == s.settlements;
      } else {
        SettlementsAppend(s.settlements, [c], NotBuilt);
        assert Settlements([c], NotBuilt) == [Settlement(s.next, NotBuilt)];
        assert Ids([c]) == {c.id} by { IdsAppend([], c); assert [] + [c] == [c]; }
        assert s.next in SettledIds(Apply(s, a).settlements);
      }
    case Result(evt) =>
      PickSplits(s.pending, evt, |s.pending|);
      assert s.pending[..|s.pending|] == s.pending;
      SettlementsAppend(s.settlements, Settled(s.pending, evt), OutcomeOf(evt));
    case Timeout(id) =>
      if id in s.timers {
        DropRemoves(s.pending, id);
        var c :| c in s.pending && c.id == id;
        SettlementsAppend(s.settlements, [c], TimedOut);
        assert Settlements([c], TimedOut) == [Settlement(id, TimedOut)];
        assert Ids([c]) == {c.id} by { IdsAppend([], c); assert [] + [c] == [c]; }
      }
  }

  /** The bookkeeping is exact in every state of the run. */
  ghost predicate ExactThroughout(s: System, actions: seq<Action>)
    decreases |actions|
  {
    Exact(s) && (actions == [] || ExactThroughout(Apply(s, actions[0]), actions[1..]))
  }

  lemma {:induction false} RunExact(s: System, actions: seq<Action>)
    requires Exact(s)
    ensures ExactThroughout(s, actions) <==> forall a :: a in actions ==> Buildable(a)
    ensures (forall a :: a in actions ==> Buildable(a)) ==> Exact(Run(s, actions))
    decreases |actions|
  {
    if actions != [] {
      assert actions[0] in actions && forall a :: a in actions <==> a == actions[0] || a in actions[1..];
      StepExact(s, actions[0]);
      if Buildable(actions[0]) {
        RunExact(Apply(s, actions[0]), actions[1..]);
      }
    }
  }

  /**
    In every state of a run of submissions, results and timeouts, each command has settled at most once
    and is pending, with its timer running, exactly until then, if and only if the run submits no
    command that cannot be built.
   */
  lemma EachSettlesOnce(actions: seq<Action>)
    ensures ExactThroughout(START, actions) <==> forall a :: a in actions ==> Buildable(a)
  {
    RunExact(START, actions);
  }

  // ---------------------------------------------------------------- what becomes of a command

  /** Removed from the list at some place, with the order of the rest kept. */
  predicate Without(list: seq<Pending>, kept: seq<Pending>, id: nat) {
    exists i :: 0 <= i < |list| && list[i].id == id && kept == list[..i] + list[i + 1..]
  }

  /**
    A result settles the only pending command with its operation, if it is for it, with success or with its
    status as the error; otherwise it settles none.
   */
  lemma OwnResult(s: System, evt: CmdResult, i: nat)
    requires i < |s.pending| && s.pending[i].opcode == evt.opcode
    requires forall k :: 0 <= k < |s.pending| && k != i ==> s.pending[k].opcode != evt.opcode
    ensures var (r, c) := (Apply(s, Result(evt)), s.pending[i]);
      if Belongs(c, evt) then
        && r.pending == s.pending[..i] + s.pending[i + 1..] && r.timers == s.timers - {c.id}
        && r.settlements == s.settlements +
             [Settlement(c.id, if evt.status == 0 then Resolved(evt) else Failed(evt.status))]
      else r == s
  {
    var c := s.pending[i];
    if Belongs(c, evt) {
      SingleMatchIsRemoved(s.pending, evt, i);
      assert Settlements([c], OutcomeOf(evt)) == [Settlement(c.id, OutcomeOf(evt))];
      assert Ids([c]) == {c.id};
    } else {
      NoMatchChangesNothing(s.pending, evt);
      assert Settlements([], OutcomeOf(evt)) == [] && s.settlements + [] == s.settlements;
      assert Ids([]) == {} && s.timers - {} == s.timers;
    }
  }

  /**
    A command that is submitted while none of its operation is pending ends with the first result of that
    operation, if it is for it, whatever of other operations is pending.
   */
  lemma SubmittedEnds(s: System, opcode: uint16, conn: Option<nat>, adv: Option<nat>, length: nat, evt: CmdResult)
    requires length < 0x100 && evt.opcode == opcode && forall c :: c in s.pending ==> c.opcode != opcode
    ensures var c := Pending(s.next, opcode, conn, adv);
      var waiting := Apply(s, Submit(opcode, conn, adv, length));
      var r := Apply(waiting, Result(evt));
      && waiting.pending == s.pending + [c] && waiting.timers == s.timers + {s.next}
      && waiting.settlements == s.settlements && waiting.next == s.next + 1
      && if Belongs(c, evt) then
           && r.pending == s.pending
           && r.settlements == s.settlements +
                [Settlement(s.next, if evt.status == 0 then Resolved(evt) else Failed(evt.status))]
         else r == waiting
  {
    var waiting := Apply(s, Submit(opcode, conn, adv, length));
    assert s.settlements + [] == s.settlements;
    OwnResult(waiting, evt, |s.pending|);
    assert waiting.pending[..|s.pending|] + waiting.pending[|s.pending| + 1..] == s.pending;
  }

  /** A command that cannot be built is rejected at once. */
  lemma NotBuiltEnds(s: System, opcode: uint16, conn: Option<nat>, adv: Option<nat>, length: nat)
    requires length >= 0x100
    ensures Apply(s, Submit(opcode, conn, adv, length)).settlements == s.settlements + [Settlement(s.next, NotBuilt)]
  {
  }

  /** A timeout rejects its command and removes it; a timer that has been cleared does nothing. */
  lemma TimeoutEnds(s: System, id: nat)
    requires Exact(s)
    ensures var r := Apply(s, Timeout(id));
      if id in s.timers then
        && Without(s.pending, r.pending, id) && r.timers == s.timers - {id}
        && r.settlements == s.settlements + [Settlement(id, TimedOut)]
      else r == s
  {
    if id in s.timers {
      DropsOne(s.pending, id);
    }
  }

  lemma {:induction false} DropsOne(list: seq<Pending>, id: nat)
    requires id in Ids(list)
    ensures Without(list, Drop(list, id), id)
  {
    if list[0].id == id {
      assert Drop(list, id) == list[..0] + list[0 + 1..];
    } else {
      assert list == [list[0]] + list[1..];
      DropsOne(list[1..], id);
      var i :| 0 <= i < |list| - 1 && list[1..][i].id == id
        && Drop(list[1..], id) == list[1..][..i] + list[1..][i + 1..];
      assert Drop(list, id) == list[..i + 1] + list[i + 2..];
      assert list[i + 1].id == id;
    }
  }

  /** The scan comes to a command that the result is malformed for. */
  ghost predicate Raises(list: seq<Pending>, evt: CmdResult) {
    exists j :: 0 <= j < |list| && TurnOf(list, evt, j) == Visited && Malformed(list[j], evt)
  }

  // ---------------------------------------------------------------- the object

  class HciCmd {
    var pendingCommands: seq<Pending>
    var timers: set<nat>
    var settlements: seq<Settlement>
    var next: nat
    var sent: seq<seq<byte>>

    function Now(): System
      reads this
    {
      System(pendingCommands, timers, settlements, next)
    }

    constructor ()
      ensures Now() == START && sent == []
    {
      pendingCommands, timers, settlements, next, sent := [], {}, [], 0, [];
    }

    method SendWaitResult(ogf: nat, ocf: nat, conn: Option<nat>, adv: Option<nat>, payload: seq<byte>) returns (id: nat)
      requires ogf < 64 && ocf < 1024
      modifies this
      ensures id == old(next)
      ensures Now() == Apply(old(Now()), Submit(Opcode(ogf, ocf), conn, adv, |payload|))
      ensures sent == old(sent) + if |payload| < 0x100 then [PacketOf(Command(Opcode(ogf, ocf), payload))] else []
    {
      var opcode := Opcode(ogf, ocf);
      id := next;
      next := next + 1;
      timers := timers + {id};
      pendingCommands := pendingCommands + [Pending(id, opcode, conn, adv)];
      var packet := BuildCommand(opcode, payload);
      if packet.None? {
        settlements := settlements + [Settlement(id, NotBuilt)];
      } else {
        sent := sent + [packet.value];
      }
    }

    method DropPendingCommand(id: nat)
      modifies this`pendingCommands
      ensures pendingCommands == Drop(old(pendingCommands), id)
    {
      var i := 0;
      while i < |pendingCommands|
        invariant 0 <= i <= |pendingCommands| && pendingCommands == old(pendingCommands)
        invariant Drop(pendingCommands, id) == pendingCommands[..i] + Drop(pendingCommands[i..], id)
      {
        var rest := pendingCommands[i..];
        if pendingCommands[i].id == id {
          pendingCommands := pendingCommands[..i] + pendingCommands[i + 1..];
          return;
        }
        assert rest == [pendingCommands[i]] + pendingCommands[i + 1..];
        assert pendingCommands[..i] + ([pendingCommands[i]] + Drop(pendingCommands[i + 1..], id))
            == pendingCommands[..i + 1] + Drop(pendingCommands[i + 1..], id);
        i := i + 1;
      }
    }

    method Complete(id: nat, outcome: Outcome)
      modifies this`pendingCommands, this`timers, this`settlements
      ensures pendingCommands == Drop(old(pendingCommands), id)
      ensures timers == old(timers) - {id}
      ensures settlements == old(settlements) + [Settlement(id, outcome)]
    {
      timers := timers - {id};
      DropPendingCommand(id);
      settlements := settlements + [Settlement(id, outcome)];
    }

    /** A timer that has not been cleared fires. */
    method OnTimeout(id: nat)
      requires id in timers
      modifies this
      ensures Now() == Apply(old(Now()), Timeout(id)) && sent == old(sent)
    {
      Complete(id, TimedOut);
    }

    /** The scan: the iterator's index advances past the entry that a removal has moved under it. */
    method OnCmdResult(evt: CmdResult) returns (raised: bool)
      requires Distinct(pendingCommands)
      modifies this
      ensures Now() == Apply(old(Now()), Result(evt)) && sent == old(sent)
      ensures raised <==> Raises(old(pendingCommands), evt)
    {
      raised := false;
      ghost var (list, front, rest, done) := (pendingCommands, [], pendingCommands, []);
      ghost var outcome := Scan(list, evt);
      NothingJoined(outcome);
      StopsExactly(list, evt);
      var i := 0;
      while i < |pendingCommands|
        invariant pendingCommands == front + rest && Distinct(pendingCommands) && i >= |front| &&
          (rest != [] ==> i == |front|)
        invariant outcome == Joined(done, front, Scan(rest, evt))
        invariant Stops(list, evt) == Stops(rest, evt)
        invariant timers == old(timers) - Ids(done) &&
          settlements == old(settlements) + Settlements(done, OutcomeOf(evt))
        invariant next == old(next) && sent == old(sent)
        decreases |rest|
      {
        var cmd := pendingCommands[i];
        assert cmd == rest[0];
        var verdict := Check(cmd, evt);
        if verdict == Raise {
          raised := true;
          JoinedEnd(done, front, rest);
          ScanIsSettledAndKept(list, evt);
          return;
        }
        if verdict == Match {
          DropFirst(front, rest);
          ScanMatch(done, front, rest, evt);
          Complete(cmd.id, OutcomeOf(evt));
          IdsAppend(done, cmd);
          done := done + [cmd];
          front, rest := front + Next(rest), Beyond(rest);
        } else {
          ScanMiss(done, front, rest, evt);
          front, rest := front + [cmd], rest[1..];
        }
        i := i + 1;
      }
      JoinedEnd(done, front, rest);
      ScanIsSettledAndKept(list, evt);
    }
  }

  // ---------------------------------------------------------------- the scan, entry by entry

  /** What the scan settles and leaves of the entries it has before it. */
  function Scan(rest: seq<Pending>, evt: CmdResult): (seq<Pending>, seq<Pending>)
    decreases |rest|
  {
    if rest == [] then ([], [])
    else
      match Check(rest[0], evt)
      case Raise => ([], rest)
      case NoMatch => Joined([], [rest[0]], Scan(rest[1..], evt))
      case Match => Joined([rest[0]], Next(rest), Scan(Beyond(rest), evt))
  }

  function Joined(done: seq<Pending>, front: seq<Pending>, r: (seq<Pending>, seq<Pending>))
    : (seq<Pending>, seq<Pending>)
  {
    (done + r.0, front + r.1)
  }

  lemma NothingJoined(r: (seq<Pending>, seq<Pending>))
    ensures Joined([], [], r) == r
  {
    assert [] + r.0 == r.0 && [] + r.1 == r.1;
  }

  lemma JoinedEnd(done: seq<Pending>, front: seq<Pending>, rest: seq<Pending>)
    ensures Joined(done, front, ([], rest)) == (done, front + rest)
  {
    assert done + [] == done;
  }

  /** The entry that moves under the iterator when the first one is removed, if there is one. */
  function Next(rest: seq<Pending>): seq<Pending> {
    if |rest| > 1 then [rest[1]] else []
  }

  function Beyond(rest: seq<Pending>): seq<Pending> {
    if |rest| > 1 then rest[2..] else []
  }

  lemma ScanMatch(done: seq<Pending>, front: seq<Pending>, rest: seq<Pending>, evt: CmdResult)
    requires rest != [] && Check(rest[0], evt) == Match
    ensures Joined(done, front, Scan(rest, evt))
      == Joined(done + [rest[0]], front + Next(rest), Scan(Beyond(rest), evt))
    ensures front + rest[1..] == front + Next(rest) + Beyond(rest)
  {
    var r := Scan(Beyond(rest), evt);
    Regroup(done, [rest[0]], r.0);
    Regroup(front, Next(rest), r.1);
    assert rest[1..] == Next(rest) + Beyond(rest);
    Regroup(front, Next(rest), Beyond(rest));
  }

  lemma ScanMiss(done: seq<Pending>, front: seq<Pending>, rest: seq<Pending>, evt: CmdResult)
    requires rest != [] && Check(rest[0], evt) == NoMatch
    ensures Joined(done, front, Scan(rest, evt)) == Joined(done, front + [rest[0]], Scan(rest[1..], evt))
    ensures front + rest == front + [rest[0]] + rest[1..]
  {
    var r := Scan(rest[1..], evt);
    Regroup(front, [rest[0]], r.1);
    assert [] + r.0 == r.0 && rest == [rest[0]] + rest[1..];
    Regroup(front, [rest[0]], rest[1..]);
  }

  /** Dropping the entry that the scan has reached, by its identity. */
  lemma DropFirst(front: seq<Pending>, rest: seq<Pending>)
    requires rest != [] && Distinct(front + rest)
    ensures Drop(front + rest, rest[0].id) == front + rest[1..] && Distinct(front + rest[1..])
  {
    var all := front + rest;
    assert all[|front|] == rest[0];
    forall c | c in front ensures c.id != rest[0].id {
      var k :| 0 <= k < |front| && front[k] == c;
      assert all[k] == c;
    }
    DropSkips(front, rest, rest[0].id);
    var left := front + rest[1..];
    forall j, k | 0 <= j < k < |left| ensures left[j].id != left[k].id {
      assert left[j] == all[if j < |front| then j else j + 1] && left[k] == all[if k < |front| then k else k + 1];
    }
  }

  /** The scan settles and keeps what the specification by positions says. */
  lemma ScanIsSettledAndKept(list: seq<Pending>, evt: CmdResult)
    ensures Scan(list, evt) == (Settled(list, evt), Kept(list, evt))
  {
    ScanFrom(list, evt, 0);
    assert list[0..] == list;
    NothingJoined(Scan(list, evt));
  }

  lemma {:induction false} ScanFrom(list: seq<Pending>, evt: CmdResult, n: nat)
    requires n <= |list| && (n < |list| ==> TurnOf(list, evt, n) == Visited)
    ensures (Settled(list, evt), Kept(list, evt))
      == Joined(Pick(list, evt, n, true), Pick(list, evt, n, false), Scan(list[n..], evt))
    decreases |list| - n
  {
    var (done, front, rest) := (Pick(list, evt, n, true), Pick(list, evt, n, false), list[n..]);
    JoinedEnd(done, front, rest);
    if n == |list| {
      assert front + [] == front;
    } else if Check(list[n], evt) == Raise {
      StopsHere(list, evt, n);
    } else if Check(list[n], evt) == Match {
      ScanMatch(done, front, rest, evt);
      AfterMatch(list, evt, n);
      ScanFrom(list, evt, Behind(list, n));
    } else {
      ScanMiss(done, front, rest, evt);
      AfterMiss(list, evt, n);
      ScanFrom(list, evt, n + 1);
    }
  }

  /** The position that the scan visits after it has settled the one at `n`. */
  ghost function Behind(list: seq<Pending>, n: nat): (m: nat)
    requires n < |list|
    ensures n < m <= |list|
  {
    if n + 1 < |list| then n + 2 else n + 1
  }

  /** The visited entry matches: it is settled, and the next one is passed over. */
  lemma AfterMatch(list: seq<Pending>, evt: CmdResult, n: nat)
    requires n < |list| && Hit(list, evt, n)
    ensures Pick(list, evt, Behind(list, n), true) == Pick(list, evt, n, true) + [list[n]]
    ensures Pick(list, evt, Behind(list, n), false) == Pick(list, evt, n, false) + Next(list[n..])
    ensures list[Behind(list, n)..] == Beyond(list[n..])
    ensures Behind(list, n) < |list| ==> TurnOf(list, evt, Behind(list, n)) == Visited
  {
    assert Pick(list, evt, n + 1, true) == Pick(list, evt, n, true) + [list[n]];
    assert Pick(list, evt, n + 1, false) == Pick(list, evt, n, false) + [];
    if n + 1 < |list| {
      assert !Hit(list, evt, n + 1);
      assert Pick(list, evt, n + 2, true) == Pick(list, evt, n + 1, true) + [];
    }
  }

  lemma AfterMiss(list: seq<Pending>, evt: CmdResult, n: nat)
    requires n < |list| && TurnOf(list, evt, n) == Visited && Check(list[n], evt) == NoMatch
    ensures Pick(list, evt, n + 1, true) == Pick(list, evt, n, true)
    ensures Pick(list, evt, n + 1, false) == Pick(list, evt, n, false) + [list[n]]
    ensures list[n..][1..] == list[n + 1..]
    ensures n + 1 < |list| ==> TurnOf(list, evt, n + 1) == Visited
  {
    assert Pick(list, evt, n + 1, true) == Pick(list, evt, n, true) + [];
  }

  /** A raised assertion ends the scan: nothing from there on is settled. */
  lemma StopsHere(list: seq<Pending>, evt: CmdResult, n: nat)
    requires n < |list| && TurnOf(list, evt, n) == Visited && Check(list[n], evt) == Raise
    ensures Settled(list, evt) == Pick(list, evt, n, true)
    ensures Kept(list, evt) == Pick(list, evt, n, false) + list[n..]
  {
    forall k | n <= k < |list|
      ensures !Hit(list, evt, k)
    {
      NotReachedAfter(list, evt, n, k);
    }
    PickNoHits(list, evt, |list|, n);
    assert list[n..|list|] == list[n..];
  }

  lemma {:induction false} NotReachedAfter(list: seq<Pending>, evt: CmdResult, n: nat, k: nat)
    requires n <= k < |list| && TurnOf(list, evt, n) == Visited && Check(list[n], evt) == Raise
    ensures k > n ==> TurnOf(list, evt, k) == NotReached
  {
    if k > n {
      NotReachedAfter(list, evt, n, k - 1);
    }
  }

  lemma {:induction false} DropSkips(front: seq<Pending>, back: seq<Pending>, id: nat)
    requires forall c :: c in front ==> c.id != id
    requires back != [] && back[0].id == id
    ensures Drop(front + back, id) == front + back[1..]
  {
    if front == [] {
      assert front + back == back;
    } else {
      assert (front + back)[1..] == front[1..] + back;
      DropSkips(front[1..], back, id);
    }
  }

  /** The scan, entry by entry, stops at a malformed result. */
  predicate Stops(rest: seq<Pending>, evt: CmdResult)
    decreases |rest|
  {
    rest != [] &&
      match Check(rest[0], evt)
      case Raise => true
      case NoMatch => Stops(rest[1..], evt)
      case Match => Stops(Beyond(rest), evt)
  }

  lemma {:induction false} StopsFrom(list: seq<Pending>, evt: CmdResult, n: nat)
    requires n <= |list| && (n < |list| ==> TurnOf(list, evt, n) == Visited)
    ensures Stops(list[n..], evt) <==>
      exists j :: n <= j < |list| && TurnOf(list, evt, j) == Visited && Malformed(list[j], evt)
    decreases |list| - n
  {
    AllTold(evt);
    if n == |list| {
    } else if Check(list[n], evt) == Match {
      AfterMatch(list, evt, n);
      StopsFrom(list, evt, Behind(list, n));
    } else if Check(list[n], evt) == NoMatch {
      AfterMiss(list, evt, n);
      StopsFrom(list, evt, n + 1);
    } else {
      assert Malformed(list[n], evt);
    }
  }

  lemma StopsExactly(list: seq<Pending>, evt: CmdResult)
    ensures Stops(list, evt) <==> Raises(list, evt)
  {
    StopsFrom(list, evt, 0);
    assert list[0..] == list;
  }
}
