/**
  Overlapping calls of `discover` on one client. A call is a task that looks in the directory and asks the
  server in turns; between looking and saving an answer, as between any two awaits, others may run. The
  directory is what it knows; a save that does not fit leaves index and tree in disagreement.
 */
module GattOverlap {
  import opened Bytes
  import opened GattProfile
  import opened GattServer

  /**
    Where a call of `discover` is: about to look for a record, or waiting for the answer to its request for
    it. `i` counts services, `j` the characteristics of the `i`-th.
   */
  datatype Task =
    | Starts
    | AsksServices
    | AtService(i: nat)
    | AsksIncludes(i: nat)
    | HasIncludes(i: nat)
    | AsksCharacteristics(i: nat)
    | AtCharacteristic(i: nat, j: nat)
    | AsksDescriptors(i: nat, j: nat)
    | Finished
    | Failed

  /** What is known, and the calls in progress. */
  datatype System = System(known: Catalog, tasks: seq<Task>)

  /** The `k`-th call runs up to its next await; if it waits for an answer, this is one, or a failure. */
  datatype Action = Runs(k: nat, answered: bool)

  predicate Waits(t: Task) {
    t.AsksServices? || t.AsksIncludes? || t.AsksCharacteristics? || t.AsksDescriptors?
  }

  function ServiceAt(db: Database, i: nat): ServiceInfo
    requires ValidDatabase(db) && i < |ServicesOf(db)|
  {
    ServicesOf(db)[i]
  }

  function Below(db: Database, i: nat): seq<CharacteristicInfo>
    requires ValidDatabase(db) && i < |ServicesOf(db)|
  {
    CharacteristicsOf(db, ServicesOf(db)[i])
  }

  /** The indices are in range, and what a call has passed is known. */
  predicate Placed(db: Database, c: Catalog, t: Task)
    requires ValidDatabase(db)
  {
    match t
    case Starts | AsksServices | Finished | Failed => true
    case AtService(i) => c.services.Some? && i <= |ServicesOf(db)|
    case AsksIncludes(i) => c.services.Some? && i < |ServicesOf(db)|
    case HasIncludes(i) => c.services.Some? && i < |ServicesOf(db)|
    case AsksCharacteristics(i) => c.services.Some? && i < |ServicesOf(db)|
    case AtCharacteristic(i, j) =>
      && c.services.Some? && i < |ServicesOf(db)| && j <= |Below(db, i)|
      && (Below(db, i) != [] ==> ServiceAt(db, i).handle in c.characteristics)
    case AsksDescriptors(i, j) =>
      && c.services.Some? && i < |ServicesOf(db)| && j < |Below(db, i)|
      && ServiceAt(db, i).handle in c.characteristics
  }

  /** What a call does that waits for nothing: it looks, and goes on to ask or to the next record. */
  function Looks(db: Database, c: Catalog, t: Task): Task
    requires ValidDatabase(db) && Placed(db, c, t)
  {
    match t
    case Starts => if c.services.Some? then AtService(0) else AsksServices
    case AtService(i) =>
      if i == |ServicesOf(db)| then Finished
      else if ServiceAt(db, i).handle in c.includesKnown then HasIncludes(i) else AsksIncludes(i)
    case HasIncludes(i) =>
      if ServiceAt(db, i).handle in c.characteristics then AtCharacteristic(i, 0) else AsksCharacteristics(i)
    case AtCharacteristic(i, j) =>
      if j == |Below(db, i)| then AtService(i + 1)
      else if Below(db, i)[j].handle in c.descriptors then AtCharacteristic(i, j + 1) else AsksDescriptors(i, j)
    case _ => t
  }

  /** What the directory knows once the answer a call waits for is saved. */
  function Saved(db: Database, c: Catalog, t: Task): Catalog
    requires ValidDatabase(db) && Placed(db, c, t)
  {
    match t
    case AsksServices => SavedServices(c, ServicesOf(db))
    case AsksIncludes(i) => if HasInclude(db, ServiceAt(db, i)) then c else SavedIncludes(c, ServiceAt(db, i).handle)
    case AsksCharacteristics(i) => SavedCharacteristics(c, ServiceAt(db, i).handle, Below(db, i))
    case AsksDescriptors(i, j) => SavedDescriptors(c, Below(db, i)[j].handle, DescriptorsOf(db, Below(db, i)[j]))
    case _ => c
  }

  function Resumes(db: Database, t: Task): Task
    requires ValidDatabase(db)
  {
    match t
    case AsksServices => AtService(0)
    case AsksIncludes(i) =>
      if i < |ServicesOf(db)| && HasInclude(db, ServiceAt(db, i)) then Failed else HasIncludes(i)
    case AsksCharacteristics(i) => AtCharacteristic(i, 0)
    case AsksDescriptors(i, j) => AtCharacteristic(i, j + 1)
    case _ => t
  }

  /** The save fits what is known: as each `save*` says, index and tree then still agree. */
  ghost predicate SaveFits(db: Database, c: Catalog, t: Task)
    requires ValidDatabase(db) && Placed(db, c, t)
  {
    match t
    case AsksServices => ServicesFit(c, ServicesOf(db))
    case AsksCharacteristics(i) => CharacteristicsFit(c, ServiceAt(db, i).handle, Below(db, i))
    case AsksDescriptors(i, j) => DescriptorsFit(c, Below(db, i)[j].handle, DescriptorsOf(db, Below(db, i)[j]))
    case _ => true
  }

  ghost predicate AllPlaced(db: Database, s: System)
    requires ValidDatabase(db)
  {
    forall k :: 0 <= k < |s.tasks| ==> Placed(db, s.known, s.tasks[k])
  }

  /** The call that acts, if there is one. */
  predicate Acts(db: Database, s: System, a: Action)
    requires ValidDatabase(db)
  {
    a.k < |s.tasks| && Placed(db, s.known, s.tasks[a.k])
  }

  predicate Saves(db: Database, s: System, a: Action)
    requires ValidDatabase(db)
  {
    Acts(db, s, a) && Waits(s.tasks[a.k]) && a.answered
  }

  function Apply(db: Database, s: System, a: Action): System
    requires ValidDatabase(db)
  {
    if !Acts(db, s, a) then s else
      var t := s.tasks[a.k];
      if !Waits(t) then System(s.known, s.tasks[a.k := Looks(db, s.known, t)])
      else if a.answered then System(Saved(db, s.known, t), s.tasks[a.k := Resumes(db, t)])
      else System(s.known, s.tasks[a.k := Failed])
  }

  function Run(db: Database, s: System, actions: seq<Action>): System
    requires ValidDatabase(db)
    decreases |actions|
  {
    if actions == [] then s else Run(db, Apply(db, s, actions[0]), actions[1..])
  }

  /** Index and tree agree after every action of a run. */
  ghost predicate Agrees(db: Database, s: System, actions: seq<Action>)
    requires ValidDatabase(db)
    decreases |actions|
  {
    actions == [] || (
      && (Saves(db, s, actions[0]) ==> SaveFits(db, s.known, s.tasks[actions[0].k]))
      && Agrees(db, Apply(db, s, actions[0]), actions[1..]))
  }

  // ---------------------------------------------------------------- when a save fits

  /**
    A save of services comes too late once a characteristic is known, one of characteristics once a descriptor
    below is.
   */
  ghost predicate Late(db: Database, c: Catalog, t: Task)
    requires ValidDatabase(db) && Placed(db, c, t)
  {
    match t
    case AsksServices => exists h, s :: CharacteristicOf(c, h, s)
    case AsksCharacteristics(i) => exists x, d :: x in Below(db, i) && DescriptorOf(c, d, x.handle)
    case _ => false
  }

  lemma ServicesFitExactly(db: Database, c: Catalog)
    requires ValidDatabase(db) && Partial(c, db)
    ensures ServicesFit(c, ServicesOf(db)) <==> !exists h, s :: CharacteristicOf(c, h, s)
  {
    ServiceRecordIs(db);
    if h, s :| CharacteristicOf(c, h, s) {
      assert s in Known(c) && s in ServicesByHandle(ServicesOf(db));
    }
  }

  lemma CharacteristicsFitExactly(db: Database, c: Catalog, i: nat)
    requires ValidDatabase(db) && Partial(c, db) && c.services.Some? && i < |ServicesOf(db)|
    ensures CharacteristicsFit(c, ServiceAt(db, i).handle, Below(db, i))
       <==> !exists x, d :: x in Below(db, i) && DescriptorOf(c, d, x.handle)
  {
    var (s, list) := (ServiceAt(db, i), Below(db, i));
    ServiceRecordIs(db);
    CharacteristicRecordIs(db, s);
    assert s in ServicesOf(db);
    forall h, q | h in CharacteristicsByHandle(list) && CharacteristicOf(c, h, q)
      ensures q == s.handle
    {
      KnownCharacteristic(c, db, h, q);
      OneRange(db, s, CharacteristicRecord(db, s)[h], Known(c)[q], c.characteristics[q][h], h);
    }
  }

  lemma DescriptorsAlwaysFit(db: Database, c: Catalog, i: nat, j: nat)
    requires ValidDatabase(db) && Partial(c, db) && i < |ServicesOf(db)| && j < |Below(db, i)|
    ensures DescriptorsFit(c, Below(db, i)[j].handle, DescriptorsOf(db, Below(db, i)[j]))
  {
    var (s, x) := (ServiceAt(db, i), Below(db, i)[j]);
    assert s in ServicesOf(db) && x in CharacteristicsOf(db, s);
    forall d, q | d in DescriptorsByHandle(DescriptorsOf(db, x)) && DescriptorOf(c, d, q)
      ensures q == x.handle
    {
      var t :| CharacteristicOf(c, q, t);
      KnownCharacteristic(c, db, q, t);
      var y := c.characteristics[t][q];
      DescriptorRecordIs(db, x);
      DescriptorRecordIs(db, y);
      DescriptorsAreAttributes(db, x, d, DescriptorRecord(db, x)[d].uuid);
      DescriptorsAreAttributes(db, y, d, DescriptorRecord(db, y)[d].uuid);
      OneRange(db, s, x, Known(c)[t], y, d);
    }
  }

  /** A save fits exactly when it is not late. */
  lemma FitsUnlessLate(db: Database, c: Catalog, t: Task)
    requires ValidDatabase(db) && Partial(c, db) && Placed(db, c, t)
    ensures SaveFits(db, c, t) <==> !Late(db, c, t)
  {
    match t
    case AsksServices => ServicesFitExactly(db, c);
    case AsksCharacteristics(i) => CharacteristicsFitExactly(db, c, i);
    case AsksDescriptors(i, j) => DescriptorsAlwaysFit(db, c, i, j);
    case _ =>
  }

  // ---------------------------------------------------------------- what a save that fits leaves

  /** What calls rely on stays: the services, and records of characteristics that hold any. */
  predicate Keeps(c: Catalog, c': Catalog) {
    && (c.services.Some? ==> c'.services.Some?)
    && (forall s :: s in c.characteristics && c.characteristics[s] != map[] ==> s in c'.characteristics)
  }

  lemma NothingBelow(c: Catalog)
    requires WellFormed(c) && !exists h, s :: CharacteristicOf(c, h, s)
    ensures c.descriptors == map[] && forall s :: s in c.characteristics ==> c.characteristics[s] == map[]
  {
    assert forall h :: h in c.descriptors ==> exists s :: CharacteristicOf(c, h, s);
    forall s | s in c.characteristics
      ensures c.characteristics[s] == map[]
    {
      assert forall h :: h in c.characteristics[s] ==> CharacteristicOf(c, h, s);
    }
  }

  lemma OnlyServices(db: Database)
    requires ValidDatabase(db)
    ensures Partial(Catalog(Some(ServiceRecord(db)), {}, map[], map[]), db)
  {
    ServiceRecordIs(db);
  }

  lemma ServicesAgain(db: Database, c: Catalog)
    requires ValidDatabase(db) && Partial(c, db) && ServicesFit(c, ServicesOf(db))
    ensures SavedServices(c, ServicesOf(db)) == Catalog(Some(ServiceRecord(db)), {}, map[], map[])
    ensures var r := SavedServices(c, ServicesOf(db)); Partial(r, db) && Keeps(c, r)
  {
    ServicesFitExactly(db, c);
    NothingBelow(c);
    OnlyServices(db);
    var r := SavedServices(c, ServicesOf(db));
    assert c.services.Some? ==> Known(c) == ServiceRecord(db);
    assert r.services.value == ServiceRecord(db) && r.includesKnown == {} && r.characteristics == map[];
  }

  lemma RecordAgain(db: Database, c: Catalog, s: ServiceInfo)
    requires ValidDatabase(db) && Partial(c, db) && s.handle in c.characteristics && Known(c)[s.handle] == s
    ensures SavedCharacteristics(c, s.handle, CharacteristicsOf(db, s)) ==
      Catalog(c.services, c.includesKnown, c.characteristics, c.descriptors - CharacteristicRecord(db, s).Keys)
  {
    var record := CharacteristicRecord(db, s);
    assert c.characteristics[s.handle] == record && record + record == record;
    assert c.characteristics[s.handle := record] == c.characteristics;
  }

  lemma FewerDescribed(db: Database, c: Catalog, dropped: set<nat>)
    requires ValidDatabase(db) && Partial(c, db)
    ensures Partial(Catalog(c.services, c.includesKnown, c.characteristics, c.descriptors - dropped), db)
  {
    var r := Catalog(c.services, c.includesKnown, c.characteristics, c.descriptors - dropped);
    assert forall h, s :: CharacteristicOf(r, h, s) <==> CharacteristicOf(c, h, s);
    assert forall d, h :: DescriptorOf(r, d, h) ==> DescriptorOf(c, d, h);
    forall h | h in r.descriptors
      ensures exists s :: CharacteristicOf(r, h, s)
    {
      var s :| CharacteristicOf(c, h, s);
      assert CharacteristicOf(r, h, s);
    }
  }

  lemma KnownAt(db: Database, c: Catalog, i: nat)
    requires ValidDatabase(db) && Partial(c, db) && c.services.Some? && i < |ServicesOf(db)|
    ensures ServiceAt(db, i).handle in Known(c) && Known(c)[ServiceAt(db, i).handle] == ServiceAt(db, i)
  {
    ServiceRecordIs(db);
    assert ServiceAt(db, i) in ServicesOf(db);
  }

  lemma CharacteristicsAgain(db: Database, c: Catalog, i: nat)
    requires ValidDatabase(db) && Partial(c, db) && c.services.Some? && i < |ServicesOf(db)|
    ensures var r := SavedCharacteristics(c, ServiceAt(db, i).handle, Below(db, i));
      Partial(r, db) && Keeps(c, r) && ServiceAt(db, i).handle in r.characteristics
  {
    var s := ServiceAt(db, i);
    KnownAt(db, c, i);
    if s.handle in c.characteristics {
      RecordAgain(db, c, s);
      FewerDescribed(db, c, CharacteristicRecord(db, s).Keys);
    } else {
      CharacteristicsStep(c, db, s.handle);
    }
  }

  /** The characteristic a call asks about is known as the server has it. */
  lemma AskedAbout(db: Database, c: Catalog, i: nat, j: nat)
    requires ValidDatabase(db) && Partial(c, db) && Placed(db, c, AsksDescriptors(i, j))
    ensures var (s, x) := (ServiceAt(db, i), Below(db, i)[j]);
      CharacteristicOf(c, x.handle, s.handle) && c.characteristics[s.handle][x.handle] == x
  {
    KnownAt(db, c, i);
    CharacteristicRecordIs(db, ServiceAt(db, i));
    assert Below(db, i)[j] in CharacteristicsOf(db, ServiceAt(db, i));
  }

  lemma DescribedAlready(c: Catalog, h: nat, list: seq<DescriptorInfo>)
    requires h in c.descriptors && c.descriptors[h] == DescriptorsByHandle(list)
    ensures SavedDescriptors(c, h, list) == c
  {
    var record := DescriptorsByHandle(list);
    assert record + record == record && c.descriptors[h := record] == c.descriptors;
  }

  lemma DescribedNow(c: Catalog, h: nat, record: map<nat, DescriptorInfo>)
    requires h !in c.descriptors
    ensures Keeps(c, Described(c, h, record)) && Extends(c, Described(c, h, record))
  {
  }

  lemma DescriptorsAgain(db: Database, c: Catalog, i: nat, j: nat)
    requires ValidDatabase(db) && Partial(c, db) && Placed(db, c, AsksDescriptors(i, j))
    ensures var r := Saved(db, c, AsksDescriptors(i, j)); Partial(r, db) && Keeps(c, r) && Extends(c, r)
  {
    var (s, x) := (ServiceAt(db, i), Below(db, i)[j]);
    AskedAbout(db, c, i, j);
    if x.handle in c.descriptors {
      assert c.descriptors[x.handle] == DescriptorRecord(db, x);
      DescribedAlready(c, x.handle, DescriptorsOf(db, x));
    } else {
      hide WellFormed, Consistent, Keeps, Extends;
      DescriptorsStep(c, db, x.handle, s.handle, x);
      DescribedNow(c, x.handle, DescriptorRecord(db, x));
    }
  }

  lemma SaveLeaves(db: Database, c: Catalog, t: Task)
    requires ValidDatabase(db) && Partial(c, db) && Placed(db, c, t) && SaveFits(db, c, t)
    ensures Partial(Saved(db, c, t), db) && Keeps(c, Saved(db, c, t)) && Placed(db, Saved(db, c, t), Resumes(db, t))
  {
    match t
    case AsksServices => ServicesAgain(db, c);
    case AsksIncludes(i) =>
      if !HasInclude(db, ServiceAt(db, i)) {
        KnownAt(db, c, i);
        IncludesStep(c, db, ServiceAt(db, i).handle);
      }
    case AsksCharacteristics(i) => CharacteristicsAgain(db, c, i);
    case AsksDescriptors(i, j) => DescriptorsAgain(db, c, i, j);
    case _ =>
  }

  lemma StaysPlaced(db: Database, c: Catalog, c': Catalog, t: Task)
    requires ValidDatabase(db) && Partial(c, db) && Placed(db, c, t) && Keeps(c, c')
    ensures Placed(db, c', t)
  {
    if (t.AtCharacteristic? || t.AsksDescriptors?) && Below(db, t.i) != [] {
      KnownAt(db, c, t.i);
      var s := ServiceAt(db, t.i);
      CharacteristicRecordIs(db, s);
      assert Below(db, t.i)[0] in CharacteristicsOf(db, s);
      assert Below(db, t.i)[0].handle in c.characteristics[s.handle];
    }
  }

  lemma LooksOn(db: Database, c: Catalog, t: Task)
    requires ValidDatabase(db) && Placed(db, c, t)
    ensures Placed(db, c, Looks(db, c, t))
  {
  }

  lemma StepLeaves(db: Database, s: System, a: Action)
    requires ValidDatabase(db) && Partial(s.known, db) && AllPlaced(db, s)
    requires Saves(db, s, a) ==> SaveFits(db, s.known, s.tasks[a.k])
    ensures Partial(Apply(db, s, a).known, db) && AllPlaced(db, Apply(db, s, a))
  {
    if Acts(db, s, a) {
      var r := Apply(db, s, a);
      var t := s.tasks[a.k];
      if Saves(db, s, a) {
        SaveLeaves(db, s.known, t);
      } else if !Waits(t) {
        LooksOn(db, s.known, t);
      }
      forall k | 0 <= k < |r.tasks|
        ensures Placed(db, r.known, r.tasks[k])
      {
        if k != a.k {
          StaysPlaced(db, s.known, r.known, s.tasks[k]);
        }
      }
    }
  }

  /** No save of a run is late. */
  ghost predicate Timely(db: Database, s: System, actions: seq<Action>)
    requires ValidDatabase(db)
    decreases |actions|
  {
    actions == [] || (
      && (Saves(db, s, actions[0]) ==> !Late(db, s.known, s.tasks[actions[0].k]))
      && Timely(db, Apply(db, s, actions[0]), actions[1..]))
  }

  /**
    However calls overlap, index and tree agree all along exactly when no answer with services is saved once
    a characteristic is known, and none with characteristics once a descriptor of one of them is.
   */
  lemma {:induction false} AgreesUnlessLate(db: Database, s: System, actions: seq<Action>)
    requires ValidDatabase(db) && Partial(s.known, db) && AllPlaced(db, s)
    ensures Agrees(db, s, actions) <==> Timely(db, s, actions)
    ensures Agrees(db, s, actions) ==> Partial(Run(db, s, actions).known, db)
    decreases |actions|
  {
    if actions != [] {
      var a := actions[0];
      if Saves(db, s, a) {
        FitsUnlessLate(db, s.known, s.tasks[a.k]);
      }
      if Saves(db, s, a) ==> SaveFits(db, s.known, s.tasks[a.k]) {
        StepLeaves(db, s, a);
        AgreesUnlessLate(db, Apply(db, s, a), actions[1..]);
      }
    }
  }

  // ---------------------------------------------------------------- calls that do not ask for the same

  datatype Record = Services | Includes(handle: nat) | Characteristics(handle: nat) | Descriptors(handle: nat)

  predicate Has(c: Catalog, r: Record) {
    match r
    case Services => c.services.Some?
    case Includes(h) => h in c.includesKnown
    case Characteristics(h) => h in c.characteristics
    case Descriptors(h) => h in c.descriptors
  }

  /** The record a call waits for. */
  function Wants(db: Database, t: Task): Option<Record>
    requires ValidDatabase(db)
  {
    match t
    case AsksServices => Some(Services)
    case AsksIncludes(i) => if i < |ServicesOf(db)| then Some(Includes(ServiceAt(db, i).handle)) else None
    case AsksCharacteristics(i) => if i < |ServicesOf(db)| then Some(Characteristics(ServiceAt(db, i).handle)) else None
    case AsksDescriptors(i, j) =>
      if i < |ServicesOf(db)| && j < |Below(db, i)| then Some(Descriptors(Below(db, i)[j].handle)) else None
    case _ => None
  }

  /** No two calls wait for the same record. */
  ghost predicate Exclusive(db: Database, s: System)
    requires ValidDatabase(db)
  {
    forall k, m :: 0 <= k < |s.tasks| && 0 <= m < |s.tasks| && k != m && Wants(db, s.tasks[k]).Some? ==>
      Wants(db, s.tasks[k]) != Wants(db, s.tasks[m])
  }

  ghost predicate AlwaysExclusive(db: Database, s: System, actions: seq<Action>)
    requires ValidDatabase(db)
    decreases |actions|
  {
    Exclusive(db, s) && (actions == [] || AlwaysExclusive(db, Apply(db, s, actions[0]), actions[1..]))
  }

  predicate DescribedUpTo(c: Catalog, list: seq<CharacteristicInfo>, n: nat)
    requires n <= |list|
  {
    forall j :: 0 <= j < n ==> list[j].handle in c.descriptors
  }

  /** Everything a call has passed is known; when it has finished, everything is. */
  ghost predicate Through(db: Database, c: Catalog, t: Task)
    requires ValidDatabase(db)
  {
    match t
    case Starts | AsksServices | Failed => true
    case AtService(i) => Placed(db, c, t) && ChartedUpTo(c, ServicesOf(db), i)
    case AsksIncludes(i) => Placed(db, c, t) && ChartedUpTo(c, ServicesOf(db), i)
    case HasIncludes(i) =>
      Placed(db, c, t) && ChartedUpTo(c, ServicesOf(db), i) && Has(c, Includes(ServiceAt(db, i).handle))
    case AsksCharacteristics(i) =>
      Placed(db, c, t) && ChartedUpTo(c, ServicesOf(db), i) && Has(c, Includes(ServiceAt(db, i).handle))
    case AtCharacteristic(i, j) => Placed(db, c, t) && ThroughCharacteristics(db, c, i, j)
    case AsksDescriptors(i, j) => Placed(db, c, t) && ThroughCharacteristics(db, c, i, j)
    case Finished => Complete(c)
  }

  ghost predicate ThroughCharacteristics(db: Database, c: Catalog, i: nat, j: nat)
    requires ValidDatabase(db) && i < |ServicesOf(db)| && j <= |Below(db, i)|
  {
    && ChartedUpTo(c, ServicesOf(db), i) && Has(c, Includes(ServiceAt(db, i).handle))
    && Has(c, Characteristics(ServiceAt(db, i).handle)) && DescribedUpTo(c, Below(db, i), j)
  }

  /** And what it waits for is not known yet. */
  ghost predicate OnTrack(db: Database, c: Catalog, t: Task)
    requires ValidDatabase(db)
  {
    Through(db, c, t) && (Wants(db, t).Some? ==> !Has(c, Wants(db, t).value))
  }

  ghost predicate AllOnTrack(db: Database, s: System)
    requires ValidDatabase(db)
  {
    forall k :: 0 <= k < |s.tasks| ==> OnTrack(db, s.known, s.tasks[k])
  }

  lemma RecordIs(db: Database, c: Catalog, i: nat)
    requires ValidDatabase(db) && Partial(c, db) && c.services.Some? && i < |ServicesOf(db)|
    requires ServiceAt(db, i).handle in c.characteristics
    ensures c.characteristics[ServiceAt(db, i).handle] == CharacteristicRecord(db, ServiceAt(db, i))
  {
    KnownAt(db, c, i);
  }

  /** The last characteristic of a service passed, the service is charted. */
  lemma PastService(db: Database, c: Catalog, i: nat)
    requires ValidDatabase(db) && Partial(c, db) && c.services.Some? && i < |ServicesOf(db)|
    requires ThroughCharacteristics(db, c, i, |Below(db, i)|)
    ensures ChartedUpTo(c, ServicesOf(db), i + 1)
  {
    var s := ServiceAt(db, i);
    RecordIs(db, c, i);
    CharacteristicRecordIs(db, s);
    forall h | h in c.characteristics[s.handle]
      ensures h in c.descriptors
    {
      var j :| 0 <= j < |Below(db, i)| && Below(db, i)[j] == c.characteristics[s.handle][h];
    }
  }

  lemma LooksOnTrack(db: Database, c: Catalog, t: Task)
    requires ValidDatabase(db) && Partial(c, db) && Placed(db, c, t) && OnTrack(db, c, t) && !Waits(t)
    ensures OnTrack(db, c, Looks(db, c, t))
  {
    hide WellFormed, Consistent, ValidDatabase, CharacteristicsOf, ServicesOf, Complete;
    match t
    case AtService(i) =>
      if i == |ServicesOf(db)| {
        ListCharted(c, db);
      }
    case AtCharacteristic(i, j) =>
      if j == |Below(db, i)| {
        PastService(db, c, i);
      }
    case _ =>
  }

  lemma ServicesMissing(db: Database, c: Catalog)
    requires ValidDatabase(db) && Partial(c, db) && c.services.None?
    ensures var r := SavedServices(c, ServicesOf(db)); ServicesFit(c, ServicesOf(db)) && Extends(c, r)
    ensures SavedServices(c, ServicesOf(db)) == Catalog(Some(ServiceRecord(db)), {}, map[], map[])
  {
    ServicesHanded(c, db);
    FirstSave(c, db);
  }

  lemma CharacteristicsMissing(db: Database, c: Catalog, i: nat)
    requires ValidDatabase(db) && Partial(c, db) && c.services.Some? && i < |ServicesOf(db)|
    requires ServiceAt(db, i).handle !in c.characteristics
    ensures var (s, list) := (ServiceAt(db, i), Below(db, i));
      && CharacteristicsFit(c, s.handle, list) && Extends(c, SavedCharacteristics(c, s.handle, list))
      && SavedCharacteristics(c, s.handle, list)
        == Catalog(c.services, c.includesKnown, c.characteristics[s.handle := CharacteristicRecord(db, s)],
          c.descriptors)
  {
    KnownAt(db, c, i);
    CharacteristicsStep(c, db, ServiceAt(db, i).handle);
    CharacteristicsSave(c, db, ServiceAt(db, i).handle);
  }

  lemma AnswersWhatIsMissing(db: Database, c: Catalog, t: Task)
    requires ValidDatabase(db) && Partial(c, db) && Placed(db, c, t) && OnTrack(db, c, t) && Waits(t)
    ensures SaveFits(db, c, t) && Extends(c, Saved(db, c, t))
    ensures forall r :: Has(Saved(db, c, t), r) ==> Has(c, r) || Wants(db, t) == Some(r)
  {
    hide WellFormed, Consistent, ValidDatabase, CharacteristicsOf, DescriptorsOf, ServicesOf;
    hide ServicesFit, CharacteristicsFit, DescriptorsFit, SavedCharacteristics, SavedServices;
    match t
    case AsksServices => ServicesMissing(db, c);
    case AsksIncludes(i) =>
    case AsksCharacteristics(i) => CharacteristicsMissing(db, c, i);
    case AsksDescriptors(i, j) =>
      DescriptorsAlwaysFit(db, c, i, j);
      DescriptorsAgain(db, c, i, j);
  }

  lemma StillThrough(db: Database, c: Catalog, c': Catalog, t: Task)
    requires ValidDatabase(db) && Partial(c, db) && Partial(c', db) && Through(db, c, t) && Extends(c, c')
    ensures Through(db, c', t)
  {
    match t
    case AtService(i) => StillCharted(c, c', ServicesOf(db), i);
    case AsksIncludes(i) => StillCharted(c, c', ServicesOf(db), i);
    case HasIncludes(i) => StillCharted(c, c', ServicesOf(db), i);
    case AsksCharacteristics(i) => StillCharted(c, c', ServicesOf(db), i);
    case AtCharacteristic(i, j) => StillCharted(c, c', ServicesOf(db), i);
    case AsksDescriptors(i, j) => StillCharted(c, c', ServicesOf(db), i);
    case Finished => StillComplete(c, c');
    case _ =>
  }

  lemma StillComplete(c: Catalog, c': Catalog)
    requires WellFormed(c') && Complete(c) && Extends(c, c')
    ensures Complete(c')
  {
    forall h, s | CharacteristicOf(c', h, s)
      ensures h in c'.descriptors
    {
      assert CharacteristicOf(c, h, s);
    }
  }

  /** What a call waited for is known once it is saved. */
  lemma NothingMissing(db: Database, c: Catalog, t: Task)
    requires ValidDatabase(db) && Placed(db, c, t) && Waits(t)
    requires t.AsksIncludes? ==> !HasInclude(db, ServiceAt(db, t.i))
    ensures Wants(db, t).Some? && Has(Saved(db, c, t), Wants(db, t).value)
  {
  }

  lemma Passes(db: Database, c: Catalog, t: Task)
    requires ValidDatabase(db) && Through(db, c, t) && Waits(t) && Wants(db, t).Some? && Has(c, Wants(db, t).value)
    requires t.AsksIncludes? ==> !HasInclude(db, ServiceAt(db, t.i))
    ensures OnTrack(db, c, Resumes(db, t))
  {
    hide ValidDatabase, CharacteristicsOf, ServicesOf, HasInclude;
  }

  /** Saved, the answer is no longer missing, and the call is past it. */
  lemma ResumesOnTrack(db: Database, c: Catalog, t: Task)
    requires ValidDatabase(db) && Partial(c, db) && Placed(db, c, t) && OnTrack(db, c, t) && Waits(t)
    requires Partial(Saved(db, c, t), db) && Extends(c, Saved(db, c, t))
    ensures OnTrack(db, Saved(db, c, t), Resumes(db, t))
  {
    StillThrough(db, c, Saved(db, c, t), t);
    if t.AsksIncludes? && HasInclude(db, ServiceAt(db, t.i)) {
      assert Resumes(db, t) == Failed;
    } else {
      NothingMissing(db, c, t);
      hide Saved, Resumes, OnTrack, Through, Partial, Extends, Has, Wants;
      Passes(db, Saved(db, c, t), t);
    }
  }

  lemma StepOnTrack(db: Database, s: System, a: Action)
    requires ValidDatabase(db) && Partial(s.known, db) && AllPlaced(db, s) && AllOnTrack(db, s) && Exclusive(db, s)
    ensures Saves(db, s, a) ==> SaveFits(db, s.known, s.tasks[a.k])
    ensures AllOnTrack(db, Apply(db, s, a)) && Extends(s.known, Apply(db, s, a).known)
  {
    if Acts(db, s, a) {
      var (t, r) := (s.tasks[a.k], Apply(db, s, a));
      if Saves(db, s, a) {
        AnswersWhatIsMissing(db, s.known, t);
        SaveLeaves(db, s.known, t);
        ResumesOnTrack(db, s.known, t);
      } else if !Waits(t) {
        LooksOnTrack(db, s.known, t);
      }
      forall k | 0 <= k < |r.tasks|
        ensures OnTrack(db, r.known, r.tasks[k])
      {
        if k != a.k {
          StillThrough(db, s.known, r.known, s.tasks[k]);
        }
      }
    }
  }

  /**
    Calls that never wait for the same record are as good as one: index and tree agree all along, nothing
    known is lost, and whichever finishes returns a complete profile.
   */
  lemma {:induction false} ExclusiveCallsAreSafe(db: Database, s: System, actions: seq<Action>)
    requires ValidDatabase(db) && Partial(s.known, db) && AllPlaced(db, s) && AllOnTrack(db, s)
    requires AlwaysExclusive(db, s, actions)
    ensures var r := Run(db, s, actions);
      && Agrees(db, s, actions) && Partial(r.known, db) && Extends(s.known, r.known)
      && (forall k :: 0 <= k < |r.tasks| && r.tasks[k].Finished? ==> Complete(r.known))
    decreases |actions|
  {
    if actions == [] {
      ExtendsItself(s.known);
      assert forall k :: 0 <= k < |s.tasks| ==> OnTrack(db, s.known, s.tasks[k]);
    } else {
      var next := Apply(db, s, actions[0]);
      StepOnTrack(db, s, actions[0]);
      StepLeaves(db, s, actions[0]);
      ExclusiveCallsAreSafe(db, next, actions[1..]);
      ExtendsOn(s.known, next.known, Run(db, s, actions).known);
    }
  }

  /** A single call waits for nothing that another waits for. */
  lemma {:induction false} OneCallIsExclusive(db: Database, s: System, actions: seq<Action>)
    requires ValidDatabase(db) && |s.tasks| <= 1
    ensures AlwaysExclusive(db, s, actions)
    decreases |actions|
  {
    if actions != [] {
      OneCallIsExclusive(db, Apply(db, s, actions[0]), actions[1..]);
    }
  }

  // ---------------------------------------------------------------- calls that do

  lemma {:induction false} RunOn(db: Database, s: System, actions: seq<Action>, more: seq<Action>)
    requires ValidDatabase(db)
    ensures Run(db, s, actions + more) == Run(db, Run(db, s, actions), more)
    ensures Agrees(db, s, actions + more) <==> Agrees(db, s, actions) && Agrees(db, Run(db, s, actions), more)
    decreases |actions|
  {
    if actions == [] {
      assert actions + more == more;
    } else {
      assert (actions + more)[1..] == actions[1..] + more;
      RunOn(db, Apply(db, s, actions[0]), actions[1..], more);
    }
  }

  /** The run gets there, and index and tree agree all the way. */
  ghost predicate Reaches(db: Database, s: System, actions: seq<Action>, r: System)
    requires ValidDatabase(db)
  {
    Run(db, s, actions) == r && Agrees(db, s, actions)
  }

  lemma OneMore(db: Database, s: System, actions: seq<Action>, r: System, a: Action, more: seq<Action>, r': System)
    requires ValidDatabase(db) && Reaches(db, s, actions, r) && Apply(db, r, a) == r' && more == actions + [a]
    requires Saves(db, r, a) ==> SaveFits(db, r.known, r.tasks[a.k])
    ensures Reaches(db, s, more, r')
  {
    RunOn(db, s, actions, [a]);
    assert Run(db, r, [a]) == r' && Agrees(db, r, [a]);
  }

  const FIRST := Runs(0, true)
  const SECOND := Runs(1, true)
  const TWO_CALLS := System(EMPTY, [Starts, Starts])

  function JustServices(db: Database): Catalog
    requires ValidDatabase(db)
  {
    Catalog(Some(ServiceRecord(db)), {}, map[], map[])
  }

  /** Both calls ask for the services before the first goes on with its answer. */
  const BOTH_ASK := [FIRST, SECOND, FIRST, FIRST]

  lemma BothAsk(db: Database)
    requires ValidDatabase(db) && ServicesOf(db) != []
    ensures Reaches(db, TWO_CALLS, BOTH_ASK, System(JustServices(db), [AsksIncludes(0), AsksServices]))
  {
    hide WellFormed, Consistent, ValidDatabase;
    var known := JustServices(db);
    var one := System(EMPTY, [AsksServices, Starts]);
    var two := System(EMPTY, [AsksServices, AsksServices]);
    var three := System(known, [AtService(0), AsksServices]);
    EmptyIsPartial(db);
    ServicesMissing(db, EMPTY);
    assert Reaches(db, TWO_CALLS, [], TWO_CALLS);
    hide Run, Agrees, SavedServices, ServicesFit;
    OneMore(db, TWO_CALLS, [], TWO_CALLS, FIRST, [FIRST], one);
    OneMore(db, TWO_CALLS, [FIRST], one, SECOND, [FIRST, SECOND], two);
    OneMore(db, TWO_CALLS, [FIRST, SECOND], two, FIRST, [FIRST, SECOND, FIRST], three);
    OneMore(db, TWO_CALLS, [FIRST, SECOND, FIRST], three, FIRST, BOTH_ASK,
      System(known, [AsksIncludes(0), AsksServices]));
  }

  /** The first call then goes on alone up to its characteristics. */
  const FIRST_GOES_ON := BOTH_ASK + [FIRST, FIRST, FIRST]

  lemma FirstGoesOn(db: Database)
    requires ValidDatabase(db) && ServicesOf(db) != [] && !HasInclude(db, ServiceAt(db, 0))
    ensures var s := ServiceAt(db, 0);
      Reaches(db, TWO_CALLS, FIRST_GOES_ON,
        System(Catalog(Some(ServiceRecord(db)), {s.handle}, map[s.handle := CharacteristicRecord(db, s)], map[]),
          [AtCharacteristic(0, 0), AsksServices]))
  {
    hide WellFormed, Consistent, ValidDatabase;
    var s := ServiceAt(db, 0);
    var services := Some(ServiceRecord(db));
    var known := Catalog(services, {s.handle}, map[], map[]);
    var listed := Catalog(services, {s.handle}, map[s.handle := CharacteristicRecord(db, s)], map[]);
    var four := System(JustServices(db), [AsksIncludes(0), AsksServices]);
    var five := System(known, [HasIncludes(0), AsksServices]);
    var six := System(known, [AsksCharacteristics(0), AsksServices]);
    BothAsk(db);
    OnlyServices(db);
    KnownAt(db, JustServices(db), 0);
    IncludesStep(JustServices(db), db, s.handle);
    assert SavedIncludes(JustServices(db), s.handle) == known;
    CharacteristicsMissing(db, known, 0);
    assert map[][s.handle := CharacteristicRecord(db, s)] == map[s.handle := CharacteristicRecord(db, s)];
    hide Run, Agrees, SavedCharacteristics, CharacteristicsFit, Reaches;
    OneMore(db, TWO_CALLS, BOTH_ASK, four, FIRST, BOTH_ASK + [FIRST], five);
    OneMore(db, TWO_CALLS, BOTH_ASK + [FIRST], five, FIRST, BOTH_ASK + [FIRST, FIRST], six);
    OneMore(db, TWO_CALLS, BOTH_ASK + [FIRST, FIRST], six, FIRST, FIRST_GOES_ON,
      System(listed, [AtCharacteristic(0, 0), AsksServices]));
  }

  /**
    With any server whose first service has a characteristic, two calls that start together can leave index
    and tree in disagreement: the second answer with services replaces one that has characteristics.
   */
  lemma OverlapDisagrees(db: Database)
    requires ValidDatabase(db) && ServicesOf(db) != [] && !HasInclude(db, ServiceAt(db, 0)) && Below(db, 0) != []
    ensures !Agrees(db, TWO_CALLS, FIRST_GOES_ON + [SECOND])
  {
    var s := ServiceAt(db, 0);
    FirstGoesOn(db);
    RunOn(db, TWO_CALLS, FIRST_GOES_ON, [SECOND]);
    var r := Run(db, TWO_CALLS, FIRST_GOES_ON);
    ServiceRecordIs(db);
    CharacteristicRecordIs(db, s);
    assert s in ServicesOf(db) && Below(db, 0)[0] in CharacteristicsOf(db, s);
    assert CharacteristicOf(r.known, Below(db, 0)[0].handle, s.handle);
    assert !SaveFits(db, r.known, r.tasks[1]);
  }

  const SECOND_ANSWERS_EARLY := BOTH_ASK + [FIRST, SECOND, FIRST, FIRST, FIRST, FIRST]

  /** All of a server that has one service and no characteristics, but for the record of included services. */
  function WithoutIncludes(db: Database): Catalog
    requires ValidDatabase(db) && ServicesOf(db) != []
  {
    Catalog(Some(ServiceRecord(db)), {}, map[ServiceAt(db, 0).handle := map[]], map[])
  }

  /**
    Even when they agree, a call that has finished need not have found everything: where the second answer
    with services comes before any characteristic is known, it takes the record of included services with it.
   */
  lemma OverlapForgets(db: Database)
    requires ValidDatabase(db) && |ServicesOf(db)| == 1 && !HasInclude(db, ServiceAt(db, 0)) && Below(db, 0) == []
    ensures Reaches(db, TWO_CALLS, SECOND_ANSWERS_EARLY, System(WithoutIncludes(db), [Finished, AtService(0)]))
    ensures !Complete(WithoutIncludes(db))
  {
    hide WellFormed, Consistent, ValidDatabase;
    var s := ServiceAt(db, 0);
    var services := Some(ServiceRecord(db));
    var known := Catalog(services, {s.handle}, map[], map[]);
    var listed := WithoutIncludes(db);
    var four := System(JustServices(db), [AsksIncludes(0), AsksServices]);
    var five := System(known, [HasIncludes(0), AsksServices]);
    var six := System(JustServices(db), [HasIncludes(0), AtService(0)]);
    var seven := System(JustServices(db), [AsksCharacteristics(0), AtService(0)]);
    var eight := System(listed, [AtCharacteristic(0, 0), AtService(0)]);
    var nine := System(listed, [AtService(1), AtService(0)]);
    var ten := System(listed, [Finished, AtService(0)]);
    BothAsk(db);
    OnlyServices(db);
    KnownAt(db, JustServices(db), 0);
    IncludesStep(JustServices(db), db, s.handle);
    assert SavedIncludes(JustServices(db), s.handle) == known;
    ServicesFitExactly(db, known);
    ServicesAgain(db, known);
    CharacteristicsMissing(db, JustServices(db), 0);
    assert CharacteristicRecord(db, s) == map[];
    hide Run, Agrees, SavedCharacteristics, CharacteristicsFit, SavedServices, ServicesFit, Reaches;
    OneMore(db, TWO_CALLS, BOTH_ASK, four, FIRST, BOTH_ASK + [FIRST], five);
    OneMore(db, TWO_CALLS, BOTH_ASK + [FIRST], five, SECOND, BOTH_ASK + [FIRST, SECOND], six);
    OneMore(db, TWO_CALLS, BOTH_ASK + [FIRST, SECOND], six, FIRST, BOTH_ASK + [FIRST, SECOND, FIRST], seven);
    OneMore(db, TWO_CALLS, BOTH_ASK + [FIRST, SECOND, FIRST], seven, FIRST, BOTH_ASK + [FIRST, SECOND, FIRST, FIRST],
      eight);
    OneMore(db, TWO_CALLS, BOTH_ASK + [FIRST, SECOND, FIRST, FIRST], eight, FIRST,
      BOTH_ASK + [FIRST, SECOND, FIRST, FIRST, FIRST], nine);
    OneMore(db, TWO_CALLS, BOTH_ASK + [FIRST, SECOND, FIRST, FIRST, FIRST], nine, FIRST, SECOND_ANSWERS_EARLY, ten);
    assert s.handle in Known(listed);
  }
}
