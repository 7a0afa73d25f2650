/**
  What a `GattDirectory` knows, as a value: services, their characteristics, and the descriptors of
  those, each either not yet discovered or a record keyed by handle.

  `Profile` is the tree that callers see. `Catalog` lists the same facts parent by parent, and is what
  the directory's object graph is proved against.
 */
module GattProfile {
  import opened Bytes

  /** A UUID as the bytes it was received in; the code's strings are the same bytes, reversed, in hexadecimal. */
  type Uuid = seq<byte>

  datatype ServiceInfo = ServiceInfo(handle: nat, endingHandle: int, uuid: Uuid)

  datatype CharacteristicInfo = CharacteristicInfo(
    handle: nat, endingHandle: int, valueHandle: nat, uuid: Uuid, properties: byte)

  datatype DescriptorInfo = DescriptorInfo(handle: nat, endingHandle: int, uuid: Uuid)

  // ---------------------------------------------------------------- the tree

  datatype Characteristic = Characteristic(
    characteristic: CharacteristicInfo, descriptors: Option<map<nat, DescriptorInfo>>)

  /** `includesKnown` tells whether the record of included services is there; it then is empty. */
  datatype Service = Service(
    service: ServiceInfo, includesKnown: bool, characteristics: Option<map<nat, Characteristic>>)

  datatype Profile = Profile(services: Option<map<nat, Service>>)

  predicate HasService(p: Profile, s: nat) {
    p.services.Some? && s in p.services.value
  }

  predicate HasCharacteristic(p: Profile, s: nat, c: nat) {
    && HasService(p, s) && p.services.value[s].characteristics.Some?
    && c in p.services.value[s].characteristics.value
  }

  function CharacteristicAt(p: Profile, s: nat, c: nat): Characteristic
    requires HasCharacteristic(p, s, c)
  {
    p.services.value[s].characteristics.value[c]
  }

  predicate HasDescriptor(p: Profile, s: nat, c: nat, d: nat) {
    && HasCharacteristic(p, s, c) && CharacteristicAt(p, s, c).descriptors.Some?
    && d in CharacteristicAt(p, s, c).descriptors.value
  }

  /** Every record is kept under its own handle. */
  ghost predicate Ordered(p: Profile) {
    && (forall s :: HasService(p, s) ==> p.services.value[s].service.handle == s)
    && (forall s, c :: HasCharacteristic(p, s, c) ==> CharacteristicAt(p, s, c).characteristic.handle == c)
    && (forall s, c, d :: HasDescriptor(p, s, c, d) ==> CharacteristicAt(p, s, c).descriptors.value[d].handle == d)
  }

  /** No handle occurs at two places of a level. */
  ghost predicate OnePlaceEach(p: Profile) {
    && (forall s, s', c :: HasCharacteristic(p, s, c) && HasCharacteristic(p, s', c) ==> s == s')
    && (forall s, c, s', c', d :: HasDescriptor(p, s, c, d) && HasDescriptor(p, s', c', d) ==> c == c')
  }

  ghost predicate Unique(p: Profile) {
    Ordered(p) && OnePlaceEach(p)
  }

  // ---------------------------------------------------------------- parent by parent

  datatype Catalog = Catalog(
    services: Option<map<nat, ServiceInfo>>,
    includesKnown: set<nat>,
    characteristics: map<nat, map<nat, CharacteristicInfo>>,
    descriptors: map<nat, map<nat, DescriptorInfo>>)

  const EMPTY := Catalog(None, {}, map[], map[])

  function Known(c: Catalog): map<nat, ServiceInfo> {
    if c.services.Some? then c.services.value else map[]
  }

  predicate CharacteristicOf(c: Catalog, h: nat, s: nat) {
    s in c.characteristics && h in c.characteristics[s]
  }

  predicate DescriptorOf(c: Catalog, d: nat, h: nat) {
    h in c.descriptors && d in c.descriptors[h]
  }

  /** Every record is kept under its own handle, has one parent, and the parent is known. */
  ghost predicate WellFormed(c: Catalog) {
    && (forall s :: s in Known(c) ==> Known(c)[s].handle == s)
    && c.includesKnown <= Known(c).Keys
    && c.characteristics.Keys <= Known(c).Keys
    && (forall h :: h in c.descriptors ==> exists s :: CharacteristicOf(c, h, s))
    && (forall h, s :: CharacteristicOf(c, h, s) ==> c.characteristics[s][h].handle == h)
    && (forall d, h :: DescriptorOf(c, d, h) ==> c.descriptors[h][d].handle == d)
    && (forall h, s, s' :: CharacteristicOf(c, h, s) && CharacteristicOf(c, h, s') ==> s == s')
    && (forall d, h, h' :: DescriptorOf(c, d, h) && DescriptorOf(c, d, h') ==> h == h')
  }

  function DescriptorsAt(c: Catalog, h: nat): Option<map<nat, DescriptorInfo>> {
    if h in c.descriptors then Some(c.descriptors[h]) else None
  }

  function CharacteristicsAt(c: Catalog, s: nat): Option<map<nat, Characteristic>> {
    if s !in c.characteristics then None
    else Some(map h | h in c.characteristics[s] :: Characteristic(c.characteristics[s][h], DescriptorsAt(c, h)))
  }

  /** The tree of a catalog. */
  function Tree(c: Catalog): Profile {
    if c.services.None? then Profile(None)
    else Profile(Some(map s | s in c.services.value ::
      Service(c.services.value[s], s in c.includesKnown, CharacteristicsAt(c, s))))
  }

  lemma TreePaths(c: Catalog)
    requires WellFormed(c)
    ensures forall s :: HasService(Tree(c), s) <==> s in Known(c)
    ensures forall s, h :: HasCharacteristic(Tree(c), s, h) <==> CharacteristicOf(c, h, s)
    ensures forall s, h :: CharacteristicOf(c, h, s) ==>
      CharacteristicAt(Tree(c), s, h) == Characteristic(c.characteristics[s][h], DescriptorsAt(c, h))
    ensures forall s, h, d :: HasDescriptor(Tree(c), s, h, d) <==> CharacteristicOf(c, h, s) && DescriptorOf(c, d, h)
  {
  }

  /** The tree of a well-formed catalog has unique handles, so a directory can be built from it. */
  lemma TreeIsUnique(c: Catalog)
    requires WellFormed(c)
    ensures Unique(Tree(c))
  {
    TreePaths(c);
  }

  /** No fact is lost in the tree: well-formed catalogs with the same tree are the same. */
  lemma TreeDeterminesCatalog(c: Catalog, c': Catalog)
    requires WellFormed(c) && WellFormed(c') && Tree(c) == Tree(c')
    ensures c == c'
  {
    var p := Tree(c);
    TreePaths(c);
    TreePaths(c');
    assert Known(c) == Known(c') by {
      assert forall s :: s in Known(c) ==> p.services.value[s].service == Known(c)[s];
      assert forall s :: s in Known(c') ==> p.services.value[s].service == Known(c')[s];
    }
    assert c.includesKnown == c'.includesKnown by {
      assert forall s :: s in c.includesKnown <==> s in Known(c) && p.services.value[s].includesKnown;
      assert forall s :: s in c'.includesKnown <==> s in Known(c') && p.services.value[s].includesKnown;
    }
    SameCharacteristics(c, c');
    SameDescriptors(c, c');
    SameDescriptors(c', c);
    assert c.descriptors == c'.descriptors;
  }

  lemma SameCharacteristics(c: Catalog, c': Catalog)
    requires WellFormed(c) && WellFormed(c') && Tree(c) == Tree(c')
    ensures c.characteristics == c'.characteristics
  {
    var p := Tree(c);
    TreePaths(c);
    TreePaths(c');
    assert forall s :: s in c.characteristics <==> HasService(p, s) && p.services.value[s].characteristics.Some?;
    assert forall s :: s in c'.characteristics <==> HasService(p, s) && p.services.value[s].characteristics.Some?;
    forall s | s in c.characteristics
      ensures c.characteristics[s] == c'.characteristics[s]
    {
      assert forall h :: h in c.characteristics[s] <==> CharacteristicOf(c, h, s);
      assert forall h :: h in c'.characteristics[s] <==> CharacteristicOf(c', h, s);
      forall h | h in c.characteristics[s]
        ensures c.characteristics[s][h] == c'.characteristics[s][h]
      {
        assert CharacteristicAt(p, s, h).characteristic == c.characteristics[s][h];
        assert CharacteristicAt(p, s, h).characteristic == c'.characteristics[s][h];
      }
    }
  }

  lemma SameDescriptors(c: Catalog, c': Catalog)
    requires WellFormed(c) && WellFormed(c') && Tree(c) == Tree(c')
    ensures forall h :: h in c.descriptors ==> h in c'.descriptors && c'.descriptors[h] == c.descriptors[h]
  {
    TreePaths(c);
    TreePaths(c');
    forall h | h in c.descriptors
      ensures h in c'.descriptors && c'.descriptors[h] == c.descriptors[h]
    {
      var s :| CharacteristicOf(c, h, s);
      assert CharacteristicAt(Tree(c), s, h).descriptors == DescriptorsAt(c, h);
      assert CharacteristicOf(c', h, s);
      assert CharacteristicAt(Tree(c'), s, h).descriptors == DescriptorsAt(c', h);
    }
  }

  // ---------------------------------------------------------------- lookups

  datatype Entry = Entry(service: ServiceInfo, characteristic: CharacteristicInfo, descriptor: DescriptorInfo)

  /** `e` names the descriptor kept under `d`, the characteristic that has it, and the service that has that. */
  ghost predicate Leads(c: Catalog, d: nat, e: Entry) {
    && e.service.handle in Known(c) && Known(c)[e.service.handle] == e.service
    && CharacteristicOf(c, e.characteristic.handle, e.service.handle)
    && c.characteristics[e.service.handle][e.characteristic.handle] == e.characteristic
    && DescriptorOf(c, d, e.characteristic.handle) && c.descriptors[e.characteristic.handle][d] == e.descriptor
  }

  /** In a well-formed catalog a descriptor handle leads to exactly one entry, or to none. */
  lemma LeadsOnce(c: Catalog, d: nat)
    requires WellFormed(c)
    ensures forall e, e' :: Leads(c, d, e) && Leads(c, d, e') ==> e == e'
    ensures (exists e :: Leads(c, d, e)) <==> exists h :: DescriptorOf(c, d, h)
  {
    if h :| DescriptorOf(c, d, h) {
      var s :| CharacteristicOf(c, h, s);
      assert Leads(c, d, Entry(Known(c)[s], c.characteristics[s][h], c.descriptors[h][d]));
    }
  }

  /** The first service of a list with a UUID. */
  function FirstService(list: seq<ServiceInfo>, uuid: Uuid): Option<ServiceInfo> {
    if list == [] then None
    else if list[0].uuid == uuid then Some(list[0])
    else FirstService(list[1..], uuid)
  }

  predicate TypeIn(record: map<nat, DescriptorInfo>, uuid: Uuid) {
    exists d :: d in record && record[d].uuid == uuid
  }

  predicate HasType(c: Catalog, h: nat, uuid: Uuid) {
    h in c.descriptors && TypeIn(c.descriptors[h], uuid)
  }

  /** The first characteristic of a list that has a descriptor with a UUID. */
  function FirstWithType(c: Catalog, list: seq<CharacteristicInfo>, uuid: Uuid): Option<CharacteristicInfo> {
    if list == [] then None
    else if HasType(c, list[0].handle, uuid) then Some(list[0])
    else FirstWithType(c, list[1..], uuid)
  }

  /** The first characteristic of a service that has a descriptor with a UUID. */
  function FirstIn(c: Catalog, s: nat, uuid: Uuid): Option<CharacteristicInfo> {
    if s !in c.characteristics then None else FirstWithType(c, ListCharacteristics(c.characteristics[s]), uuid)
  }

  function CharacteristicByUuids(c: Catalog, service: Uuid, characteristic: Uuid): Option<CharacteristicInfo> {
    match FirstService(ListServices(Known(c)), service)
    case None => None
    case Some(s) => FirstIn(c, s.handle, characteristic)
  }

  lemma {:induction false} FirstServiceFound(list: seq<ServiceInfo>, uuid: Uuid)
    ensures match FirstService(list, uuid)
      case Some(s) =>
        exists i :: 0 <= i < |list| && list[i] == s && s.uuid == uuid && forall j :: 0 <= j < i ==> list[j].uuid != uuid
      case None => forall i :: 0 <= i < |list| ==> list[i].uuid != uuid
  {
    if list != [] && list[0].uuid != uuid {
      FirstServiceFound(list[1..], uuid);
      assert forall i :: 0 < i < |list| ==> list[i] == list[1..][i - 1];
      if FirstService(list, uuid).Some? {
        var i :| 0 <= i < |list| - 1 && list[1..][i].uuid == uuid && list[1..][i] == FirstService(list, uuid).value
          && forall j :: 0 <= j < i ==> list[1..][j].uuid != uuid;
        assert list[i + 1] == list[1..][i];
      }
    }
  }

  // ---------------------------------------------------------------- what is saved

  function ServicesByHandle(list: seq<ServiceInfo>): map<nat, ServiceInfo> {
    if list == [] then map[]
    else ServicesByHandle(list[..|list| - 1])[list[|list| - 1].handle := list[|list| - 1]]
  }

  function CharacteristicsByHandle(list: seq<CharacteristicInfo>): map<nat, CharacteristicInfo> {
    if list == [] then map[]
    else CharacteristicsByHandle(list[..|list| - 1])[list[|list| - 1].handle := list[|list| - 1]]
  }

  function DescriptorsByHandle(list: seq<DescriptorInfo>): map<nat, DescriptorInfo> {
    if list == [] then map[]
    else DescriptorsByHandle(list[..|list| - 1])[list[|list| - 1].handle := list[|list| - 1]]
  }

  lemma CharacteristicsByHandleNext(list: seq<CharacteristicInfo>, i: nat)
    requires i < |list|
    ensures CharacteristicsByHandle(list[..i + 1]) == CharacteristicsByHandle(list[..i])[list[i].handle := list[i]]
  {
    assert list[..i + 1][..i] == list[..i];
  }

  lemma DescriptorsByHandleNext(list: seq<DescriptorInfo>, i: nat)
    requires i < |list|
    ensures DescriptorsByHandle(list[..i + 1]) == DescriptorsByHandle(list[..i])[list[i].handle := list[i]]
  {
    assert list[..i + 1][..i] == list[..i];
  }

  lemma {:induction false} ServiceHandles(list: seq<ServiceInfo>)
    ensures forall s :: s in ServicesByHandle(list) ==>
      ServicesByHandle(list)[s].handle == s && ServicesByHandle(list)[s] in list
  {
    if list != [] {
      ServiceHandles(list[..|list| - 1]);
    }
  }

  lemma {:induction false} CharacteristicHandles(list: seq<CharacteristicInfo>)
    ensures forall h :: h in CharacteristicsByHandle(list) ==>
      CharacteristicsByHandle(list)[h].handle == h && CharacteristicsByHandle(list)[h] in list
  {
    if list != [] {
      CharacteristicHandles(list[..|list| - 1]);
    }
  }

  lemma {:induction false} DescriptorHandles(list: seq<DescriptorInfo>)
    ensures forall d :: d in DescriptorsByHandle(list) ==>
      DescriptorsByHandle(list)[d].handle == d && DescriptorsByHandle(list)[d] in list
  {
    if list != [] {
      DescriptorHandles(list[..|list| - 1]);
    }
  }

  /** The record of parent `p` extended by `added`. */
  function Merged<T>(records: map<nat, map<nat, T>>, p: nat, added: map<nat, T>): map<nat, map<nat, T>> {
    records[p := (if p in records then records[p] else map[]) + added]
  }

  /** A saved service replaces the one with its handle, with nothing known below it. */
  function SavedServices(c: Catalog, list: seq<ServiceInfo>): Catalog {
    var added := ServicesByHandle(list);
    Catalog(Some(Known(c) + added), c.includesKnown - added.Keys, c.characteristics - added.Keys, c.descriptors)
  }

  function SavedIncludes(c: Catalog, s: nat): Catalog {
    Catalog(c.services, c.includesKnown + {s}, c.characteristics, c.descriptors)
  }

  function SavedCharacteristics(c: Catalog, s: nat, list: seq<CharacteristicInfo>): Catalog {
    var added := CharacteristicsByHandle(list);
    Catalog(c.services, c.includesKnown, Merged(c.characteristics, s, added), c.descriptors - added.Keys)
  }

  function SavedDescriptors(c: Catalog, h: nat, list: seq<DescriptorInfo>): Catalog {
    Catalog(c.services, c.includesKnown, c.characteristics, Merged(c.descriptors, h, DescriptorsByHandle(list)))
  }

  /** No service of the list replaces one that has characteristics. */
  ghost predicate ServicesFit(c: Catalog, list: seq<ServiceInfo>) {
    forall s, h :: s in ServicesByHandle(list) ==> !CharacteristicOf(c, h, s)
  }

  /** No characteristic of the list is another service's already, and none replaces one that has descriptors. */
  ghost predicate CharacteristicsFit(c: Catalog, s: nat, list: seq<CharacteristicInfo>) {
    && (forall h, q :: h in CharacteristicsByHandle(list) && CharacteristicOf(c, h, q) ==> q == s)
    && (forall h, d :: h in CharacteristicsByHandle(list) ==> !DescriptorOf(c, d, h))
  }

  /** No descriptor of the list is another characteristic's already. */
  ghost predicate DescriptorsFit(c: Catalog, h: nat, list: seq<DescriptorInfo>) {
    forall d, q :: d in DescriptorsByHandle(list) && DescriptorOf(c, d, q) ==> q == h
  }

  // ---------------------------------------------------------------- records in order of handle

  /** The keys of a record in the order in which `Object.values` visits them. */
  function Sorted(keys: set<nat>): seq<nat> {
    if keys == {} then [] else
      Least(keys);
      var k :| IsLeast(k, keys);
      [k] + Sorted(keys - {k})
  }

  predicate IsLeast(k: nat, keys: set<nat>) {
    k in keys && forall j :: j in keys ==> k <= j
  }

  lemma {:induction false} SortedIsAscending(keys: set<nat>)
    ensures forall k :: k in Sorted(keys) <==> k in keys
    ensures forall i, j :: 0 <= i < j < |Sorted(keys)| ==> Sorted(keys)[i] < Sorted(keys)[j]
  {
    if keys != {} {
      Least(keys);
      var k :| IsLeast(k, keys) && Sorted(keys) == [k] + Sorted(keys - {k});
      var rest := Sorted(keys - {k});
      SortedIsAscending(keys - {k});
      forall i | 0 <= i < |rest|
        ensures k < rest[i]
      {
        assert rest[i] in rest;
      }
    }
  }

  lemma {:induction false} Least(keys: set<nat>)
    requires keys != {}
    ensures exists k :: IsLeast(k, keys)
  {
    var k :| k in keys;
    var others := keys - {k};
    assert forall j :: j in keys ==> j == k || j in others;
    if others == {} {
      assert IsLeast(k, keys);
    } else {
      Least(others);
      var m :| IsLeast(m, others);
      assert IsLeast(if m < k then m else k, keys);
    }
  }

  function ListServices(m: map<nat, ServiceInfo>): seq<ServiceInfo> {
    SortedIsAscending(m.Keys);
    var keys := Sorted(m.Keys);
    seq(|keys|, i requires 0 <= i < |keys| => assert keys[i] in keys; m[keys[i]])
  }

  function ListCharacteristics(m: map<nat, CharacteristicInfo>): seq<CharacteristicInfo> {
    SortedIsAscending(m.Keys);
    var keys := Sorted(m.Keys);
    seq(|keys|, i requires 0 <= i < |keys| => assert keys[i] in keys; m[keys[i]])
  }

  function ListDescriptors(m: map<nat, DescriptorInfo>): seq<DescriptorInfo> {
    SortedIsAscending(m.Keys);
    var keys := Sorted(m.Keys);
    seq(|keys|, i requires 0 <= i < |keys| => assert keys[i] in keys; m[keys[i]])
  }

  // ---------------------------------------------------------------- what saving does, entry by entry

  /** The i-th entry is the last of a list with handle `h`. */
  predicate LastAt<T>(list: seq<T>, handle: T -> nat, h: nat, i: nat) {
    i < |list| && handle(list[i]) == h && forall j :: i < j < |list| ==> handle(list[j]) != h
  }

  predicate Absent<T>(list: seq<T>, handle: T -> nat, h: nat) {
    forall i :: 0 <= i < |list| ==> handle(list[i]) != h
  }

  function ServiceHandle(e: ServiceInfo): nat {
    e.handle
  }

  function CharacteristicHandle(e: CharacteristicInfo): nat {
    e.handle
  }

  function DescriptorHandle(e: DescriptorInfo): nat {
    e.handle
  }

  lemma {:induction false} LastService(list: seq<ServiceInfo>, h: nat, i: nat)
    ensures LastAt(list, ServiceHandle, h, i) ==> h in ServicesByHandle(list) && ServicesByHandle(list)[h] == list[i]
    ensures Absent(list, ServiceHandle, h) ==> h !in ServicesByHandle(list)
  {
    if list != [] {
      LastService(list[..|list| - 1], h, i);
    }
  }

  lemma {:induction false} LastCharacteristic(list: seq<CharacteristicInfo>, h: nat, i: nat)
    ensures LastAt(list, CharacteristicHandle, h, i) ==>
      h in CharacteristicsByHandle(list) && CharacteristicsByHandle(list)[h] == list[i]
    ensures Absent(list, CharacteristicHandle, h) ==> h !in CharacteristicsByHandle(list)
  {
    if list != [] {
      LastCharacteristic(list[..|list| - 1], h, i);
    }
  }

  lemma {:induction false} LastDescriptor(list: seq<DescriptorInfo>, h: nat, i: nat)
    ensures LastAt(list, DescriptorHandle, h, i) ==>
      h in DescriptorsByHandle(list) && DescriptorsByHandle(list)[h] == list[i]
    ensures Absent(list, DescriptorHandle, h) ==> h !in DescriptorsByHandle(list)
  {
    if list != [] {
      LastDescriptor(list[..|list| - 1], h, i);
    }
  }

  function Get<V>(m: map<nat, V>, k: nat): Option<V> {
    if k in m then Some(m[k]) else None
  }

  /** A service that is saved is the last of the list with its handle, with nothing below it; others stay. */
  lemma ServicesSaved(c: Catalog, list: seq<ServiceInfo>, s: nat, i: nat)
    ensures var r := SavedServices(c, list);
      && r.services.Some? && r.descriptors == c.descriptors
      && (LastAt(list, ServiceHandle, s, i) ==>
            Get(Known(r), s) == Some(list[i]) && s !in r.includesKnown && s !in r.characteristics)
      && (Absent(list, ServiceHandle, s) ==>
            && Get(Known(r), s) == Get(Known(c), s) && (s in r.includesKnown <==> s in c.includesKnown)
            && Get(r.characteristics, s) == Get(c.characteristics, s))
  {
    LastService(list, s, i);
  }

  /** A characteristic that is saved is the last of the list with its handle, without descriptors; others stay. */
  lemma CharacteristicsSaved(c: Catalog, s: nat, list: seq<CharacteristicInfo>, h: nat, i: nat)
    ensures var r := SavedCharacteristics(c, s, list);
      && r.services == c.services && r.includesKnown == c.includesKnown && s in r.characteristics
      && (forall q :: q != s ==> Get(r.characteristics, q) == Get(c.characteristics, q))
      && (LastAt(list, CharacteristicHandle, h, i) ==>
            Get(r.characteristics[s], h) == Some(list[i]) && h !in r.descriptors)
      && (Absent(list, CharacteristicHandle, h) ==>
            && (CharacteristicOf(r, h, s) <==> CharacteristicOf(c, h, s))
            && (CharacteristicOf(c, h, s) ==> r.characteristics[s][h] == c.characteristics[s][h])
            && Get(r.descriptors, h) == Get(c.descriptors, h))
  {
    LastCharacteristic(list, h, i);
  }

  /** A descriptor that is saved is the last of the list with its handle; others stay. */
  lemma DescriptorsSaved(c: Catalog, h: nat, list: seq<DescriptorInfo>, d: nat, i: nat)
    ensures var r := SavedDescriptors(c, h, list);
      && r.services == c.services && r.includesKnown == c.includesKnown && r.characteristics == c.characteristics
      && h in r.descriptors
      && (forall q :: q != h ==> Get(r.descriptors, q) == Get(c.descriptors, q))
      && (LastAt(list, DescriptorHandle, d, i) ==> Get(r.descriptors[h], d) == Some(list[i]))
      && (Absent(list, DescriptorHandle, d) ==>
            && (DescriptorOf(r, d, h) <==> DescriptorOf(c, d, h))
            && (DescriptorOf(c, d, h) ==> r.descriptors[h][d] == c.descriptors[h][d]))
  {
    LastDescriptor(list, d, i);
  }

  /** A list by handle has every entry of the record once, in ascending order. */
  lemma DescriptorsInOrder(m: map<nat, DescriptorInfo>)
    requires forall d :: d in m ==> m[d].handle == d
    ensures var r := ListDescriptors(m);
      && (forall i :: 0 <= i < |r| ==> r[i].handle in m && r[i] == m[r[i].handle])
      && (forall i, j :: 0 <= i < j < |r| ==> r[i].handle < r[j].handle)
      && (forall d :: d in m ==> m[d] in r)
  {
    var (keys, r) := (Sorted(m.Keys), ListDescriptors(m));
    SortedIsAscending(m.Keys);
    forall i | 0 <= i < |r| ensures keys[i] in m && r[i] == m[keys[i]] {
      assert keys[i] in keys;
    }
    forall d | d in m ensures m[d] in r {
      var i :| 0 <= i < |keys| && keys[i] == d;
      assert r[i] == m[d];
    }
  }
}
