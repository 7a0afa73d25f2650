/**
  What a GATT server holds, as far as discovery sees it, and what a client's catalog should then hold:
  `Consistent` as far as it goes, and `Complete` when nothing is left to ask for.
 */
module GattServer {
  import opened Bytes
  import opened GattPaging
  import opened GattProfile

  /**
    Service groups, Include declarations, characteristic declarations, and all attributes with their
    types, each by handle.
   */
  datatype Database = Database(
    services: seq<Found<seq<byte>>>, includes: seq<Found<seq<byte>>>,
    declarations: seq<Found<seq<byte>>>, attributes: seq<Found<Uuid>>)

  /**
    UUIDs have 2 or 16 bytes; an Include declaration has two handles, and the UUID when that has 2 bytes; a
    characteristic declaration has properties, a handle and a UUID.
   */
  predicate ValidDatabase(db: Database) {
    && Ascending(db.services) && Ascending(db.includes) && Ascending(db.declarations) && Ascending(db.attributes)
    && (forall i :: 0 <= i < |db.services| ==>
          1 <= db.services[i].handle && db.services[i].last <= 0xFFFF &&
          (|db.services[i].value| == 2 || |db.services[i].value| == 16))
    && (forall i :: 0 <= i < |db.includes| ==>
          db.includes[i].last == db.includes[i].handle && (|db.includes[i].value| == 4 || |db.includes[i].value| == 6))
    && (forall i :: 0 <= i < |db.declarations| ==>
          db.declarations[i].last == db.declarations[i].handle &&
          (|db.declarations[i].value| == 5 || |db.declarations[i].value| == 19))
    && (forall i :: 0 <= i < |db.attributes| ==>
          db.attributes[i].last == db.attributes[i].handle &&
          (|db.attributes[i].value| == 2 || |db.attributes[i].value| == 16))
  }

  // ---------------------------------------------------------------- from ATT data to infos

  predicate UuidLength(n: int) {
    n == 2 || n == 16
  }

  /** `GattService.fromAttData` throws for a UUID that is not 2 or 16 bytes long. */
  function ServiceFrom(e: AttDataEntry<seq<byte>>): Option<ServiceInfo> {
    if UuidLength(|e.value|) then Some(ServiceInfo(e.handle, e.endingHandle, e.value)) else None
  }

  /** Properties, value handle, UUID. */
  function CharacteristicFrom(e: AttDataEntry<seq<byte>>): Option<CharacteristicInfo> {
    if UuidLength(|e.value| - 3) then
      Some(CharacteristicInfo(e.handle, e.endingHandle, ReadLe16(e.value, 1) as nat, e.value[3..], e.value[0]))
    else None
  }

  function DescriptorFrom(e: AttDataEntry<Uuid>): Option<DescriptorInfo> {
    if UuidLength(|e.value|) then Some(DescriptorInfo(e.handle, e.endingHandle, e.value)) else None
  }

  // ---------------------------------------------------------------- what the server holds

  function ServicesOf(db: Database): seq<ServiceInfo>
    requires ValidDatabase(db)
  {
    seq(|db.services|, i requires 0 <= i < |db.services| =>
      ServiceInfo(db.services[i].handle, db.services[i].last, db.services[i].value))
  }

  /** The declarations in a service's range, each up to the next one, the last one up to the end of the range. */
  function CharacteristicsOf(db: Database, s: ServiceInfo): seq<CharacteristicInfo>
    requires ValidDatabase(db)
  {
    var es := Within(db.declarations, s.handle, s.endingHandle);
    DeclarationsWithin(db, s.handle, s.endingHandle);
    var tiles := Tiled(es, s.endingHandle);
    seq(|tiles|, i requires 0 <= i < |tiles| =>
      assert tiles[i].value == es[i].value;
      CharacteristicFrom(tiles[i]).value)
  }

  /** All attributes in a characteristic's range. */
  function DescriptorsOf(db: Database, c: CharacteristicInfo): seq<DescriptorInfo>
    requires ValidDatabase(db)
  {
    var es := Within(db.attributes, c.handle, c.endingHandle);
    AttributesWithin(db, c.handle, c.endingHandle);
    var tiles := Tiled(es, c.endingHandle);
    seq(|tiles|, i requires 0 <= i < |tiles| => assert tiles[i].value == es[i].value; DescriptorFrom(tiles[i]).value)
  }

  /** What is in a range is an element of the whole, and the other way round. */
  lemma {:induction false} WithinMembers<V>(matches: seq<Found<V>>, lo: int, hi: int)
    ensures forall e :: e in Within(matches, lo, hi) <==> e in matches && lo <= e.handle <= hi
    decreases |matches|
  {
    if matches != [] {
      WithinMembers(matches[1..], lo, hi);
      assert matches == [matches[0]] + matches[1..];
    }
  }

  lemma DeclarationsWithin(db: Database, lo: int, hi: int)
    requires ValidDatabase(db)
    ensures forall i :: 0 <= i < |Within(db.declarations, lo, hi)| ==>
      var e := Within(db.declarations, lo, hi)[i];
      lo <= e.handle <= hi && e.last == e.handle && UuidLength(|e.value| - 3)
    ensures forall i, j :: 0 <= i < j < |Within(db.declarations, lo, hi)| ==>
      Within(db.declarations, lo, hi)[i].handle < Within(db.declarations, lo, hi)[j].handle
  {
    WithinMembers(db.declarations, lo, hi);
    WithinAscends(db.declarations, lo, hi);
    var es := Within(db.declarations, lo, hi);
    forall i | 0 <= i < |es|
      ensures es[i].last == es[i].handle && UuidLength(|es[i].value| - 3)
    {
      assert es[i] in es;
    }
  }

  lemma AttributesWithin(db: Database, lo: int, hi: int)
    requires ValidDatabase(db)
    ensures forall i :: 0 <= i < |Within(db.attributes, lo, hi)| ==>
      var e := Within(db.attributes, lo, hi)[i]; lo <= e.handle <= hi && e.last == e.handle && UuidLength(|e.value|)
    ensures forall i, j :: 0 <= i < j < |Within(db.attributes, lo, hi)| ==>
      Within(db.attributes, lo, hi)[i].handle < Within(db.attributes, lo, hi)[j].handle
  {
    WithinMembers(db.attributes, lo, hi);
    WithinAscends(db.attributes, lo, hi);
    var es := Within(db.attributes, lo, hi);
    forall i | 0 <= i < |es|
      ensures es[i].last == es[i].handle && UuidLength(|es[i].value|)
    {
      assert es[i] in es;
    }
  }

  /** The service has an Include declaration. */
  predicate HasInclude(db: Database, s: ServiceInfo) {
    Within(db.includes, s.handle, s.endingHandle) != []
  }

  lemma IncludesWithin(db: Database, lo: int, hi: int)
    requires ValidDatabase(db)
    ensures forall i :: 0 <= i < |Within(db.includes, lo, hi)| ==> |Within(db.includes, lo, hi)[i].value| in {4, 6}
  {
    WithinMembers(db.includes, lo, hi);
    var es := Within(db.includes, lo, hi);
    forall i | 0 <= i < |es|
      ensures |es[i].value| in {4, 6}
    {
      assert es[i] in es;
    }
  }

  /** Some service has an Include declaration. */
  ghost predicate SomeInclude(db: Database)
    requires ValidDatabase(db)
  {
    exists s :: s in ServicesOf(db) && HasInclude(db, s)
  }

  predicate Usable(entries: seq<AttDataEntry<seq<byte>>>) {
    forall i :: 0 <= i < |entries| ==> ServiceFrom(entries[i]).Some?
  }

  /** What is read of a service's Include declarations can be taken exactly when there are none. */
  lemma IncludesRefused(db: Database, s: ServiceInfo)
    requires ValidDatabase(db)
    ensures Usable(Tiled(Within(db.includes, s.handle, s.endingHandle), s.endingHandle)) <==> !HasInclude(db, s)
    ensures HasInclude(db, s) ==> s.handle <= s.endingHandle
  {
    IncludesWithin(db, s.handle, s.endingHandle);
    WithinAscends(db.includes, s.handle, s.endingHandle);
    hide Within;
    var es := Within(db.includes, s.handle, s.endingHandle);
    if es != [] {
      var entry := Tiled(es, s.endingHandle)[0];
      assert entry.value == es[0].value;
      assert ServiceFrom(entry).None?;
    }
  }

  /** Discovery of services asks for the whole range of handles. */
  lemma AllServices(db: Database)
    requires ValidDatabase(db)
    ensures Within(db.services, 1, 0xFFFF) == db.services
  {
    WithinWhole(db.services, 1, 0xFFFF);
  }

  lemma {:induction false} WithinWhole<V>(matches: seq<Found<V>>, lo: int, hi: int)
    requires forall i :: 0 <= i < |matches| ==> lo <= matches[i].handle <= hi
    ensures Within(matches, lo, hi) == matches
    decreases |matches|
  {
    if matches != [] {
      WithinWhole(matches[1..], lo, hi);
    }
  }

  // ---------------------------------------------------------------- ascending lists as records

  lemma {:induction false} ServicesAscending(list: seq<ServiceInfo>)
    requires forall i, j :: 0 <= i < j < |list| ==> list[i].handle < list[j].handle
    ensures forall s :: s in list <==> s.handle in ServicesByHandle(list) && ServicesByHandle(list)[s.handle] == s
  {
    ServiceHandles(list);
    if list != [] {
      var front, last := list[..|list| - 1], list[|list| - 1];
      ServicesAscending(front);
      assert list == front + [last];
      ServiceHandles(front);
    }
  }

  lemma {:induction false} CharacteristicsAscending(list: seq<CharacteristicInfo>)
    requires forall i, j :: 0 <= i < j < |list| ==> list[i].handle < list[j].handle
    ensures forall c :: c in list <==>
      c.handle in CharacteristicsByHandle(list) && CharacteristicsByHandle(list)[c.handle] == c
  {
    CharacteristicHandles(list);
    if list != [] {
      var front, last := list[..|list| - 1], list[|list| - 1];
      CharacteristicsAscending(front);
      assert list == front + [last];
      CharacteristicHandles(front);
    }
  }

  lemma {:induction false} DescriptorsAscending(list: seq<DescriptorInfo>)
    requires forall i, j :: 0 <= i < j < |list| ==> list[i].handle < list[j].handle
    ensures forall d :: d in list <==> d.handle in DescriptorsByHandle(list) && DescriptorsByHandle(list)[d.handle] == d
  {
    DescriptorHandles(list);
    if list != [] {
      var front, last := list[..|list| - 1], list[|list| - 1];
      DescriptorsAscending(front);
      assert list == front + [last];
      DescriptorHandles(front);
    }
  }

  // ---------------------------------------------------------------- ranges

  lemma ServiceRanges(db: Database, s: ServiceInfo, q: ServiceInfo)
    requires ValidDatabase(db) && s in ServicesOf(db) && q in ServicesOf(db)
    ensures s == q || s.endingHandle < q.handle || q.endingHandle < s.handle
  {
    var i :| 0 <= i < |db.services| && ServicesOf(db)[i] == s;
    var j :| 0 <= j < |db.services| && ServicesOf(db)[j] == q;
    assert i == j || db.services[i].last < db.services[j].handle || db.services[j].last < db.services[i].handle;
  }

  lemma CharacteristicInRange(db: Database, s: ServiceInfo, c: CharacteristicInfo)
    requires ValidDatabase(db) && c in CharacteristicsOf(db, s)
    ensures s.handle <= c.handle && c.endingHandle <= s.endingHandle && c.handle <= s.endingHandle
  {
    var es := Within(db.declarations, s.handle, s.endingHandle);
    DeclarationsWithin(db, s.handle, s.endingHandle);
    var i :| 0 <= i < |CharacteristicsOf(db, s)| && CharacteristicsOf(db, s)[i] == c;
    assert c.handle == es[i].handle && c.endingHandle == Tiled(es, s.endingHandle)[i].endingHandle;
    assert i + 1 < |es| ==> es[i + 1].handle <= s.endingHandle;
  }

  /** The ranges of a service's characteristics do not overlap, and ascend. */
  lemma CharacteristicRanges(db: Database, s: ServiceInfo)
    requires ValidDatabase(db)
    ensures var list := CharacteristicsOf(db, s);
      forall i, j :: 0 <= i < j < |list| ==> list[i].handle < list[j].handle && list[i].endingHandle < list[j].handle
  {
    var es := Within(db.declarations, s.handle, s.endingHandle);
    DeclarationsWithin(db, s.handle, s.endingHandle);
    var list := CharacteristicsOf(db, s);
    forall i, j | 0 <= i < j < |list|
      ensures list[i].handle < list[j].handle && list[i].endingHandle < list[j].handle
    {
      assert list[i].endingHandle == es[i + 1].handle - 1 && es[i + 1].handle <= es[j].handle;
      assert list[i].handle == es[i].handle && list[j].handle == es[j].handle;
    }
  }

  lemma DescriptorsListed(db: Database, c: CharacteristicInfo)
    requires ValidDatabase(db)
    ensures |DescriptorsOf(db, c)| == |Within(db.attributes, c.handle, c.endingHandle)|
    ensures forall i :: 0 <= i < |DescriptorsOf(db, c)| ==>
      var (d, e) := (DescriptorsOf(db, c)[i], Within(db.attributes, c.handle, c.endingHandle)[i]);
      d.handle == e.handle == e.last && d.uuid == e.value
  {
    AttributesWithin(db, c.handle, c.endingHandle);
  }

  lemma DescriptorsAscend(db: Database, c: CharacteristicInfo)
    requires ValidDatabase(db)
    ensures forall i, j :: 0 <= i < j < |DescriptorsOf(db, c)| ==>
      DescriptorsOf(db, c)[i].handle < DescriptorsOf(db, c)[j].handle
  {
    DescriptorsListed(db, c);
    AttributesWithin(db, c.handle, c.endingHandle);
  }

  /** A characteristic's descriptors are the attributes in its range, with their types as UUIDs. */
  lemma DescriptorsAreAttributes(db: Database, c: CharacteristicInfo, h: nat, uuid: Uuid)
    requires ValidDatabase(db)
    ensures (exists d :: d in DescriptorsOf(db, c) && d.handle == h && d.uuid == uuid)
       <==> Found(h, h, uuid) in db.attributes && c.handle <= h <= c.endingHandle
  {
    var es, list := Within(db.attributes, c.handle, c.endingHandle), DescriptorsOf(db, c);
    DescriptorsListed(db, c);
    WithinMembers(db.attributes, c.handle, c.endingHandle);
    if d :| d in list && d.handle == h && d.uuid == uuid {
      var i :| 0 <= i < |list| && list[i] == d;
      assert es[i] in es && es[i] == Found(h, h, uuid);
    }
    if Found(h, h, uuid) in es {
      var i :| 0 <= i < |es| && es[i] == Found(h, h, uuid);
      assert list[i] in list && list[i].handle == h && list[i].uuid == uuid;
    }
  }

  /** A handle lies in the range of at most one characteristic of the server. */
  lemma OneRange(db: Database, s: ServiceInfo, c: CharacteristicInfo, q: ServiceInfo, k: CharacteristicInfo, h: int)
    requires ValidDatabase(db) && s in ServicesOf(db) && q in ServicesOf(db)
    requires c in CharacteristicsOf(db, s) && k in CharacteristicsOf(db, q)
    requires c.handle <= h && (h <= c.endingHandle || h == c.handle) && k.handle <= h &&
      (h <= k.endingHandle || h == k.handle)
    ensures s == q && c == k
  {
    CharacteristicInRange(db, s, c);
    CharacteristicInRange(db, q, k);
    ServiceRanges(db, s, q);
    CharacteristicRanges(db, s);
    var list := CharacteristicsOf(db, s);
    var i :| 0 <= i < |list| && list[i] == c;
    var j :| 0 <= j < |list| && list[j] == k;
    assert i == j || i < j || j < i;
  }

  // ---------------------------------------------------------------- the catalog of a server

  function ServiceRecord(db: Database): map<nat, ServiceInfo>
    requires ValidDatabase(db)
  {
    ServicesByHandle(ServicesOf(db))
  }

  function CharacteristicRecord(db: Database, s: ServiceInfo): map<nat, CharacteristicInfo>
    requires ValidDatabase(db)
  {
    CharacteristicsByHandle(CharacteristicsOf(db, s))
  }

  function DescriptorRecord(db: Database, c: CharacteristicInfo): map<nat, DescriptorInfo>
    requires ValidDatabase(db)
  {
    DescriptorsByHandle(DescriptorsOf(db, c))
  }

  lemma ServiceRecordIs(db: Database)
    requires ValidDatabase(db)
    ensures forall s :: s in ServicesOf(db) <==> s.handle in ServiceRecord(db) && ServiceRecord(db)[s.handle] == s
    ensures forall h :: h in ServiceRecord(db) ==>
      ServiceRecord(db)[h].handle == h && ServiceRecord(db)[h] in ServicesOf(db)
  {
    ServicesAscending(ServicesOf(db));
    ServiceHandles(ServicesOf(db));
  }

  lemma CharacteristicRecordIs(db: Database, s: ServiceInfo)
    requires ValidDatabase(db)
    ensures forall c :: c in CharacteristicsOf(db, s) <==>
      c.handle in CharacteristicRecord(db, s) && CharacteristicRecord(db, s)[c.handle] == c
    ensures forall h :: h in CharacteristicRecord(db, s) ==>
      CharacteristicRecord(db, s)[h].handle == h && CharacteristicRecord(db, s)[h] in CharacteristicsOf(db, s)
  {
    CharacteristicRanges(db, s);
    CharacteristicsAscending(CharacteristicsOf(db, s));
    CharacteristicHandles(CharacteristicsOf(db, s));
  }

  lemma DescriptorRecordIs(db: Database, c: CharacteristicInfo)
    requires ValidDatabase(db)
    ensures forall d :: d in DescriptorsOf(db, c) <==>
      d.handle in DescriptorRecord(db, c) && DescriptorRecord(db, c)[d.handle] == d
    ensures forall k :: k in DescriptorRecord(db, c) ==>
      DescriptorRecord(db, c)[k].handle == k && DescriptorRecord(db, c)[k] in DescriptorsOf(db, c)
  {
    DescriptorsAscend(db, c);
    DescriptorsAscending(DescriptorsOf(db, c));
    DescriptorHandles(DescriptorsOf(db, c));
  }

  /** Whatever the catalog knows is what the server holds. */
  ghost predicate Consistent(c: Catalog, db: Database)
    requires ValidDatabase(db)
  {
    && (c.services.Some? ==> c.services.value == ServiceRecord(db))
    && (forall s :: s in c.includesKnown ==> s in Known(c) && !HasInclude(db, Known(c)[s]))
    && (forall s :: s in c.characteristics ==>
      s in Known(c) && c.characteristics[s] == CharacteristicRecord(db, Known(c)[s]))
    && (forall h, s :: CharacteristicOf(c, h, s) && h in c.descriptors ==>
          c.descriptors[h] == DescriptorRecord(db, c.characteristics[s][h]))
  }

  /** Nothing is left to discover. */
  ghost predicate Complete(c: Catalog) {
    && c.services.Some? && c.includesKnown == Known(c).Keys && c.characteristics.Keys == Known(c).Keys
    && (forall h, s :: CharacteristicOf(c, h, s) ==> h in c.descriptors)
  }

  lemma SameDescriptors(c: Catalog, c': Catalog, db: Database)
    requires ValidDatabase(db) && WellFormed(c) && Consistent(c, db) && Consistent(c', db) && Complete(c')
    requires c.characteristics == c'.characteristics
    ensures forall h :: h in c.descriptors ==> h in c'.descriptors && c'.descriptors[h] == c.descriptors[h]
  {
    forall h | h in c.descriptors
      ensures h in c'.descriptors && c'.descriptors[h] == c.descriptors[h]
    {
      var s :| CharacteristicOf(c, h, s);
      assert CharacteristicOf(c', h, s);
    }
  }

  lemma SameCharacteristics(c: Catalog, c': Catalog, db: Database)
    requires ValidDatabase(db) && Consistent(c, db) && Consistent(c', db) && Complete(c) && Complete(c')
    ensures c.characteristics == c'.characteristics
  {
    assert forall s :: s in c.characteristics <==> s in Known(c);
    assert forall s :: s in c'.characteristics <==> s in Known(c');
  }

  /** A server determines the complete catalog. */
  lemma OneCatalog(c: Catalog, c': Catalog, db: Database)
    requires ValidDatabase(db) && WellFormed(c) && WellFormed(c')
    requires Consistent(c, db) && Complete(c) && Consistent(c', db) && Complete(c')
    ensures c == c'
  {
    SameCharacteristics(c, c', db);
    SameDescriptors(c, c', db);
    SameDescriptors(c', c, db);
    SameMap(c.descriptors, c'.descriptors);
  }

  lemma KnownService(c: Catalog, db: Database, s: ServiceInfo)
    requires ValidDatabase(db) && Consistent(c, db) && s.handle in Known(c) && Known(c)[s.handle] == s
    ensures s in ServicesOf(db) && (HasInclude(db, s) ==> SomeInclude(db))
  {
    ServiceRecordIs(db);
  }

  /** Only a server whose services have no Include declarations has a complete catalog. */
  lemma NoIncludes(c: Catalog, db: Database)
    requires ValidDatabase(db) && Consistent(c, db) && Complete(c)
    ensures !SomeInclude(db)
  {
    ServiceRecordIs(db);
  }

  lemma SameMap<T>(m: map<nat, T>, m': map<nat, T>)
    requires forall h :: h in m ==> h in m' && m'[h] == m[h]
    requires forall h :: h in m' ==> h in m
    ensures m == m'
  {
  }

  // ---------------------------------------------------------------- discovery, one record at a time

  lemma FirstSave(c: Catalog, db: Database)
    requires ValidDatabase(db) && WellFormed(c) && c.services.None?
    ensures ServicesFit(c, ServicesOf(db)) &&
      SavedServices(c, ServicesOf(db)) == Catalog(Some(ServiceRecord(db)), {}, map[], map[])
    ensures Consistent(SavedServices(c, ServicesOf(db)), db)
  {
    assert c.characteristics == map[] && c.includesKnown == {};
    assert forall h :: h in c.descriptors ==> exists s :: CharacteristicOf(c, h, s);
    assert c.descriptors == map[];
    var r := SavedServices(c, ServicesOf(db));
    assert r.services.value == ServiceRecord(db) && r.includesKnown == {} && r.characteristics == map[] &&
      r.descriptors == map[];
  }

  lemma KnownCharacteristic(c: Catalog, db: Database, h: nat, s: nat)
    requires ValidDatabase(db) && Consistent(c, db) && CharacteristicOf(c, h, s)
    ensures s in Known(c) && Known(c)[s] in ServicesOf(db) && Known(c)[s].handle == s
    ensures c.characteristics[s][h] in CharacteristicsOf(db, Known(c)[s]) && c.characteristics[s][h].handle == h
  {
    ServiceRecordIs(db);
    CharacteristicRecordIs(db, Known(c)[s]);
  }

  /** No characteristic of a service that is not discovered yet is known elsewhere. */
  lemma Undiscovered(c: Catalog, db: Database, s: nat, h: nat, q: nat)
    requires ValidDatabase(db) && Consistent(c, db) && s in Known(c) && s !in c.characteristics
    requires h in CharacteristicRecord(db, Known(c)[s])
    ensures !CharacteristicOf(c, h, q)
  {
    if CharacteristicOf(c, h, q) {
      ServiceRecordIs(db);
      CharacteristicRecordIs(db, Known(c)[s]);
      KnownCharacteristic(c, db, h, q);
      OneRange(db, Known(c)[s], CharacteristicRecord(db, Known(c)[s])[h], Known(c)[q], c.characteristics[q][h], h);
      assert false;
    }
  }

  lemma CharacteristicsFitIn(c: Catalog, db: Database, s: nat)
    requires ValidDatabase(db) && WellFormed(c) && Consistent(c, db) && s in Known(c) && s !in c.characteristics
    ensures CharacteristicsFit(c, s, CharacteristicsOf(db, Known(c)[s]))
    ensures c.descriptors - CharacteristicRecord(db, Known(c)[s]).Keys == c.descriptors
    ensures c.descriptors.Keys !! CharacteristicRecord(db, Known(c)[s]).Keys
  {
    var record := CharacteristicRecord(db, Known(c)[s]);
    forall h, q | h in record
      ensures !CharacteristicOf(c, h, q)
    {
      Undiscovered(c, db, s, h, q);
    }
    assert forall h :: h in record ==> h !in c.descriptors;
  }

  lemma ConsistentWithRecord(c: Catalog, db: Database, s: nat)
    requires ValidDatabase(db) && Consistent(c, db) && s in Known(c) && s !in c.characteristics
    requires c.descriptors.Keys !! CharacteristicRecord(db, Known(c)[s]).Keys
    ensures Consistent(
      Catalog(c.services, c.includesKnown, c.characteristics[s := CharacteristicRecord(db, Known(c)[s])],
        c.descriptors), db)
  {
    var r := Catalog(c.services, c.includesKnown, c.characteristics[s := CharacteristicRecord(db, Known(c)[s])],
      c.descriptors);
    forall h, q | CharacteristicOf(r, h, q) && h in r.descriptors
      ensures r.descriptors[h] == DescriptorRecord(db, r.characteristics[q][h])
    {
      assert q != s ==> CharacteristicOf(c, h, q);
    }
  }

  lemma CharacteristicsSave(c: Catalog, db: Database, s: nat)
    requires ValidDatabase(db) && WellFormed(c) && Consistent(c, db) && s in Known(c) && s !in c.characteristics
    ensures SavedCharacteristics(c, s, CharacteristicsOf(db, Known(c)[s]))
         == Catalog(c.services, c.includesKnown, c.characteristics[s := CharacteristicRecord(db, Known(c)[s])],
           c.descriptors)
    ensures Consistent(SavedCharacteristics(c, s, CharacteristicsOf(db, Known(c)[s])), db)
  {
    CharacteristicsFitIn(c, db, s);
    assert map[] + CharacteristicRecord(db, Known(c)[s]) == CharacteristicRecord(db, Known(c)[s]);
    ConsistentWithRecord(c, db, s);
  }

  lemma OneHolder(c: Catalog, db: Database, h: nat, s: nat, d: nat, q: nat)
    requires ValidDatabase(db) && WellFormed(c) && Consistent(c, db) && CharacteristicOf(c, h, s)
    requires d in DescriptorRecord(db, c.characteristics[s][h]) && DescriptorOf(c, d, q)
    ensures q == h
  {
    var t :| CharacteristicOf(c, q, t);
    KnownCharacteristic(c, db, h, s);
    KnownCharacteristic(c, db, q, t);
    var (x, y) := (c.characteristics[s][h], c.characteristics[t][q]);
    DescriptorRecordIs(db, x);
    DescriptorRecordIs(db, y);
    var (dx, dy) := (DescriptorRecord(db, x)[d], DescriptorRecord(db, y)[d]);
    DescriptorsAreAttributes(db, x, d, dx.uuid);
    DescriptorsAreAttributes(db, y, d, dy.uuid);
    OneRange(db, Known(c)[s], x, Known(c)[t], y, d);
  }

  lemma DescriptorsFitIn(c: Catalog, db: Database, h: nat, s: nat)
    requires ValidDatabase(db) && WellFormed(c) && Consistent(c, db) && CharacteristicOf(c, h, s)
    ensures DescriptorsFit(c, h, DescriptorsOf(db, c.characteristics[s][h]))
  {
    forall d, q | d in DescriptorRecord(db, c.characteristics[s][h]) && DescriptorOf(c, d, q)
      ensures q == h
    {
      OneHolder(c, db, h, s, d, q);
    }
  }

  function Described(c: Catalog, h: nat, record: map<nat, DescriptorInfo>): Catalog {
    Catalog(c.services, c.includesKnown, c.characteristics, c.descriptors[h := record])
  }

  lemma ConsistentDescribed(c: Catalog, db: Database, h: nat, s: nat, x: CharacteristicInfo)
    requires ValidDatabase(db) && WellFormed(c) && Consistent(c, db) && CharacteristicOf(c, h, s) &&
      c.characteristics[s][h] == x
    ensures Consistent(Described(c, h, DescriptorRecord(db, x)), db)
  {
    var r := Described(c, h, DescriptorRecord(db, x));
    forall k, q | CharacteristicOf(r, k, q) && k in r.descriptors
      ensures r.descriptors[k] == DescriptorRecord(db, r.characteristics[q][k])
    {
      assert CharacteristicOf(c, k, q);
    }
  }

  lemma SavedIsDescribed(c: Catalog, h: nat, list: seq<DescriptorInfo>)
    requires h !in c.descriptors
    ensures SavedDescriptors(c, h, list) == Described(c, h, DescriptorsByHandle(list))
  {
    assert map[] + DescriptorsByHandle(list) == DescriptorsByHandle(list);
  }

  // ---------------------------------------------------------------- what is read, byte by byte

  /** A characteristic has this handle, these properties, this value handle and this UUID. */
  predicate ReadAs(c: CharacteristicInfo, h: nat, properties: byte, value: uint16, uuid: Uuid) {
    c.handle == h && c.properties == properties && c.valueHandle == value && c.uuid == uuid
  }

  lemma ValueParts(bytes: seq<byte>, properties: byte, value: uint16, uuid: Uuid)
    requires |bytes| >= 3
    ensures bytes == [properties] + Le16(value) + uuid <==>
      bytes[0] == properties && ReadLe16(bytes, 1) == value && bytes[3..] == uuid
  {
    if bytes == [properties] + Le16(value) + uuid {
      ReadWriteLe16(value, [properties], uuid);
    }
    WriteReadLe16(bytes, 1);
    assert bytes == [bytes[0]] + bytes[1..3] + bytes[3..];
  }

  lemma CharacteristicListedAs(db: Database, s: ServiceInfo, i: nat, properties: byte, value: uint16, uuid: Uuid)
    requires ValidDatabase(db) && i < |CharacteristicsOf(db, s)|
    ensures i < |Within(db.declarations, s.handle, s.endingHandle)|
    ensures var (c, e) := (CharacteristicsOf(db, s)[i], Within(db.declarations, s.handle, s.endingHandle)[i]);
      && c.handle == e.handle == e.last
      && (ReadAs(c, e.handle, properties, value, uuid) <==> e.value == [properties] + Le16(value) + uuid)
  {
    DeclarationsWithin(db, s.handle, s.endingHandle);
    ValueParts(Within(db.declarations, s.handle, s.endingHandle)[i].value, properties, value, uuid);
  }

  /**
    A characteristic is read for a service with these fields exactly when the server has a declaration in
    the service's range whose value is the properties, the value handle and the UUID.
   */
  lemma DeclarationRead(db: Database, s: ServiceInfo, h: nat, properties: byte, value: uint16, uuid: Uuid)
    requires ValidDatabase(db)
    ensures (exists c :: c in CharacteristicsOf(db, s) && ReadAs(c, h, properties, value, uuid))
       <==> Found(h, h, [properties] + Le16(value) + uuid) in db.declarations && s.handle <= h <= s.endingHandle
  {
    var (es, list) := (Within(db.declarations, s.handle, s.endingHandle), CharacteristicsOf(db, s));
    var e := Found(h, h, [properties] + Le16(value) + uuid);
    WithinMembers(db.declarations, s.handle, s.endingHandle);
    if c :| c in list && ReadAs(c, h, properties, value, uuid) {
      var i :| 0 <= i < |list| && list[i] == c;
      CharacteristicListedAs(db, s, i, properties, value, uuid);
      assert es[i] in es && es[i] == e;
    }
    if e in es {
      DeclarationsWithin(db, s.handle, s.endingHandle);
      var i :| 0 <= i < |es| && es[i] == e;
      CharacteristicListedAs(db, s, i, properties, value, uuid);
      assert list[i] in list;
    }
  }

  /** A range that starts at a match ends before the next match, or where the range it is part of ends. */
  ghost predicate EndsAt<V(!new)>(matches: seq<Found<V>>, h: nat, hi: int, end: int) {
    && h <= end <= hi
    && (forall e :: e in matches ==> !(h < e.handle <= end))
    && (end == hi || exists e :: e in matches && e.handle == end + 1)
  }

  lemma TileEnds<V(!new)>(matches: seq<Found<V>>, lo: int, hi: int, i: nat)
    requires Ascending(matches) && i < |Within(matches, lo, hi)|
    ensures EndsAt(matches, Within(matches, lo, hi)[i].handle, hi, Tiled(Within(matches, lo, hi), hi)[i].endingHandle)
  {
    var es := Within(matches, lo, hi);
    var end := Tiled(es, hi)[i].endingHandle;
    WithinAscends(matches, lo, hi);
    WithinMembers(matches, lo, hi);
    forall e | e in matches && es[i].handle < e.handle <= hi
      ensures end < e.handle
    {
      assert e in es;
      var j :| 0 <= j < |es| && es[j] == e;
      assert j <= i || i + 1 <= j;
    }
    if i + 1 < |es| {
      assert es[i + 1] in es;
    }
  }

  predicate Declared(db: Database, h: nat, properties: byte, value: uint16, uuid: Uuid) {
    Found(h, h, [properties] + Le16(value) + uuid) in db.declarations
  }

  predicate ShowsService(p: Profile, h: nat, last: int, uuid: Uuid) {
    HasService(p, h) && p.services.value[h].service == ServiceInfo(h, last, uuid)
  }

  predicate ShowsCharacteristic(p: Profile, s: nat, h: nat, properties: byte, value: uint16, uuid: Uuid) {
    HasCharacteristic(p, s, h) && ReadAs(CharacteristicAt(p, s, h).characteristic, h, properties, value, uuid)
  }

  predicate ShowsDescriptor(p: Profile, s: nat, h: nat, d: nat, uuid: Uuid) {
    && HasDescriptor(p, s, h, d)
    && CharacteristicAt(p, s, h).descriptors.value[d].handle == d
    && CharacteristicAt(p, s, h).descriptors.value[d].uuid == uuid
  }

  /** The services are those the server has, with their handles, ends and UUIDs. */
  ghost predicate ServicesShown(p: Profile, db: Database) {
    forall h: nat, last: int, uuid: Uuid ::
      ShowsService(p, h, last, uuid) <==> 0 <= last && Found(h, last, uuid) in db.services
  }

  /** The characteristics of a service are those declared in its range, field by field. */
  ghost predicate CharacteristicsShown(p: Profile, db: Database) {
    forall s: nat, h: nat, properties: byte, value: uint16, uuid: Uuid :: HasService(p, s) ==>
      (ShowsCharacteristic(p, s, h, properties, value, uuid) <==>
        Declared(db, h, properties, value, uuid) && s <= h <= p.services.value[s].service.endingHandle)
  }

  /** Each ends where the next begins, or with its service. */
  ghost predicate RangesShown(p: Profile, db: Database) {
    forall s, h :: HasCharacteristic(p, s, h) ==>
      EndsAt(db.declarations, h, p.services.value[s].service.endingHandle,
        CharacteristicAt(p, s, h).characteristic.endingHandle)
  }

  ghost predicate DescriptorRangesShown(p: Profile, db: Database) {
    forall s, h, d :: HasDescriptor(p, s, h, d) ==>
      EndsAt(db.attributes, d, CharacteristicAt(p, s, h).characteristic.endingHandle,
        CharacteristicAt(p, s, h).descriptors.value[d].endingHandle)
  }

  /** The descriptors of a characteristic are the attributes in its range, with their types. */
  ghost predicate DescriptorsShown(p: Profile, db: Database) {
    forall s: nat, h: nat, d: nat, uuid: Uuid :: HasCharacteristic(p, s, h) ==>
      (ShowsDescriptor(p, s, h, d, uuid) <==>
        Found(d, d, uuid) in db.attributes && h <= d <= CharacteristicAt(p, s, h).characteristic.endingHandle)
  }

  /** The profile says of the server's attributes what they are, and nothing else. */
  ghost predicate Describes(p: Profile, db: Database) {
    && ServicesShown(p, db) && CharacteristicsShown(p, db) && RangesShown(p, db)
    && DescriptorsShown(p, db) && DescriptorRangesShown(p, db)
  }

  lemma ServiceRead(db: Database, h: nat, last: int, uuid: Uuid)
    requires ValidDatabase(db)
    ensures ServiceInfo(h, last, uuid) in ServicesOf(db) <==> 0 <= last && Found(h, last, uuid) in db.services
  {
    var s := ServiceInfo(h, last, uuid);
    if s in ServicesOf(db) {
      var i :| 0 <= i < |db.services| && ServicesOf(db)[i] == s;
      assert db.services[i] == Found(h, last, uuid);
    }
    if 0 <= last && Found(h, last, uuid) in db.services {
      var i :| 0 <= i < |db.services| && db.services[i] == Found(h, last, uuid);
      assert ServicesOf(db)[i] == s;
    }
  }

  lemma CharacteristicEnds(db: Database, s: ServiceInfo, c: CharacteristicInfo)
    requires ValidDatabase(db) && c in CharacteristicsOf(db, s)
    ensures EndsAt(db.declarations, c.handle, s.endingHandle, c.endingHandle)
  {
    var i :| 0 <= i < |CharacteristicsOf(db, s)| && CharacteristicsOf(db, s)[i] == c;
    DeclarationsWithin(db, s.handle, s.endingHandle);
    TileEnds(db.declarations, s.handle, s.endingHandle, i);
  }

  lemma DescriptorEnds(db: Database, c: CharacteristicInfo, d: DescriptorInfo)
    requires ValidDatabase(db) && d in DescriptorsOf(db, c)
    ensures EndsAt(db.attributes, d.handle, c.endingHandle, d.endingHandle)
  {
    var i :| 0 <= i < |DescriptorsOf(db, c)| && DescriptorsOf(db, c)[i] == d;
    var es := Within(db.attributes, c.handle, c.endingHandle);
    AttributesWithin(db, c.handle, c.endingHandle);
    TileEnds(db.attributes, c.handle, c.endingHandle, i);
    assert d.handle == es[i].handle && d.endingHandle == Tiled(es, c.endingHandle)[i].endingHandle;
  }

  lemma TreeServices(c: Catalog, db: Database)
    requires ValidDatabase(db) && WellFormed(c) && Consistent(c, db) && Complete(c)
    ensures forall s :: HasService(Tree(c), s) ==> Tree(c).services.value[s].service in ServicesOf(db)
    ensures forall s :: HasService(Tree(c), s) ==> Tree(c).services.value[s].service.handle == s
    ensures forall s :: s in ServicesOf(db) ==>
      HasService(Tree(c), s.handle) && Tree(c).services.value[s.handle].service == s
  {
    ServiceRecordIs(db);
  }

  lemma TreeCharacteristics(c: Catalog, db: Database, s: nat)
    requires ValidDatabase(db) && WellFormed(c) && Consistent(c, db) && Complete(c) && HasService(Tree(c), s)
    ensures var list := CharacteristicsOf(db, Tree(c).services.value[s].service);
      && (forall h :: HasCharacteristic(Tree(c), s, h) ==>
            && CharacteristicAt(Tree(c), s, h).characteristic in list
            && CharacteristicAt(Tree(c), s, h).characteristic.handle == h)
      && (forall x :: x in list ==>
            HasCharacteristic(Tree(c), s, x.handle) && CharacteristicAt(Tree(c), s, x.handle).characteristic == x)
  {
    TreePaths(c);
    TreeServices(c, db);
    CharacteristicRecordIs(db, Known(c)[s]);
    assert c.characteristics[s] == CharacteristicRecord(db, Known(c)[s]);
    forall x | x in CharacteristicsOf(db, Known(c)[s])
      ensures CharacteristicOf(c, x.handle, s)
    {
    }
  }

  lemma TreeDescriptors(c: Catalog, db: Database, s: nat, h: nat)
    requires ValidDatabase(db) && WellFormed(c) && Consistent(c, db) && Complete(c) && HasCharacteristic(Tree(c), s, h)
    ensures var list := DescriptorsOf(db, CharacteristicAt(Tree(c), s, h).characteristic);
      && (forall d :: HasDescriptor(Tree(c), s, h, d) ==>
            var x := CharacteristicAt(Tree(c), s, h).descriptors.value[d]; x in list && x.handle == d)
      && (forall x :: x in list ==>
            HasDescriptor(Tree(c), s, h, x.handle) && CharacteristicAt(Tree(c), s, h).descriptors.value[x.handle] == x)
  {
    TreePaths(c);
    var x := c.characteristics[s][h];
    DescriptorRecordIs(db, x);
    assert CharacteristicOf(c, h, s) && c.descriptors[h] == DescriptorRecord(db, x);
  }

  /** The profile of a completed discovery describes the server. */
  lemma ProfileDescribes(c: Catalog, db: Database)
    requires ValidDatabase(db) && WellFormed(c) && Consistent(c, db) && Complete(c)
    ensures Describes(Tree(c), db)
  {
    var p := Tree(c);
    hide ValidDatabase, WellFormed, Consistent, Complete, Tree, ServicesOf, CharacteristicsOf, DescriptorsOf;
    TreeServices(c, db);
    forall h: nat, last: int, uuid: Uuid
      ensures ShowsService(p, h, last, uuid) <==> 0 <= last && Found(h, last, uuid) in db.services
    {
      ServiceRead(db, h, last, uuid);
    }
    forall s: nat, h: nat, properties: byte, value: uint16, uuid: Uuid | HasService(p, s)
      ensures ShowsCharacteristic(p, s, h, properties, value, uuid) <==>
        Declared(db, h, properties, value, uuid) && s <= h <= p.services.value[s].service.endingHandle
    {
      TreeCharacteristics(c, db, s);
      DeclarationRead(db, p.services.value[s].service, h, properties, value, uuid);
    }
    forall s, h | HasCharacteristic(p, s, h)
      ensures EndsAt(db.declarations, h, p.services.value[s].service.endingHandle,
        CharacteristicAt(p, s, h).characteristic.endingHandle)
    {
      TreeCharacteristics(c, db, s);
      CharacteristicEnds(db, p.services.value[s].service, CharacteristicAt(p, s, h).characteristic);
    }
    forall s: nat, h: nat, d: nat, uuid: Uuid | HasCharacteristic(p, s, h)
      ensures ShowsDescriptor(p, s, h, d, uuid) <==>
        Found(d, d, uuid) in db.attributes && h <= d <= CharacteristicAt(p, s, h).characteristic.endingHandle
    {
      TreeCharacteristics(c, db, s);
      TreeDescriptors(c, db, s, h);
      DescriptorsAreAttributes(db, CharacteristicAt(p, s, h).characteristic, d, uuid);
    }
    forall s, h, d | HasDescriptor(p, s, h, d)
      ensures EndsAt(db.attributes, d, CharacteristicAt(p, s, h).characteristic.endingHandle,
        CharacteristicAt(p, s, h).descriptors.value[d].endingHandle)
    {
      TreeDescriptors(c, db, s, h);
      DescriptorEnds(db, CharacteristicAt(p, s, h).characteristic, CharacteristicAt(p, s, h).descriptors.value[d]);
    }
  }

  // ---------------------------------------------------------------- routing

  /**
    After discovery a handle leads to an entry exactly when the entry's descriptor, characteristic and
    service are the server's, one inside the range of the other.
   */
  lemma Routing(c: Catalog, db: Database, d: nat, e: Entry)
    requires ValidDatabase(db) && WellFormed(c) && Consistent(c, db) && Complete(c)
    ensures Leads(c, d, e) <==>
      && e.service in ServicesOf(db) && e.characteristic in CharacteristicsOf(db, e.service)
      && e.descriptor in DescriptorsOf(db, e.characteristic) && e.descriptor.handle == d
  {
    ServiceRecordIs(db);
    CharacteristicRecordIs(db, e.service);
    DescriptorRecordIs(db, e.characteristic);
    var (s, h) := (e.service.handle, e.characteristic.handle);
    if Leads(c, d, e) {
      assert CharacteristicOf(c, h, s) && DescriptorOf(c, d, h);
      assert c.characteristics[s] == CharacteristicRecord(db, e.service);
      assert c.descriptors[h] == DescriptorRecord(db, e.characteristic);
    } else if e.service in ServicesOf(db) && e.characteristic in CharacteristicsOf(db, e.service) {
      assert c.characteristics[s] == CharacteristicRecord(db, e.service);
      assert CharacteristicOf(c, h, s);
      assert c.descriptors[h] == DescriptorRecord(db, e.characteristic);
    }
  }

  /**
    The handle of an attribute in a characteristic's range leads to that characteristic and its service, and
    nowhere else.
   */
  lemma RoutedToRange(c: Catalog, db: Database, h: nat, uuid: Uuid, s: ServiceInfo, x: CharacteristicInfo)
    requires ValidDatabase(db) && WellFormed(c) && Consistent(c, db) && Complete(c)
    requires Found(h, h, uuid) in db.attributes && s in ServicesOf(db) && x in CharacteristicsOf(db, s)
    requires x.handle <= h <= x.endingHandle
    ensures exists e :: Leads(c, h, e) && e.service == s && e.characteristic == x && e.descriptor.uuid == uuid
    ensures forall e, e' :: Leads(c, h, e) && Leads(c, h, e') ==> e == e'
  {
    DescriptorsAreAttributes(db, x, h, uuid);
    var d :| d in DescriptorsOf(db, x) && d.handle == h && d.uuid == uuid;
    Routing(c, db, h, Entry(s, x, d));
    assert Leads(c, h, Entry(s, x, d));
    LeadsOnce(c, h);
  }

  /** A handle in no characteristic's range leads nowhere. */
  lemma RoutedNowhere(c: Catalog, db: Database, h: nat)
    requires ValidDatabase(db) && WellFormed(c) && Consistent(c, db) && Complete(c)
    requires forall s, x :: s in ServicesOf(db) && x in CharacteristicsOf(db, s) ==> !(x.handle <= h <= x.endingHandle)
    ensures forall q :: !DescriptorOf(c, h, q)
  {
    forall q
      ensures !DescriptorOf(c, h, q)
    {
      if DescriptorOf(c, h, q) {
        var s :| CharacteristicOf(c, q, s);
        KnownCharacteristic(c, db, q, s);
        var x := c.characteristics[s][q];
        DescriptorRecordIs(db, x);
        DescriptorsAreAttributes(db, x, h, DescriptorRecord(db, x)[h].uuid);
        assert false;
      }
    }
  }

  // ---------------------------------------------------------------- lookups by UUID

  /** The first characteristic of a list that is declared with a UUID. */
  function FirstDeclared(list: seq<CharacteristicInfo>, uuid: Uuid): Option<CharacteristicInfo> {
    if list == [] then None
    else if list[0].uuid == uuid then Some(list[0])
    else FirstDeclared(list[1..], uuid)
  }

  /** An attribute of the type is in the characteristic's range. */
  predicate HasAttribute(db: Database, x: CharacteristicInfo, uuid: Uuid) {
    exists a :: a in db.attributes && a.value == uuid && x.handle <= a.handle <= x.endingHandle
  }

  /** Every characteristic of a list has an attribute of its own type, as its value is one. */
  ghost predicate Valued(db: Database, list: seq<CharacteristicInfo>) {
    forall i :: 0 <= i < |list| ==> HasAttribute(db, list[i], list[i].uuid)
  }

  /** None has an attribute of a type before one is declared with it. */
  ghost predicate Unshadowed(db: Database, list: seq<CharacteristicInfo>, uuid: Uuid) {
    forall i :: 0 <= i < |list| && HasAttribute(db, list[i], uuid) ==> DeclaredUpTo(list, i, uuid)
  }

  predicate DeclaredUpTo(list: seq<CharacteristicInfo>, n: nat, uuid: Uuid) {
    exists j :: 0 <= j <= n && j < |list| && list[j].uuid == uuid
  }

  lemma DescribedBy(c: Catalog, db: Database, s: ServiceInfo, x: CharacteristicInfo)
    requires ValidDatabase(db) && Consistent(c, db) && Complete(c) && s in ServicesOf(db) &&
      x in CharacteristicsOf(db, s)
    ensures x.handle in c.descriptors && c.descriptors[x.handle] == DescriptorRecord(db, x)
  {
    ServiceRecordIs(db);
    CharacteristicRecordIs(db, s);
    assert CharacteristicOf(c, x.handle, s.handle) && c.characteristics[s.handle][x.handle] == x;
  }

  lemma TypeIsAttribute(c: Catalog, db: Database, s: ServiceInfo, x: CharacteristicInfo, uuid: Uuid)
    requires ValidDatabase(db) && Consistent(c, db) && Complete(c)
    requires s in ServicesOf(db) && x in CharacteristicsOf(db, s)
    ensures HasType(c, x.handle, uuid) <==> HasAttribute(db, x, uuid)
  {
    DescribedBy(c, db, s, x);
    DescriptorRecordIs(db, x);
    assert forall a :: a in db.attributes ==> a == Found(a.handle, a.handle, a.value);
    hide Consistent, Complete, ValidDatabase, DescriptorsOf, DescriptorRecord;
    var record := c.descriptors[x.handle];
    if HasType(c, x.handle, uuid) {
      var d :| d in record && record[d].uuid == uuid;
      DescriptorsAreAttributes(db, x, d, uuid);
      assert Found(d, d, uuid) in db.attributes;
    }
    if a :| a in db.attributes && a.value == uuid && x.handle <= a.handle <= x.endingHandle {
      DescriptorsAreAttributes(db, x, a.handle, uuid);
      var d :| d in DescriptorsOf(db, x) && d.handle == a.handle && d.uuid == uuid;
      assert record[d.handle].uuid == uuid;
    }
  }

  lemma {:induction false} TypeOrDeclaration(c: Catalog, db: Database, list: seq<CharacteristicInfo>, uuid: Uuid)
    requires forall i :: 0 <= i < |list| ==> (HasType(c, list[i].handle, uuid) <==> HasAttribute(db, list[i], uuid))
    requires Valued(db, list)
    ensures FirstWithType(c, list, uuid) == FirstDeclared(list, uuid) <==> Unshadowed(db, list, uuid)
  {
    if list != [] {
      var rest := list[1..];
      assert forall i :: 0 <= i < |rest| ==> rest[i] == list[i + 1];
      TypeOrDeclaration(c, db, rest, uuid);
      FirstDeclaredIs(list, uuid);
      if list[0].uuid == uuid {
        assert forall i :: 0 <= i < |list| ==> DeclaredUpTo(list, i, uuid) by {
          assert list[0].uuid == uuid;
        }
      } else if HasAttribute(db, list[0], uuid) {
        assert !DeclaredUpTo(list, 0, uuid);
      } else {
        forall i | 0 <= i < |rest|
          ensures DeclaredUpTo(list, i + 1, uuid) <==> DeclaredUpTo(rest, i, uuid)
        {
          if j :| 0 <= j <= i + 1 && j < |list| && list[j].uuid == uuid {
            assert rest[j - 1].uuid == uuid;
          }
          if j :| 0 <= j <= i && j < |rest| && rest[j].uuid == uuid {
            assert list[j + 1].uuid == uuid;
          }
        }
      }
    }
  }

  lemma {:induction false} FirstDeclaredIs(list: seq<CharacteristicInfo>, uuid: Uuid)
    ensures FirstDeclared(list, uuid).Some? ==> FirstDeclared(list, uuid).value.uuid == uuid
  {
    if list != [] {
      FirstDeclaredIs(list[1..], uuid);
    }
  }

  lemma LookedUpIn(c: Catalog, db: Database, s: ServiceInfo, uuid: Uuid)
    requires ValidDatabase(db) && Consistent(c, db) && Complete(c)
    requires s in ServicesOf(db) && FirstService(ServicesOf(db), s.uuid) == Some(s)
    ensures CharacteristicByUuids(c, s.uuid, uuid) == FirstWithType(c, CharacteristicsOf(db, s), uuid)
  {
    ServiceRecordIs(db);
    assert s.handle in c.characteristics && c.characteristics[s.handle] == CharacteristicRecord(db, s);
    assert Known(c) == ServiceRecord(db);
    CharacteristicRecordIs(db, s);
    CharacteristicRanges(db, s);
    hide Consistent, Complete, ValidDatabase, ServicesOf, CharacteristicsOf, ServiceRecord, CharacteristicRecord;
    ServicesListed(ServicesOf(db), ServiceRecord(db)) by {
      ServicesAscend(db);
    }
    CharacteristicsListed(CharacteristicsOf(db, s), CharacteristicRecord(db, s));
  }

  lemma ServicesAscend(db: Database)
    requires ValidDatabase(db)
    ensures forall i, j :: 0 <= i < j < |ServicesOf(db)| ==> ServicesOf(db)[i].handle < ServicesOf(db)[j].handle
  {
  }

  /**
    The lookup by two UUIDs compares the second with the types of attributes. Where every characteristic has
    its value among them, it finds the first one declared with the UUID exactly when none before that has an
    attribute of that type.
   */
  lemma LookupByUuids(c: Catalog, db: Database, s: ServiceInfo, uuid: Uuid)
    requires ValidDatabase(db) && Consistent(c, db) && Complete(c)
    requires s in ServicesOf(db) && FirstService(ServicesOf(db), s.uuid) == Some(s) &&
      Valued(db, CharacteristicsOf(db, s))
    ensures CharacteristicByUuids(c, s.uuid, uuid) == FirstDeclared(CharacteristicsOf(db, s), uuid)
       <==> Unshadowed(db, CharacteristicsOf(db, s), uuid)
  {
    hide Consistent, Complete, ValidDatabase, ServicesOf, CharacteristicsOf, HasType, HasAttribute;
    var list := CharacteristicsOf(db, s);
    LookedUpIn(c, db, s, uuid);
    forall i | 0 <= i < |list|
      ensures HasType(c, list[i].handle, uuid) <==> HasAttribute(db, list[i], uuid)
    {
      assert list[i] in list;
      TypeIsAttribute(c, db, s, list[i], uuid);
    }
    TypeOrDeclaration(c, db, list, uuid);
  }

  // ---------------------------------------------------------------- progress

  /** A catalog in the course of discovery. */
  ghost predicate Partial(c: Catalog, db: Database)
    requires ValidDatabase(db)
  {
    WellFormed(c) && Consistent(c, db)
  }

  /** Nothing known is lost or changed. */
  ghost predicate Extends(c: Catalog, c': Catalog) {
    && (c.services.Some? ==> c'.services == c.services)
    && c.includesKnown <= c'.includesKnown
    && (forall s :: s in c.characteristics ==> s in c'.characteristics && c'.characteristics[s] == c.characteristics[s])
    && (forall h :: h in c.descriptors ==> h in c'.descriptors && c'.descriptors[h] == c.descriptors[h])
  }

  lemma ExtendsItself(c: Catalog)
    ensures Extends(c, c)
  {
  }

  lemma ExtendsOn(a: Catalog, b: Catalog, c: Catalog)
    requires Extends(a, b) && Extends(b, c)
    ensures Extends(a, c)
  {
  }

  /** All of a service is known. */
  ghost predicate Charted(c: Catalog, s: nat) {
    s in c.includesKnown && s in c.characteristics && forall h :: h in c.characteristics[s] ==> h in c.descriptors
  }

  lemma StaysCharted(c: Catalog, c': Catalog, s: nat)
    requires Extends(c, c') && Charted(c, s)
    ensures Charted(c', s)
  {
  }

  lemma AllCharted(c: Catalog)
    requires WellFormed(c) && c.services.Some? && forall s :: s in Known(c) ==> Charted(c, s)
    ensures Complete(c)
  {
  }

  /** A complete catalog has no proper extension among the consistent ones. */
  lemma NothingToAdd(c: Catalog, s: nat)
    requires Complete(c) && s in Known(c)
    ensures Charted(c, s)
  {
    assert s in c.characteristics;
    assert forall h :: h in c.characteristics[s] ==> CharacteristicOf(c, h, s);
  }

  lemma IncludesStep(c: Catalog, db: Database, s: nat)
    requires ValidDatabase(db) && Partial(c, db) && s in Known(c) && !HasInclude(db, Known(c)[s])
    ensures Partial(SavedIncludes(c, s), db) && Extends(c, SavedIncludes(c, s))
  {
    var r := SavedIncludes(c, s);
    assert forall h, q :: CharacteristicOf(r, h, q) <==> CharacteristicOf(c, h, q);
    assert forall d, h :: DescriptorOf(r, d, h) <==> DescriptorOf(c, d, h);
    forall h | h in r.descriptors
      ensures exists q :: CharacteristicOf(r, h, q)
    {
      var q :| CharacteristicOf(c, h, q);
      assert CharacteristicOf(r, h, q);
    }
  }

  lemma WellFormedWithRecord(c: Catalog, db: Database, s: nat)
    requires ValidDatabase(db) && Partial(c, db) && s in Known(c) && s !in c.characteristics
    ensures WellFormed(Catalog(c.services, c.includesKnown,
      c.characteristics[s := CharacteristicRecord(db, Known(c)[s])], c.descriptors))
  {
    var record := CharacteristicRecord(db, Known(c)[s]);
    var r := Catalog(c.services, c.includesKnown, c.characteristics[s := record], c.descriptors);
    CharacteristicRecordIs(db, Known(c)[s]);
    forall h, q
      ensures CharacteristicOf(r, h, q) <==> CharacteristicOf(c, h, q) || (q == s && h in record)
      ensures h in record ==> !CharacteristicOf(c, h, q)
    {
      if h in record {
        Undiscovered(c, db, s, h, q);
      }
    }
    assert forall d, h :: DescriptorOf(r, d, h) <==> DescriptorOf(c, d, h);
    forall h | h in r.descriptors
      ensures exists q :: CharacteristicOf(r, h, q)
    {
      var q :| CharacteristicOf(c, h, q);
      assert CharacteristicOf(r, h, q);
    }
  }

  lemma CharacteristicsStep(c: Catalog, db: Database, s: nat)
    requires ValidDatabase(db) && Partial(c, db) && s in Known(c) && s !in c.characteristics
    ensures var r := SavedCharacteristics(c, s, CharacteristicsOf(db, Known(c)[s]));
      && CharacteristicsFit(c, s, CharacteristicsOf(db, Known(c)[s])) && Partial(r, db) && Extends(c, r)
      && s in r.characteristics && r.characteristics[s] == CharacteristicRecord(db, Known(c)[s]) &&
        r.includesKnown == c.includesKnown
  {
    CharacteristicsFitIn(c, db, s);
    CharacteristicsSave(c, db, s);
    WellFormedWithRecord(c, db, s);
  }

  lemma WellFormedDescribed(c: Catalog, h: nat, s: nat, record: map<nat, DescriptorInfo>)
    requires WellFormed(c) && CharacteristicOf(c, h, s) && forall d :: d in record ==> record[d].handle == d
    requires forall d, q :: d in record && DescriptorOf(c, d, q) ==> q == h
    ensures WellFormed(Described(c, h, record))
  {
    var r := Described(c, h, record);
    assert forall k, q :: CharacteristicOf(r, k, q) <==> CharacteristicOf(c, k, q);
    assert forall d, q :: DescriptorOf(r, d, q) ==> (q == h && d in record) || (q != h && DescriptorOf(c, d, q));
    forall k | k in r.descriptors
      ensures exists q :: CharacteristicOf(r, k, q)
    {
      if k == h {
        assert CharacteristicOf(r, h, s);
      } else {
        var q :| CharacteristicOf(c, k, q);
        assert CharacteristicOf(r, k, q);
      }
    }
  }

  lemma DescriptorsStep(c: Catalog, db: Database, h: nat, s: nat, x: CharacteristicInfo)
    requires ValidDatabase(db) && Partial(c, db) && CharacteristicOf(c, h, s) && c.characteristics[s][h] == x &&
      h !in c.descriptors
    ensures DescriptorsFit(c, h, DescriptorsOf(db, x))
    ensures SavedDescriptors(c, h, DescriptorsOf(db, x)) == Described(c, h, DescriptorRecord(db, x))
    ensures Partial(Described(c, h, DescriptorRecord(db, x)), db)
  {
    DescriptorsFitIn(c, db, h, s);
    SavedIsDescribed(c, h, DescriptorsOf(db, x));
    ConsistentDescribed(c, db, h, s, x);
    DescriptorRecordIs(db, x);
    WellFormedDescribed(c, h, s, DescriptorRecord(db, x));
  }

  // ---------------------------------------------------------------- records in order of handle

  lemma FirstIsMember(s: seq<nat>)
    requires s != []
    ensures exists k :: k in s
  {
    assert s[0] in s;
  }

  lemma {:induction false} SameOrder(a: seq<nat>, b: seq<nat>)
    requires forall i, j :: 0 <= i < j < |a| ==> a[i] < a[j]
    requires forall i, j :: 0 <= i < j < |b| ==> b[i] < b[j]
    requires forall k :: k in a <==> k in b
    ensures a == b
  {
    if a != [] {
      assert a[0] in b && b[0] in a;
      assert forall k :: k in a[1..] <==> k in a && k != a[0];
      assert forall k :: k in b[1..] <==> k in b && k != b[0];
      SameOrder(a[1..], b[1..]);
    } else if b != [] {
      FirstIsMember(b);
      assert false;
    }
  }

  /** A record of an ascending list lists it as it was. */
  lemma ServicesListed(list: seq<ServiceInfo>, record: map<nat, ServiceInfo>)
    requires forall i, j :: 0 <= i < j < |list| ==> list[i].handle < list[j].handle
    requires forall s :: s in list <==> s.handle in record && record[s.handle] == s
    requires forall h :: h in record ==> record[h].handle == h
    ensures ListServices(record) == list
  {
    SortedIsAscending(record.Keys);
    var handles := seq(|list|, i requires 0 <= i < |list| => list[i].handle);
    forall k
      ensures k in handles <==> k in record
    {
      if k in record {
        var i :| 0 <= i < |list| && list[i] == record[k];
        assert handles[i] == k;
      }
      if k in handles {
        var i :| 0 <= i < |list| && handles[i] == k;
        assert list[i] in list;
      }
    }
    SameOrder(Sorted(record.Keys), handles);
    forall i | 0 <= i < |list|
      ensures ListServices(record)[i] == list[i]
    {
      assert list[i] in list && Sorted(record.Keys)[i] == handles[i];
    }
  }

  lemma CharacteristicsListed(list: seq<CharacteristicInfo>, record: map<nat, CharacteristicInfo>)
    requires forall i, j :: 0 <= i < j < |list| ==> list[i].handle < list[j].handle
    requires forall c :: c in list <==> c.handle in record && record[c.handle] == c
    requires forall h :: h in record ==> record[h].handle == h
    ensures ListCharacteristics(record) == list
  {
    SortedIsAscending(record.Keys);
    var handles := seq(|list|, i requires 0 <= i < |list| => list[i].handle);
    forall k
      ensures k in handles <==> k in record
    {
      if k in record {
        var i :| 0 <= i < |list| && list[i] == record[k];
        assert handles[i] == k;
      }
      if k in handles {
        var i :| 0 <= i < |list| && handles[i] == k;
        assert list[i] in list;
      }
    }
    SameOrder(Sorted(record.Keys), handles);
    forall i | 0 <= i < |list|
      ensures ListCharacteristics(record)[i] == list[i]
    {
      assert list[i] in list && Sorted(record.Keys)[i] == handles[i];
    }
  }

  // ---------------------------------------------------------------- whole lists

  ghost function WithServices(c: Catalog, db: Database): Catalog
    requires ValidDatabase(db)
  {
    if c.services.Some? then c else SavedServices(c, ServicesOf(db))
  }

  ghost function WithCharacteristics(c: Catalog, db: Database, s: ServiceInfo): Catalog
    requires ValidDatabase(db)
  {
    if s.handle in c.characteristics then c else SavedCharacteristics(c, s.handle, CharacteristicsOf(db, s))
  }

  ghost function WithDescriptors(c: Catalog, db: Database, x: CharacteristicInfo): Catalog
    requires ValidDatabase(db)
  {
    if x.handle in c.descriptors then c else SavedDescriptors(c, x.handle, DescriptorsOf(db, x))
  }

  /** What is known after the descriptors of all characteristics of a list were discovered. */
  ghost function AfterDescriptors(c: Catalog, db: Database, list: seq<CharacteristicInfo>): Catalog
    requires ValidDatabase(db)
  {
    if list == [] then c
    else WithDescriptors(AfterDescriptors(c, db, list[..|list| - 1]), db, list[|list| - 1])
  }

  ghost predicate Of(list: seq<CharacteristicInfo>, c: Catalog, s: nat) {
    && s in c.characteristics
    && forall i :: 0 <= i < |list| ==>
      list[i].handle in c.characteristics[s] && c.characteristics[s][list[i].handle] == list[i]
  }

  lemma {:induction false} AfterDescriptorsKeeps(c: Catalog, db: Database, list: seq<CharacteristicInfo>)
    requires ValidDatabase(db)
    ensures AfterDescriptors(c, db, list).services == c.services
    ensures AfterDescriptors(c, db, list).includesKnown == c.includesKnown
    ensures AfterDescriptors(c, db, list).characteristics == c.characteristics
    ensures forall h :: h in c.descriptors ==>
      h in AfterDescriptors(c, db, list).descriptors && AfterDescriptors(c, db, list).descriptors[h] == c.descriptors[h]
  {
    if list != [] {
      AfterDescriptorsKeeps(c, db, list[..|list| - 1]);
    }
  }

  lemma {:induction false} AllDescribed(c: Catalog, db: Database, list: seq<CharacteristicInfo>)
    requires ValidDatabase(db)
    ensures forall i :: 0 <= i < |list| ==> list[i].handle in AfterDescriptors(c, db, list).descriptors
  {
    if list != [] {
      var front := list[..|list| - 1];
      AllDescribed(c, db, front);
      forall i | 0 <= i < |list|
        ensures list[i].handle in AfterDescriptors(c, db, list).descriptors
      {
        assert i < |front| ==> front[i].handle in AfterDescriptors(c, db, front).descriptors;
      }
    }
  }

  lemma {:induction false} AfterDescriptorsIs(c: Catalog, db: Database, s: nat, list: seq<CharacteristicInfo>)
    requires ValidDatabase(db) && Partial(c, db) && Of(list, c, s)
    ensures Partial(AfterDescriptors(c, db, list), db)
  {
    if list != [] {
      var front, x := list[..|list| - 1], list[|list| - 1];
      AfterDescriptorsIs(c, db, s, front);
      AfterDescriptorsKeeps(c, db, front);
      var before := AfterDescriptors(c, db, front);
      assert CharacteristicOf(before, x.handle, s);
      if x.handle !in before.descriptors {
        DescriptorsStep(before, db, x.handle, s, x);
      }
    }
  }

  /** The next characteristic is ready for its descriptors. */
  lemma NextDescribable(c: Catalog, db: Database, s: nat, list: seq<CharacteristicInfo>, i: nat)
    requires ValidDatabase(db) && Partial(c, db) && Of(list, c, s) && i < |list|
    ensures var before := AfterDescriptors(c, db, list[..i]);
      && CharacteristicOf(before, list[i].handle, s)
      && (list[i].handle !in before.descriptors ==> DescriptorsFit(before, list[i].handle, DescriptorsOf(db, list[i])))
      && AfterDescriptors(c, db, list[..i + 1]) == WithDescriptors(before, db, list[i])
  {
    AfterDescriptorsIs(c, db, s, list[..i]);
    AfterDescriptorsKeeps(c, db, list[..i]);
    var before := AfterDescriptors(c, db, list[..i]);
    assert list[..i + 1][..i] == list[..i];
    assert before.characteristics[s][list[i].handle] == list[i];
    if list[i].handle !in before.descriptors {
      DescriptorsFitIn(before, db, list[i].handle, s);
    }
  }

  lemma {:induction false} NothingToDescribe(c: Catalog, db: Database, list: seq<CharacteristicInfo>)
    requires ValidDatabase(db) && forall i :: 0 <= i < |list| ==> list[i].handle in c.descriptors
    ensures AfterDescriptors(c, db, list) == c
  {
    if list != [] {
      NothingToDescribe(c, db, list[..|list| - 1]);
    }
  }

  lemma IncludesAlready(c: Catalog, s: nat)
    requires s in c.includesKnown
    ensures SavedIncludes(c, s) == c
  {
    assert c.includesKnown + {s} == c.includesKnown;
  }

  /** The characteristics that are handed on are the server's, however they were come by. */
  lemma CharacteristicsHanded(c: Catalog, db: Database, s: ServiceInfo)
    requires ValidDatabase(db) && Partial(c, db) && s.handle in Known(c) && Known(c)[s.handle] == s
    ensures s.handle in c.characteristics ==>
      ListCharacteristics(c.characteristics[s.handle]) == CharacteristicsOf(db, s)
    ensures s.handle !in c.characteristics ==> CharacteristicsFit(c, s.handle, CharacteristicsOf(db, s))
    ensures var r := WithCharacteristics(c, db, s);
      && Partial(r, db) && Extends(c, r) && r.includesKnown == c.includesKnown
      && Of(CharacteristicsOf(db, s), r, s.handle) && r.characteristics[s.handle] == CharacteristicRecord(db, s)
  {
    var list := CharacteristicsOf(db, s);
    CharacteristicRecordIs(db, s);
    CharacteristicRanges(db, s);
    CharacteristicsListed(list, CharacteristicRecord(db, s));
    if s.handle !in c.characteristics {
      CharacteristicsStep(c, db, s.handle);
    }
    var r := WithCharacteristics(c, db, s);
    forall i | 0 <= i < |list|
      ensures list[i].handle in r.characteristics[s.handle] && r.characteristics[s.handle][list[i].handle] == list[i]
    {
      assert list[i] in list;
    }
  }

  /** A service is charted once all its characteristics are described. */
  lemma ServiceCharted(c: Catalog, db: Database, s: ServiceInfo)
    requires ValidDatabase(db) && s.handle in c.includesKnown
    requires s.handle in c.characteristics && c.characteristics[s.handle] == CharacteristicRecord(db, s)
    ensures Charted(AfterDescriptors(c, db, CharacteristicsOf(db, s)), s.handle)
  {
    var list := CharacteristicsOf(db, s);
    AfterDescriptorsKeeps(c, db, list);
    AllDescribed(c, db, list);
    CharacteristicRecordIs(db, s);
    var r := AfterDescriptors(c, db, list);
    forall h | h in c.characteristics[s.handle]
      ensures h in r.descriptors
    {
      var i :| 0 <= i < |list| && list[i] == c.characteristics[s.handle][h];
      assert list[i].handle == h;
    }
  }

  lemma SubOf(list: seq<CharacteristicInfo>, c: Catalog, s: nat, k: nat)
    requires Of(list, c, s) && k <= |list|
    ensures Of(list[..k], c, s)
  {
  }

  /** What is known once the characteristics of a service are. */
  ghost function Listed(c: Catalog, db: Database, s: ServiceInfo): Catalog
    requires ValidDatabase(db)
  {
    WithCharacteristics(SavedIncludes(c, s.handle), db, s)
  }

  lemma ListedIs(c: Catalog, db: Database, s: ServiceInfo)
    requires ValidDatabase(db) && Partial(c, db) && s.handle in Known(c) && Known(c)[s.handle] == s &&
      !HasInclude(db, s)
    ensures Partial(Listed(c, db, s), db) && Extends(c, Listed(c, db, s)) &&
      Of(CharacteristicsOf(db, s), Listed(c, db, s), s.handle)
    ensures s.handle in Listed(c, db, s).includesKnown
    ensures Listed(c, db, s).characteristics[s.handle] == CharacteristicRecord(db, s)
  {
    var c1 := SavedIncludes(c, s.handle);
    IncludesStep(c, db, s.handle);
    CharacteristicsHanded(c1, db, s);
    ExtendsOn(c, c1, Listed(c, db, s));
  }

  /** Then the descriptors of the first `k` of them are discovered. */
  lemma BelowIs(c: Catalog, db: Database, s: ServiceInfo, k: nat)
    requires ValidDatabase(db) && Partial(c, db) && Of(CharacteristicsOf(db, s), c, s.handle) &&
      k <= |CharacteristicsOf(db, s)|
    requires s.handle in c.includesKnown && c.characteristics[s.handle] == CharacteristicRecord(db, s)
    ensures var r := AfterDescriptors(c, db, CharacteristicsOf(db, s)[..k]);
      && Partial(r, db) && Extends(c, r)
      && (k == |CharacteristicsOf(db, s)| ==> Charted(r, s.handle))
  {
    var list := CharacteristicsOf(db, s);
    SubOf(list, c, s.handle, k);
    AfterDescriptorsIs(c, db, s.handle, list[..k]);
    AfterDescriptorsKeeps(c, db, list[..k]);
    if k == |list| {
      assert list[..k] == list;
      ServiceCharted(c, db, s);
    }
  }

  /** A charted service is left as it is. */
  lemma BelowCharted(c: Catalog, db: Database, s: ServiceInfo)
    requires ValidDatabase(db) && Partial(c, db) && s.handle in Known(c) && Known(c)[s.handle] == s &&
      Charted(c, s.handle)
    ensures SavedIncludes(c, s.handle) == c && Listed(c, db, s) == c
    ensures AfterDescriptors(c, db, CharacteristicsOf(db, s)) == c
    ensures forall i :: 0 <= i < |CharacteristicsOf(db, s)| ==> CharacteristicsOf(db, s)[i].handle in c.descriptors
  {
    var list := CharacteristicsOf(db, s);
    IncludesAlready(c, s.handle);
    CharacteristicsHanded(c, db, s);
    forall i | 0 <= i < |list|
      ensures list[i].handle in c.descriptors
    {
      assert list[i].handle in c.characteristics[s.handle];
    }
    NothingToDescribe(c, db, list);
  }

  /** The services that are handed on are the server's, however they were come by. */
  lemma ServicesHanded(c: Catalog, db: Database)
    requires ValidDatabase(db) && Partial(c, db)
    ensures c.services.Some? ==> ListServices(c.services.value) == ServicesOf(db)
    ensures c.services.None? ==> ServicesFit(c, ServicesOf(db))
    ensures var r := WithServices(c, db); Partial(r, db) && Extends(c, r) && r.services.Some?
  {
    ServiceRecordIs(db);
    ServicesListed(ServicesOf(db), ServiceRecord(db));
    if c.services.None? {
      FirstSave(c, db);
      assert c.characteristics == map[];
      assert forall h :: h in c.descriptors ==> exists s :: CharacteristicOf(c, h, s);
    }
  }

  // ---------------------------------------------------------------- the loop over services

  /** The first `n` listed services are charted. */
  ghost predicate ChartedUpTo(c: Catalog, list: seq<ServiceInfo>, n: nat)
    requires n <= |list|
  {
    n == 0 || (Charted(c, list[n - 1].handle) && ChartedUpTo(c, list, n - 1))
  }

  lemma {:induction false} StillCharted(c: Catalog, c': Catalog, list: seq<ServiceInfo>, n: nat)
    requires Extends(c, c') && n <= |list| && ChartedUpTo(c, list, n)
    ensures ChartedUpTo(c', list, n)
  {
    if n > 0 {
      StaysCharted(c, c', list[n - 1].handle);
      StillCharted(c, c', list, n - 1);
    }
  }

  lemma {:induction false} ChartedOne(c: Catalog, list: seq<ServiceInfo>, n: nat, i: nat)
    requires i < n <= |list| && ChartedUpTo(c, list, n)
    ensures Charted(c, list[i].handle)
  {
    if i < n - 1 {
      ChartedOne(c, list, n - 1, i);
    }
  }

  /** When all the server's services are charted, discovery is complete. */
  lemma ListCharted(c: Catalog, db: Database)
    requires ValidDatabase(db) && Partial(c, db) && c.services.Some? && ChartedUpTo(c, ServicesOf(db), |ServicesOf(db)|)
    ensures Complete(c)
  {
    var list := ServicesOf(db);
    ServiceRecordIs(db);
    forall s | s in Known(c)
      ensures Charted(c, s)
    {
      var i :| 0 <= i < |list| && list[i] == Known(c)[s];
      ChartedOne(c, list, |list|, i);
    }
    AllCharted(c);
  }

  /** The loop, having started from `c`, is as it should be after `n` services. */
  ghost predicate InProgress(c: Catalog, c': Catalog, db: Database, n: nat)
    requires ValidDatabase(db)
  {
    && n <= |ServicesOf(db)| && Partial(c', db) && Extends(c, c') && c'.services.Some?
    && ChartedUpTo(c', ServicesOf(db), n) && (Complete(c) ==> c' == c)
  }

  lemma Begins(c: Catalog, db: Database)
    requires ValidDatabase(db) && Partial(c, db)
    ensures InProgress(c, WithServices(c, db), db, 0)
  {
    ServicesHanded(c, db);
  }

  lemma ReadyForNext(c: Catalog, c': Catalog, db: Database, n: nat)
    requires ValidDatabase(db) && n < |ServicesOf(db)| && InProgress(c, c', db, n)
    ensures var s := ServicesOf(db)[n]; Partial(c', db) && s.handle in Known(c') && Known(c')[s.handle] == s
    ensures Complete(c) ==> c' == c && Charted(c, ServicesOf(db)[n].handle)
  {
    ServiceRecordIs(db);
    assert ServicesOf(db)[n] in ServicesOf(db);
    if Complete(c) {
      NothingToAdd(c, ServicesOf(db)[n].handle);
    }
  }

  lemma GoesOn(c: Catalog, before: Catalog, c': Catalog, db: Database, n: nat)
    requires ValidDatabase(db) && n < |ServicesOf(db)| && InProgress(c, before, db, n)
    requires Partial(c', db) && Extends(before, c') && Charted(c', ServicesOf(db)[n].handle) &&
      (Complete(c) ==> c' == before)
    ensures InProgress(c, c', db, n + 1)
  {
    ExtendsOn(c, before, c');
    StillCharted(before, c', ServicesOf(db), n);
  }

  lemma Stops(c: Catalog, before: Catalog, c': Catalog, db: Database, n: nat)
    requires ValidDatabase(db) && InProgress(c, before, db, n) && Extends(before, c')
    ensures Extends(c, c')
  {
    ExtendsOn(c, before, c');
  }

  lemma Ends(c: Catalog, c': Catalog, db: Database)
    requires ValidDatabase(db) && InProgress(c, c', db, |ServicesOf(db)|)
    ensures Partial(c', db) && Extends(c, c') && Complete(c') && (Complete(c) ==> c' == c)
  {
    ListCharted(c', db);
  }

  // ---------------------------------------------------------------- servers that can be discovered

  lemma {:induction false} Charting(db: Database, n: nat) returns (c: Catalog)
    requires ValidDatabase(db) && !SomeInclude(db) && n <= |ServicesOf(db)|
    ensures InProgress(EMPTY, c, db, n)
  {
    hide WellFormed, Consistent;
    if n == 0 {
      EmptyIsPartial(db);
      Begins(EMPTY, db);
      c := WithServices(EMPTY, db);
    } else {
      var before := Charting(db, n - 1);
      var s := ServicesOf(db)[n - 1];
      assert s in ServicesOf(db);
      ReadyForNext(EMPTY, before, db, n - 1);
      ListedIs(before, db, s);
      var list := CharacteristicsOf(db, s);
      BelowIs(Listed(before, db, s), db, s, |list|);
      c := AfterDescriptors(Listed(before, db, s), db, list[..|list|]);
      ExtendsOn(before, Listed(before, db, s), c);
      GoesOn(EMPTY, before, c, db, n - 1);
    }
  }

  lemma EmptyIsPartial(db: Database)
    requires ValidDatabase(db)
    ensures Partial(EMPTY, db) && !Complete(EMPTY)
  {
  }

  /** A server has a complete catalog exactly when none of its services has an Include declaration. */
  lemma Discoverable(db: Database)
    requires ValidDatabase(db)
    ensures (exists c :: Partial(c, db) && Complete(c)) <==> !SomeInclude(db)
  {
    if c :| Partial(c, db) && Complete(c) {
      NoIncludes(c, db);
    }
    if !SomeInclude(db) {
      var c := Charting(db, |ServicesOf(db)|);
      Ends(EMPTY, c, db);
    }
  }

  /** A service from handle 1 to 3 that includes one from 4 to 5. */
  const WITH_INCLUDE := Database(
    [Found(1, 3, [0x00, 0x18]), Found(4, 5, [0x0f, 0x18])], [Found(2, 2, [4, 0, 5, 0, 0x0f, 0x18])], [],
    [Found(1, 1, [0x00, 0x28]), Found(2, 2, [0x02, 0x28]), Found(4, 4, [0x00, 0x28])])

  lemma NeverDiscovered()
    ensures ValidDatabase(WITH_INCLUDE) && SomeInclude(WITH_INCLUDE)
    ensures forall c :: !(Partial(c, WITH_INCLUDE) && Complete(c))
  {
    var db := WITH_INCLUDE;
    assert Ascending(db.services) && Ascending(db.includes) && Ascending(db.attributes);
    var s := ServicesOf(db)[0];
    assert s in ServicesOf(db);
    WithinMembers(db.includes, 1, 3);
    assert db.includes[0] in Within(db.includes, 1, 3);
    Discoverable(db);
  }

  // ---------------------------------------------------------------- how many requests

  /** Requests for the descriptors of characteristics, each one more than there are attributes. */
  ghost function DescriptorRequests(db: Database, list: seq<CharacteristicInfo>): nat {
    if list == [] then 0
    else
      DescriptorRequests(db, list[..|list| - 1]) + Attributes(db, list[|list| - 1]) + 1
  }

  lemma NoneDescribed(c: Catalog, db: Database, list: seq<CharacteristicInfo>)
    requires ValidDatabase(db)
    ensures AfterDescriptors(c, db, list[..0]) == c && DescriptorRequests(db, list[..0]) == 0
  {
  }

  lemma DescriptorRequestsNext(db: Database, list: seq<CharacteristicInfo>, i: nat)
    requires i < |list|
    ensures DescriptorRequests(db, list[..i + 1]) == DescriptorRequests(db, list[..i]) + Attributes(db, list[i]) + 1
    ensures DescriptorRequests(db, list[..i + 1]) <= DescriptorRequests(db, list)
    decreases |list|
  {
    if i + 1 == |list| {
      assert list[..i + 1] == list;
    } else {
      assert list[..|list| - 1][..i + 1] == list[..i + 1] && list[..|list| - 1][..i] == list[..i];
      DescriptorRequestsNext(db, list[..|list| - 1], i);
    }
  }

  ghost function Attributes(db: Database, c: CharacteristicInfo): nat {
    |Within(db.attributes, c.handle, c.endingHandle)|
  }

  /** Requests for everything about a service. */
  ghost function RequestsBelow(db: Database, s: ServiceInfo): nat
    requires ValidDatabase(db)
  {
    RequestsListing(db, s) + DescriptorRequests(db, CharacteristicsOf(db, s))
  }

  /** Requests for its Include and its characteristic declarations. */
  ghost function RequestsListing(db: Database, s: ServiceInfo): nat {
    |Within(db.includes, s.handle, s.endingHandle)| + |Within(db.declarations, s.handle, s.endingHandle)| + 2
  }

  ghost function RequestsFor(db: Database, list: seq<ServiceInfo>): nat
    requires ValidDatabase(db)
  {
    if list == [] then 0 else RequestsFor(db, list[..|list| - 1]) + RequestsBelow(db, list[|list| - 1])
  }

  lemma RequestsForNext(db: Database, list: seq<ServiceInfo>, i: nat)
    requires ValidDatabase(db) && i < |list|
    ensures RequestsFor(db, list[..i + 1]) == RequestsFor(db, list[..i]) + RequestsBelow(db, list[i])
    ensures RequestsFor(db, list[..i + 1]) <= RequestsFor(db, list)
    decreases |list|
  {
    hide RequestsBelow;
    if i + 1 == |list| {
      assert list[..i + 1] == list;
    } else {
      assert list[..|list| - 1][..i + 1] == list[..i + 1] && list[..|list| - 1][..i] == list[..i];
      RequestsForNext(db, list[..|list| - 1], i);
    }
  }

  /** Requests of a discovery from nothing. */
  ghost function Requests(db: Database): nat
    requires ValidDatabase(db)
  {
    |db.services| + 1 + RequestsFor(db, ServicesOf(db))
  }

  // What lies in ranges that do not overlap is counted once.

  lemma {:induction false} WithinTwo<V>(matches: seq<Found<V>>, lo: int, mid: int, from: int, hi: int)
    requires lo <= mid + 1 && mid < from <= hi
    ensures |Within(matches, lo, mid)| + |Within(matches, from, hi)| <= |Within(matches, lo, hi)|
    decreases |matches|
  {
    if matches != [] {
      WithinTwo(matches[1..], lo, mid, from, hi);
    }
  }

  lemma {:induction false} WithinMost<V>(matches: seq<Found<V>>, lo: int, hi: int, a: int, b: int)
    requires a <= lo && hi <= b
    ensures |Within(matches, lo, hi)| <= |Within(matches, a, b)| <= |matches|
    decreases |matches|
  {
    if matches != [] {
      WithinMost(matches[1..], lo, hi, a, b);
    }
  }

  function EndOf(list: seq<CharacteristicInfo>, k: nat, lo: int): int
    requires k <= |list|
  {
    if k == 0 then lo - 1 else list[k - 1].endingHandle
  }

  lemma {:induction false} DescriptorRequestsUpTo(db: Database, s: ServiceInfo, k: nat)
    requires ValidDatabase(db) && k <= |CharacteristicsOf(db, s)|
    ensures var list := CharacteristicsOf(db, s);
      && s.handle - 1 <= EndOf(list, k, s.handle)
      && DescriptorRequests(db, list[..k]) <= k + |Within(db.attributes, s.handle, EndOf(list, k, s.handle))|
  {
    var list := CharacteristicsOf(db, s);
    if k > 0 {
      var x := list[k - 1];
      DescriptorRequestsUpTo(db, s, k - 1);
      assert list[..k][..k - 1] == list[..k - 1];
      CharacteristicRanges(db, s);
      assert x in list;
      CharacteristicInRange(db, s, x);
      NotReversed(db, s, k - 1);
      WithinTwo(db.attributes, s.handle, EndOf(list, k - 1, s.handle), x.handle, x.endingHandle);
    }
  }

  lemma NotReversed(db: Database, s: ServiceInfo, i: nat)
    requires ValidDatabase(db) && i < |CharacteristicsOf(db, s)|
    ensures CharacteristicsOf(db, s)[i].handle <= CharacteristicsOf(db, s)[i].endingHandle
  {
    DeclarationsWithin(db, s.handle, s.endingHandle);
  }

  /** Declarations count twice: each is read, and has descriptors asked for. */
  ghost function Weight(db: Database, lo: int, hi: int): nat {
    |Within(db.includes, lo, hi)| + 2 * |Within(db.declarations, lo, hi)| + |Within(db.attributes, lo, hi)|
  }

  lemma RequestsBelowBound(db: Database, s: ServiceInfo)
    requires ValidDatabase(db)
    ensures RequestsBelow(db, s) <= 2 + Weight(db, s.handle, s.endingHandle)
  {
    var list := CharacteristicsOf(db, s);
    DescriptorRequestsUpTo(db, s, |list|);
    assert list[..|list|] == list;
    if list == [] {
    } else {
      assert list[|list| - 1] in list;
      CharacteristicInRange(db, s, list[|list| - 1]);
      WithinMost(db.attributes, s.handle, list[|list| - 1].endingHandle, s.handle, s.endingHandle);
    }
  }

  lemma {:induction false} RequestsUpTo(db: Database, n: nat)
    requires ValidDatabase(db) && n <= |ServicesOf(db)|
    ensures RequestsFor(db, ServicesOf(db)[..n]) <= 2 * n + Weight(db, 0,
      if n == 0 then -1 else ServicesOf(db)[n - 1].endingHandle)
  {
    var list := ServicesOf(db);
    if n > 0 {
      var (s, end) := (list[n - 1], if n == 1 then -1 else list[n - 2].endingHandle);
      RequestsUpTo(db, n - 1);
      assert list[..n][..n - 1] == list[..n - 1];
      RequestsBelowBound(db, s);
      WithinTwo(db.includes, 0, end, s.handle, s.endingHandle);
      WithinTwo(db.declarations, 0, end, s.handle, s.endingHandle);
      WithinTwo(db.attributes, 0, end, s.handle, s.endingHandle);
    }
  }

  /** A discovery asks at most in proportion to what the server holds. */
  lemma RequestsAreLinear(db: Database)
    requires ValidDatabase(db)
    ensures Requests(db) <= 3 * |db.services| + |db.includes| + 2 * |db.declarations| + |db.attributes| + 1
  {
    var list := ServicesOf(db);
    var end := if list == [] then -1 else list[|list| - 1].endingHandle;
    RequestsUpTo(db, |list|);
    assert list[..|list|] == list;
    WithinMost(db.includes, 0, end, 0, end);
    WithinMost(db.declarations, 0, end, 0, end);
    WithinMost(db.attributes, 0, end, 0, end);
  }
}
