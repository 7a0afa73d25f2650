/**
  The nodes of a `GattDirectory`, the facts they hold, and the copy of a profile into nodes.
 */
module GattNodes {
  import opened Bytes
  import opened GattLinks
  import opened GattProfile

  class ServiceNode {
    const service: ServiceInfo
    var includesKnown: bool
    var characteristics: Option<map<nat, CharacteristicNode>>

    constructor (service: ServiceInfo)
      ensures this.service == service && !includesKnown && characteristics == None
    {
      this.service := service;
      includesKnown, characteristics := false, None;
    }
  }

  class CharacteristicNode {
    const characteristic: CharacteristicInfo
    var parent: ServiceNode?
    var descriptors: Option<map<nat, DescriptorNode>>

    constructor (characteristic: CharacteristicInfo, parent: ServiceNode?)
      ensures this.characteristic == characteristic && this.parent == parent && descriptors == None
    {
      this.characteristic, this.parent := characteristic, parent;
      descriptors := None;
    }
  }

  class DescriptorNode {
    const descriptor: DescriptorInfo
    var parent: CharacteristicNode?

    constructor (descriptor: DescriptorInfo, parent: CharacteristicNode?)
      ensures this.descriptor == descriptor && this.parent == parent
    {
      this.descriptor, this.parent := descriptor, parent;
    }
  }

  function ServiceLink(link: ServiceNode?): Option<ServiceNode> {
    if link == null then None else Some(link as ServiceNode)
  }

  function CharacteristicLink(link: CharacteristicNode?): Option<CharacteristicNode> {
    if link == null then None else Some(link as CharacteristicNode)
  }

  // ---------------------------------------------------------------- the facts in the nodes

  ghost function ServiceInfos(m: map<nat, ServiceNode>): map<nat, ServiceInfo> {
    map h | h in m :: m[h].service
  }

  ghost function CharacteristicInfos(m: map<nat, CharacteristicNode>): map<nat, CharacteristicInfo> {
    map h | h in m :: m[h].characteristic
  }

  ghost function DescriptorInfos(m: map<nat, DescriptorNode>): map<nat, DescriptorInfo> {
    map h | h in m :: m[h].descriptor
  }

  ghost function AllCharacteristicInfos(m: map<nat, Option<map<nat, CharacteristicNode>>>)
    : map<nat, map<nat, CharacteristicInfo>>
  {
    map s | s in m && m[s].Some? :: CharacteristicInfos(m[s].value)
  }

  ghost function AllDescriptorInfos(m: map<nat, Option<map<nat, DescriptorNode>>>): map<nat, map<nat, DescriptorInfo>> {
    map h | h in m && m[h].Some? :: DescriptorInfos(m[h].value)
  }

  lemma ServiceInfosAdded(m: map<nat, ServiceNode>, added: map<nat, ServiceNode>)
    ensures ServiceInfos(m + added) == ServiceInfos(m) + ServiceInfos(added) && ServiceInfos(added).Keys == added.Keys
  {
  }

  lemma CharacteristicInfosAdded(m: map<nat, Option<map<nat, CharacteristicNode>>>, s: nat,
    added: map<nat, CharacteristicNode>)
    requires s in m
    ensures AllCharacteristicInfos(m[s := Some(Content(m[s]) + added)])
         == Merged(AllCharacteristicInfos(m), s, CharacteristicInfos(added))
  {
    assert CharacteristicInfos(Content(m[s]) + added)
      == CharacteristicInfos(Content(m[s])) + CharacteristicInfos(added);
  }

  lemma DescriptorInfosAdded(m: map<nat, Option<map<nat, DescriptorNode>>>, h: nat, added: map<nat, DescriptorNode>)
    requires h in m
    ensures AllDescriptorInfos(m[h := Some(Content(m[h]) + added)])
         == Merged(AllDescriptorInfos(m), h, DescriptorInfos(added))
  {
    assert DescriptorInfos(Content(m[h]) + added) == DescriptorInfos(Content(m[h])) + DescriptorInfos(added);
  }

  lemma NoCharacteristicsYet(u: Level<ServiceNode, CharacteristicNode>, more: map<nat, ServiceNode>)
    requires u.records.Keys == u.parents.Keys
    ensures AllCharacteristicInfos(WithParents(u, more).records) == AllCharacteristicInfos(u.records) - more.Keys
  {
  }

  lemma NoDescriptorsYet(l: Level<CharacteristicNode, DescriptorNode>, more: map<nat, CharacteristicNode>)
    requires l.records.Keys == l.parents.Keys
    ensures AllDescriptorInfos(WithParents(l, more).records) == AllDescriptorInfos(l.records) - more.Keys
  {
  }

  lemma ServiceInfosUpdate(m: map<nat, ServiceNode>, h: nat, node: ServiceNode)
    ensures ServiceInfos(m[h := node]) == ServiceInfos(m)[h := node.service]
  {
  }

  lemma CharacteristicInfosUpdate(m: map<nat, CharacteristicNode>, h: nat, node: CharacteristicNode)
    ensures CharacteristicInfos(m[h := node]) == CharacteristicInfos(m)[h := node.characteristic]
  {
  }

  lemma DescriptorInfosUpdate(m: map<nat, DescriptorNode>, h: nat, node: DescriptorNode)
    ensures DescriptorInfos(m[h := node]) == DescriptorInfos(m)[h := node.descriptor]
  {
  }

  ghost function CatalogOf(services: Option<map<nat, ServiceNode>>, includes: set<nat>,
    u: Level<ServiceNode, CharacteristicNode>, l: Level<CharacteristicNode, DescriptorNode>): Catalog
  {
    Catalog(
      if services.Some? then Some(ServiceInfos(services.value)) else None,
      includes, AllCharacteristicInfos(u.records), AllDescriptorInfos(l.records))
  }

  /** Paths in the records are paths in the catalog. */
  lemma CatalogPaths(services: Option<map<nat, ServiceNode>>, includes: set<nat>,
    u: Level<ServiceNode, CharacteristicNode>, l: Level<CharacteristicNode, DescriptorNode>)
    ensures var c := CatalogOf(services, includes, u, l);
      && (forall h, s :: CharacteristicOf(c, h, s) <==> InRecord(u, s, h))
      && (forall d, h :: DescriptorOf(c, d, h) <==> InRecord(l, h, d))
      && (forall h, s :: CharacteristicOf(c, h, s) ==> c.characteristics[s][h] == u.records[s].value[h].characteristic)
      && (forall d, h :: DescriptorOf(c, d, h) ==> c.descriptors[h][d] == l.records[h].value[d].descriptor)
  {
  }

  lemma ParentsKnown(services: Option<map<nat, ServiceNode>>, includes: set<nat>,
    u: Level<ServiceNode, CharacteristicNode>, l: Level<CharacteristicNode, DescriptorNode>)
    requires Indexed(u) && Indexed(l) && l.parents == u.children
    ensures forall h :: h in CatalogOf(services, includes, u, l).descriptors ==>
      exists s :: CharacteristicOf(CatalogOf(services, includes, u, l), h, s)
  {
    var c := CatalogOf(services, includes, u, l);
    CatalogPaths(services, includes, u, l);
    forall h | h in c.descriptors
      ensures exists s :: CharacteristicOf(c, h, s)
    {
      var s :| Held(u, s, h);
      assert CharacteristicOf(c, h, s);
    }
  }

  lemma CatalogWellFormed(services: Option<map<nat, ServiceNode>>, includes: set<nat>,
    u: Level<ServiceNode, CharacteristicNode>, l: Level<CharacteristicNode, DescriptorNode>)
    requires Indexed(u) && Indexed(l) && Distinct(u) && Distinct(l)
    requires u.parents == Content(services) && l.parents == u.children && includes <= u.parents.Keys
    requires forall s :: s in u.parents ==> u.parents[s].service.handle == s
    requires forall h :: h in l.parents ==> l.parents[h].characteristic.handle == h
    requires forall d :: d in l.children ==> l.children[d].descriptor.handle == d
    ensures WellFormed(CatalogOf(services, includes, u, l))
  {
    var c := CatalogOf(services, includes, u, l);
    CatalogPaths(services, includes, u, l);
    ParentsKnown(services, includes, u, l);
    assert forall h, s :: CharacteristicOf(c, h, s) ==> Held(u, s, h);
    assert forall d, h :: DescriptorOf(c, d, h) ==> Held(l, h, d);
    OneParentEach(u);
    OneParentEach(l);
  }

  lemma ServicesInCatalog(services: Option<map<nat, ServiceNode>>, includes: set<nat>,
    u: Level<ServiceNode, CharacteristicNode>, l: Level<CharacteristicNode, DescriptorNode>,
    list: seq<ServiceInfo>, added: map<nat, ServiceNode>)
    requires u.records.Keys == u.parents.Keys && ServiceInfos(added) == ServicesByHandle(list)
    ensures CatalogOf(Some(Content(services) + added), includes - added.Keys, WithParents(u, added), l)
         == SavedServices(CatalogOf(services, includes, u, l), list)
  {
    NoCharacteristicsYet(u, added);
    ServiceInfosAdded(Content(services), added);
  }

  lemma CharacteristicsInCatalog(services: Option<map<nat, ServiceNode>>, includes: set<nat>,
    u: Level<ServiceNode, CharacteristicNode>, l: Level<CharacteristicNode, DescriptorNode>,
    handle: nat, list: seq<CharacteristicInfo>, added: map<nat, CharacteristicNode>)
    requires handle in u.parents && u.records.Keys == u.parents.Keys && l.records.Keys == l.parents.Keys
    requires CharacteristicInfos(added) == CharacteristicsByHandle(list)
    ensures CatalogOf(services, includes, WithChildren(u, handle, added), WithParents(l, added))
         == SavedCharacteristics(CatalogOf(services, includes, u, l), handle, list)
  {
    CharacteristicInfosAdded(u.records, handle, added);
    NoDescriptorsYet(l, added);
    assert CharacteristicInfos(added).Keys == added.Keys;
  }

  lemma DescriptorsInCatalog(services: Option<map<nat, ServiceNode>>, includes: set<nat>,
    u: Level<ServiceNode, CharacteristicNode>, l: Level<CharacteristicNode, DescriptorNode>,
    handle: nat, list: seq<DescriptorInfo>, added: map<nat, DescriptorNode>)
    requires handle in l.parents && l.records.Keys == l.parents.Keys
    requires DescriptorInfos(added) == DescriptorsByHandle(list)
    ensures CatalogOf(services, includes, u, WithChildren(l, handle, added))
         == SavedDescriptors(CatalogOf(services, includes, u, l), handle, list)
  {
    DescriptorInfosAdded(l.records, handle, added);
  }

  lemma ServicesFitLinks(services: Option<map<nat, ServiceNode>>, includes: set<nat>,
    u: Level<ServiceNode, CharacteristicNode>, l: Level<CharacteristicNode, DescriptorNode>,
    list: seq<ServiceInfo>, added: map<nat, ServiceNode>)
    requires Indexed(u) && Distinct(u) && ServiceInfos(added) == ServicesByHandle(list)
    ensures Indexed(WithParents(u, added)) <==> ServicesFit(CatalogOf(services, includes, u, l), list)
  {
    var c := CatalogOf(services, includes, u, l);
    assert ServiceInfos(added).Keys == added.Keys;
    CatalogPaths(services, includes, u, l);
    assert Childless(u, added) <==> ServicesFit(c, list);
    if Childless(u, added) {
      ParentsAdded(u, added);
    } else if Indexed(WithParents(u, added)) {
      OrphansDisagree(u, added);
    }
  }

  lemma CharacteristicsFitLinks(services: Option<map<nat, ServiceNode>>, includes: set<nat>,
    u: Level<ServiceNode, CharacteristicNode>, l: Level<CharacteristicNode, DescriptorNode>,
    handle: nat, list: seq<CharacteristicInfo>, added: map<nat, CharacteristicNode>)
    requires Indexed(u) && Indexed(l) && Distinct(l) && handle in u.parents
    requires CharacteristicInfos(added) == CharacteristicsByHandle(list)
    requires forall h :: h in added && h in u.children ==> added[h] != u.children[h]
    ensures Indexed(WithChildren(u, handle, added)) && Indexed(WithParents(l, added))
       <==> CharacteristicsFit(CatalogOf(services, includes, u, l), handle, list)
  {
    var c := CatalogOf(services, includes, u, l);
    assert CharacteristicInfos(added).Keys == added.Keys;
    CatalogPaths(services, includes, u, l);
    assert Unshared(u, handle, added) && Childless(l, added) <==> CharacteristicsFit(c, handle, list);
    if Unshared(u, handle, added) && Childless(l, added) {
      ChildrenAdded(u, handle, added);
      ParentsAdded(l, added);
    } else if Indexed(WithChildren(u, handle, added)) && Indexed(WithParents(l, added)) {
      SharedChildrenDisagree(u, handle, added);
      OrphansDisagree(l, added);
    }
  }

  lemma DescriptorsFitLinks(services: Option<map<nat, ServiceNode>>, includes: set<nat>,
    u: Level<ServiceNode, CharacteristicNode>, l: Level<CharacteristicNode, DescriptorNode>,
    handle: nat, list: seq<DescriptorInfo>, added: map<nat, DescriptorNode>)
    requires Indexed(l) && handle in l.parents
    requires DescriptorInfos(added) == DescriptorsByHandle(list)
    requires forall d :: d in added && d in l.children ==> added[d] != l.children[d]
    ensures Indexed(WithChildren(l, handle, added))
       <==> DescriptorsFit(CatalogOf(services, includes, u, l), handle, list)
  {
    var c := CatalogOf(services, includes, u, l);
    assert DescriptorInfos(added).Keys == added.Keys;
    CatalogPaths(services, includes, u, l);
    assert Unshared(l, handle, added) <==> DescriptorsFit(c, handle, list);
    if Unshared(l, handle, added) {
      ChildrenAdded(l, handle, added);
    } else if Indexed(WithChildren(l, handle, added)) {
      SharedChildrenDisagree(l, handle, added);
    }
  }

  // ---------------------------------------------------------------- nodes as values

  function CharacteristicValue(n: CharacteristicNode): Characteristic
    reads n
  {
    Characteristic(
      n.characteristic,
      if n.descriptors.None? then None else Some(map d | d in n.descriptors.value :: n.descriptors.value[d].descriptor))
  }

  function ServiceValue(n: ServiceNode): Service
    reads n, Content(n.characteristics).Values
  {
    Service(
      n.service, n.includesKnown,
      if n.characteristics.None? then None
      else Some(map h | h in n.characteristics.value :: CharacteristicValue(n.characteristics.value[h])))
  }

  // ---------------------------------------------------------------- records as lists

  method ServiceValues(record: map<nat, ServiceNode>) returns (list: seq<ServiceInfo>)
    ensures list == ListServices(ServiceInfos(record))
  {
    var keys := Sorted(record.Keys);
    SortedIsAscending(record.Keys);
    list := [];
    for i := 0 to |keys|
      invariant list == seq(i, k requires 0 <= k < i => assert keys[k] in keys; record[keys[k]].service)
    {
      assert keys[i] in keys;
      list := list + [record[keys[i]].service];
    }
    assert ServiceInfos(record).Keys == record.Keys;
  }

  method CharacteristicValues(record: map<nat, CharacteristicNode>) returns (list: seq<CharacteristicInfo>)
    ensures list == ListCharacteristics(CharacteristicInfos(record))
  {
    var keys := Sorted(record.Keys);
    SortedIsAscending(record.Keys);
    list := [];
    for i := 0 to |keys|
      invariant list == seq(i, k requires 0 <= k < i => assert keys[k] in keys; record[keys[k]].characteristic)
    {
      assert keys[i] in keys;
      list := list + [record[keys[i]].characteristic];
    }
    assert CharacteristicInfos(record).Keys == record.Keys;
  }

  method DescriptorValues(record: map<nat, DescriptorNode>) returns (list: seq<DescriptorInfo>)
    ensures list == ListDescriptors(DescriptorInfos(record))
  {
    var keys := Sorted(record.Keys);
    SortedIsAscending(record.Keys);
    list := [];
    for i := 0 to |keys|
      invariant list == seq(i, k requires 0 <= k < i => assert keys[k] in keys; record[keys[k]].descriptor)
    {
      assert keys[i] in keys;
      list := list + [record[keys[i]].descriptor];
    }
    assert DescriptorInfos(record).Keys == record.Keys;
  }

  // ---------------------------------------------------------------- scans by UUID

  method HasDescriptorType(node: CharacteristicNode, uuid: Uuid) returns (found: bool)
    ensures found <==> TypeIn(DescriptorInfos(Content(node.descriptors)), uuid)
  {
    if node.descriptors.None? {
      return false;
    }
    var record := node.descriptors.value;
    ghost var infos := DescriptorInfos(record);
    SortedIsAscending(record.Keys);
    var keys := Sorted(record.Keys);
    for i := 0 to |keys|
      invariant forall j :: 0 <= j < i ==> keys[j] in record && record[keys[j]].descriptor.uuid != uuid
    {
      assert keys[i] in keys;
      if record[keys[i]].descriptor.uuid == uuid {
        assert keys[i] in infos && infos[keys[i]].uuid == uuid;
        return true;
      }
    }
    assert forall d :: d in infos ==> d in keys;
    return false;
  }

  /** The catalog says of every characteristic of the record what the node says. */
  ghost predicate KnowsTypes(c: Catalog, record: map<nat, CharacteristicNode>, uuid: Uuid)
    reads record.Values
  {
    forall h :: h in record ==>
      && record[h].characteristic.handle == h
      && HasType(c, h, uuid) == TypeIn(DescriptorInfos(Content(record[h].descriptors)), uuid)
  }

  lemma CharacteristicsInOrder(record: map<nat, CharacteristicNode>)
    ensures |ListCharacteristics(CharacteristicInfos(record))| == |Sorted(record.Keys)|
    ensures forall i :: 0 <= i < |Sorted(record.Keys)| ==>
      && Sorted(record.Keys)[i] in record
      && ListCharacteristics(CharacteristicInfos(record))[i] == record[Sorted(record.Keys)[i]].characteristic
  {
    assert CharacteristicInfos(record).Keys == record.Keys;
    SortedIsAscending(record.Keys);
    forall i | 0 <= i < |Sorted(record.Keys)|
      ensures Sorted(record.Keys)[i] in record
    {
      assert Sorted(record.Keys)[i] in Sorted(record.Keys);
    }
  }

  /** The loop over the characteristics of a service: the first in order with a descriptor of the type. */
  method FirstNodeWithType(record: map<nat, CharacteristicNode>, uuid: Uuid, ghost c: Catalog)
    returns (r: Option<CharacteristicInfo>)
    requires KnowsTypes(c, record, uuid)
    ensures r == FirstWithType(c, ListCharacteristics(CharacteristicInfos(record)), uuid)
  {
    ghost var list := ListCharacteristics(CharacteristicInfos(record));
    CharacteristicsInOrder(record);
    var keys := Sorted(record.Keys);
    for i := 0 to |keys|
      invariant FirstWithType(c, list, uuid) == FirstWithType(c, list[i..], uuid)
    {
      assert list[i..][0] == record[keys[i]].characteristic && list[i..][1..] == list[i + 1..];
      var found := HasDescriptorType(record[keys[i]], uuid);
      if found {
        return Some(record[keys[i]].characteristic);
      }
    }
    assert list[|keys|..] == [];
    return None;
  }
}
