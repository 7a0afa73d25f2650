/** `cloneProfile`: a profile copied into new nodes, each linked to its parent. */
module GattClone {
  import opened Bytes
  import opened GattFiling
  import opened GattLinks
  import opened GattNodes
  import opened GattProfile

  ghost predicate CharacteristicCloned(node: CharacteristicNode, e: Characteristic)
    reads node, Content(node.descriptors).Values
  {
    && node.characteristic == e.characteristic
    && (node.descriptors.Some? <==> e.descriptors.Some?)
    && DescriptorInfos(Content(node.descriptors)) == Content(e.descriptors)
    && (forall d :: d in Content(node.descriptors) ==> Content(node.descriptors)[d].parent == node)
  }

  ghost function Below(record: map<nat, CharacteristicNode>): set<object>
    reads record.Values
  {
    set c, d | c in record.Values && d in Content(c.descriptors).Values :: d as object
  }

  ghost predicate RecordCloned(node: ServiceNode, record: map<nat, Characteristic>)
    reads node, Content(node.characteristics).Values, Below(Content(node.characteristics))
  {
    && Content(node.characteristics).Keys == record.Keys
    && (forall h :: h in Content(node.characteristics) ==>
          && Content(node.characteristics)[h].parent == node
          && CharacteristicCloned(Content(node.characteristics)[h], record[h]))
  }

  ghost predicate ServiceCloned(node: ServiceNode, e: Service)
    reads node, Content(node.characteristics).Values, Below(Content(node.characteristics))
  {
    && node.service == e.service && node.includesKnown == e.includesKnown
    && (node.characteristics.Some? <==> e.characteristics.Some?)
    && RecordCloned(node, Content(e.characteristics))
  }

  /** The keys of a record in the order in which `Object.values` visits them. */
  method KeysOf(keys: set<nat>) returns (list: seq<nat>)
    ensures list == Sorted(keys)
    ensures forall k :: k in list <==> k in keys
  {
    SortedIsAscending(keys);
    list := Sorted(keys);
  }

  method CloneCharacteristic(e: Characteristic) returns (node: CharacteristicNode)
    ensures fresh(node) && node.parent == null && CharacteristicCloned(node, RefiledCharacteristic(e))
  {
    node := new CharacteristicNode(e.characteristic, null);
    if e.descriptors.None? {
      return;
    }
    node.descriptors := Some(map[]);
    var record := e.descriptors.value;
    var keys := KeysOf(record.Keys);
    ghost var entries := DescriptorEntries(record);
    ghost var added: map<nat, DescriptorNode> := map[];
    for i := 0 to |keys|
      invariant node.parent == null && node.descriptors == Some(added)
      invariant DescriptorInfos(added) == Filed(entries[..i])
      invariant forall d :: d in added ==> fresh(added[d]) && added[d].parent == node
    {
      assert keys[i] in keys;
      FiledNext(entries, i);
      var descriptor := new DescriptorNode(record[keys[i]], null);
      node.descriptors := Some(node.descriptors.value[descriptor.descriptor.handle := descriptor]);
      descriptor.parent := node;
      DescriptorInfosUpdate(added, descriptor.descriptor.handle, descriptor);
      added := added[descriptor.descriptor.handle := descriptor];
    }
    assert entries[..|keys|] == entries;
  }

  method CloneUnder(parent: ServiceNode, e: Characteristic) returns (node: CharacteristicNode)
    ensures fresh(node) && node.characteristic == e.characteristic && node.parent == parent
    ensures CharacteristicCloned(node, RefiledCharacteristic(e))
  {
    node := CloneCharacteristic(e);
    node.parent := parent;
  }

  /** One more characteristic of a service. */
  method PutClone(node: ServiceNode, e: Characteristic, ghost copied: map<nat, Characteristic>)
    requires node.characteristics.Some? && RecordCloned(node, copied)
    modifies node`characteristics
    ensures node.characteristics.Some? &&
      RecordCloned(node, copied[e.characteristic.handle := RefiledCharacteristic(e)])
    ensures forall h :: h in node.characteristics.value ==>
      fresh(node.characteristics.value[h]) || node.characteristics.value[h] in old(node.characteristics.value.Values)
  {
    hide RefiledCharacteristic;
    var c := CloneUnder(node, e);
    node.characteristics := Some(node.characteristics.value[c.characteristic.handle := c]);
  }

  method CloneService(e: Service) returns (node: ServiceNode)
    ensures fresh(node) && node.service == e.service && ServiceCloned(node, RefiledService(e))
    ensures forall h :: h in Content(node.characteristics) ==> fresh(Content(node.characteristics)[h])
  {
    node := new ServiceNode(e.service);
    node.includesKnown := e.includesKnown;
    if e.characteristics.None? {
      return;
    }
    node.characteristics := Some(map[]);
    var record := e.characteristics.value;
    var keys := KeysOf(record.Keys);
    ghost var entries := CharacteristicEntries(record);
    assert RecordCloned(node, Filed(entries[..0]));
    hide RefiledCharacteristic, Filed, RecordCloned;
    for i := 0 to |keys|
      invariant node.includesKnown == e.includesKnown && node.characteristics.Some?
      invariant RecordCloned(node, Filed(entries[..i]))
      invariant forall h :: h in node.characteristics.value ==> fresh(node.characteristics.value[h])
    {
      assert keys[i] in keys;
      FiledNext(entries, i);
      PutClone(node, record[keys[i]], Filed(entries[..i]));
    }
    assert entries[..|keys|] == entries;
  }

  /** One more service. */
  method CloneNext(m: map<nat, ServiceNode>, e: Service, ghost copied: map<nat, Service>)
    returns (r: map<nat, ServiceNode>)
    requires m.Keys == copied.Keys && forall s :: s in m ==> ServiceCloned(m[s], copied[s])
    ensures r.Keys == m.Keys + {e.service.handle} && forall s :: s in m && s != e.service.handle ==> r[s] == m[s]
    ensures fresh(r[e.service.handle])
    ensures forall h :: h in Content(r[e.service.handle].characteristics) ==>
      fresh(Content(r[e.service.handle].characteristics)[h])
    ensures forall s :: s in r ==> ServiceCloned(r[s], copied[e.service.handle := RefiledService(e)][s])
  {
    hide RefiledService;
    var node := CloneService(e);
    r := m[node.service.handle := node];
  }

  method CloneServices(p: map<nat, Service>) returns (m: map<nat, ServiceNode>)
    ensures m.Keys == Filed(ServiceEntries(p)).Keys
    ensures forall s :: s in m ==> fresh(m[s]) && ServiceCloned(m[s], Filed(ServiceEntries(p))[s])
    ensures forall s, h :: s in m && h in Content(m[s].characteristics) ==> fresh(Content(m[s].characteristics)[h])
  {
    m := map[];
    var keys := KeysOf(p.Keys);
    ghost var entries := ServiceEntries(p);
    assert m.Keys == Filed(entries[..0]).Keys;
    hide RefiledService, Filed, ServiceCloned;
    for i := 0 to |keys|
      invariant m.Keys == Filed(entries[..i]).Keys
      invariant forall s :: s in m ==> fresh(m[s]) && ServiceCloned(m[s], Filed(entries[..i])[s])
      invariant forall s, h :: s in m && h in Content(m[s].characteristics) ==> fresh(Content(m[s].characteristics)[h])
    {
      assert keys[i] in keys;
      FiledNext(entries, i);
      m := CloneNext(m, p[keys[i]], Filed(entries[..i]));
    }
    assert entries[..|keys|] == entries;
  }

  // ---------------------------------------------------------------- the nodes of a tree by handle

  /**
    The characteristics and descriptors of a tree by handle, the handles of their parents, and which
    services and characteristics have which records.
   */
  datatype Leaves = Leaves(
    characteristics: map<nat, CharacteristicNode>, owner: map<nat, nat>,
    descriptors: map<nat, DescriptorNode>, holder: map<nat, nat>,
    includes: set<nat>, listed: set<nat>, described: set<nat>)

  ghost predicate Rooted(t: Leaves, services: set<nat>) {
    && t.owner.Keys == t.characteristics.Keys && t.holder.Keys == t.descriptors.Keys
    && t.includes <= services
    && (forall h :: h in t.owner ==> t.owner[h] in services)
    && (forall d :: d in t.holder ==> t.holder[d] in t.characteristics)
    && (forall h :: h in t.characteristics ==> t.characteristics[h].characteristic.handle == h)
    && (forall d :: d in t.descriptors ==> t.descriptors[d].descriptor.handle == d)
  }

  /** The records and the parent links of the nodes are those of the leaves. */
  ghost predicate Linked(m: map<nat, ServiceNode>, t: Leaves)
    requires Rooted(t, m.Keys)
    reads m.Values`characteristics, m.Values`includesKnown, t.characteristics.Values`parent
    reads t.characteristics.Values`descriptors, t.descriptors.Values`parent
  {
    && (forall s :: s in m ==> Content(m[s].characteristics) == Under(t.characteristics, t.owner, {s}))
    && (forall s :: s in m ==> m[s].characteristics.Some? == (s in t.listed) && m[s].includesKnown == (s in t.includes))
    && (forall h :: h in t.characteristics ==>
          Content(t.characteristics[h].descriptors) == Under(t.descriptors, t.holder, {h}))
    && (forall h :: h in t.characteristics ==> t.characteristics[h].descriptors.Some? == (h in t.described))
    && (forall h :: h in t.characteristics ==> t.characteristics[h].parent == m[t.owner[h]])
    && (forall d :: d in t.descriptors ==> t.descriptors[d].parent == t.characteristics[t.holder[d]])
  }

  // ---------------------------------------------------------------- the leaves of a copy

  /** `owner` and `holder` name the only place of every handle. */
  ghost predicate Places(p: Profile, owner: map<nat, nat>, holder: map<nat, nat>) {
    && (forall d :: d in holder ==> holder[d] in owner)
    && (forall s, h :: HasCharacteristic(p, s, h) <==> h in owner && owner[h] == s)
    && (forall s, h, d :: HasDescriptor(p, s, h, d) <==> d in holder && holder[d] == h && h in owner && owner[h] == s)
  }

  lemma FindPlaces(p: Profile) returns (owner: map<nat, nat>, holder: map<nat, nat>)
    requires OnePlaceEach(p)
    ensures Places(p, owner, holder)
  {
    var all := set s, h | s in Content(p.services) && h in Content(Content(p.services)[s].characteristics) :: h;
    forall s, h | HasCharacteristic(p, s, h)
      ensures h in all
    {
      assert s in Content(p.services) && h in Content(Content(p.services)[s].characteristics);
    }
    forall h | h in all
      ensures exists s :: HasCharacteristic(p, s, h)
    {
      var s :| s in Content(p.services) && h in Content(Content(p.services)[s].characteristics);
      assert HasCharacteristic(p, s, h);
    }
    owner := map h | h in all :: var s :| HasCharacteristic(p, s, h); s;
    var under := map h | h in owner :: Content(CharacteristicAt(p, owner[h], h).descriptors).Keys;
    var low := set h, d | h in under && d in under[h] :: d;
    forall s, h, d | HasDescriptor(p, s, h, d)
      ensures h in owner && owner[h] == s && d in low
    {
      assert d in under[h];
    }
    holder := map d | d in low :: var h :| h in owner && HasDescriptor(p, owner[h], h, d); h;
  }

  ghost predicate Cloned(m: map<nat, ServiceNode>, p: Profile)
    reads m.Values, set n, c | n in m.Values && c in Content(n.characteristics).Values :: c
    reads set n, d | n in m.Values && d in Below(Content(n.characteristics)) :: d
  {
    m.Keys == Content(p.services).Keys && forall s :: s in m ==> ServiceCloned(m[s], Content(p.services)[s])
  }

  lemma ClonedNode(m: map<nat, ServiceNode>, p: Profile, s: nat, h: nat)
    requires Cloned(m, p) && HasCharacteristic(p, s, h)
    ensures s in m && h in Content(m[s].characteristics) && Content(m[s].characteristics)[h].parent == m[s]
    ensures CharacteristicCloned(Content(m[s].characteristics)[h], CharacteristicAt(p, s, h))
    ensures forall d :: d in Content(Content(m[s].characteristics)[h].descriptors) <==> HasDescriptor(p, s, h, d)
  {
    assert ServiceCloned(m[s], p.services.value[s]);
    var node := Content(m[s].characteristics)[h];
    assert DescriptorInfos(Content(node.descriptors)).Keys == Content(node.descriptors).Keys;
  }

  /** A copied characteristic among the leaves. */
  ghost predicate Leaf(node: CharacteristicNode, parent: ServiceNode, h: nat, holder: map<nat, nat>)
    reads node, Content(node.descriptors).Values
  {
    && node.parent == parent && node.characteristic.handle == h
    && (forall d :: d in Content(node.descriptors) <==> d in holder && holder[d] == h)
    && (forall d :: d in Content(node.descriptors) ==>
          Content(node.descriptors)[d].descriptor.handle == d && Content(node.descriptors)[d].parent == node)
  }

  lemma ClonedLeaf(m: map<nat, ServiceNode>, p: Profile, owner: map<nat, nat>, holder: map<nat, nat>, h: nat)
    requires Unique(p) && Cloned(m, p) && Places(p, owner, holder) && h in owner
    ensures owner[h] in m && h in Content(m[owner[h]].characteristics)
    ensures Leaf(Content(m[owner[h]].characteristics)[h], m[owner[h]], h, holder)
  {
    assert HasCharacteristic(p, owner[h], h);
    ClonedNode(m, p, owner[h], h);
    var node := Content(m[owner[h]].characteristics)[h];
    forall d | d in Content(node.descriptors)
      ensures Content(node.descriptors)[d].descriptor.handle == d
    {
      assert HasDescriptor(p, owner[h], h, d);
      assert DescriptorInfos(Content(node.descriptors))[d] == Content(node.descriptors)[d].descriptor;
    }
  }

  lemma ClonedRecord(m: map<nat, ServiceNode>, p: Profile, owner: map<nat, nat>, holder: map<nat, nat>, s: nat, h: nat)
    requires Cloned(m, p) && Places(p, owner, holder) && s in m
    ensures h in Content(m[s].characteristics) <==> h in owner && owner[h] == s
  {
    assert ServiceCloned(m[s], Content(p.services)[s]);
    assert h in Content(m[s].characteristics) <==> HasCharacteristic(p, s, h);
  }

  lemma UpperLeaves(m: map<nat, ServiceNode>, p: Profile, owner: map<nat, nat>, holder: map<nat, nat>)
    returns (c: map<nat, CharacteristicNode>)
    requires Unique(p) && Cloned(m, p) && Places(p, owner, holder)
    ensures c.Keys == owner.Keys
    ensures forall h :: h in c ==>
      && owner[h] in m && h in Content(m[owner[h]].characteristics) && c[h] == Content(m[owner[h]].characteristics)[h]
      && Leaf(c[h], m[owner[h]], h, holder)
  {
    forall h | h in owner
      ensures owner[h] in m && h in Content(m[owner[h]].characteristics)
      ensures Leaf(Content(m[owner[h]].characteristics)[h], m[owner[h]], h, holder)
    {
      ClonedLeaf(m, p, owner, holder, h);
    }
    c := map h | h in owner :: Content(m[owner[h]].characteristics)[h];
  }

  lemma UpperRecord(m: map<nat, ServiceNode>, p: Profile, owner: map<nat, nat>, holder: map<nat, nat>,
    c: map<nat, CharacteristicNode>, s: nat)
    requires Cloned(m, p) && Places(p, owner, holder) && s in m && c.Keys == owner.Keys
    requires forall h :: h in c ==>
      owner[h] in m && h in Content(m[owner[h]].characteristics) && c[h] == Content(m[owner[h]].characteristics)[h]
    ensures Content(m[s].characteristics) == Under(c, owner, {s})
  {
    forall h
      ensures h in Content(m[s].characteristics) <==> h in owner && owner[h] == s
    {
      ClonedRecord(m, p, owner, holder, s, h);
    }
  }

  lemma LowerLeaves(c: map<nat, CharacteristicNode>, holder: map<nat, nat>) returns (d: map<nat, DescriptorNode>)
    requires forall k :: k in holder ==> holder[k] in c
    requires forall h, k :: h in c ==> (k in Content(c[h].descriptors) <==> k in holder && holder[k] == h)
    ensures d.Keys == holder.Keys
    ensures forall k :: k in d ==>
      k in Content(c[holder[k]].descriptors) && d[k] == Content(c[holder[k]].descriptors)[k]
    ensures forall h :: h in c ==> Content(c[h].descriptors) == Under(d, holder, {h})
  {
    assert forall k :: k in holder ==> k in Content(c[holder[k]].descriptors);
    d := map k | k in holder :: Content(c[holder[k]].descriptors)[k];
  }

  /** Leaves put together from the nodes of a copy. */
  ghost predicate Assembled(m: map<nat, ServiceNode>, t: Leaves)
    reads m.Values, t.characteristics.Values
    reads set c, d | c in t.characteristics.Values && d in Content(c.descriptors).Values :: d
  {
    && t.characteristics.Keys == t.owner.Keys && t.descriptors.Keys == t.holder.Keys
    && (forall d :: d in t.holder ==> t.holder[d] in t.characteristics)
    && (forall h :: h in t.owner ==> t.owner[h] in m && Leaf(t.characteristics[h], m[t.owner[h]], h, t.holder))
    && (forall d :: d in t.descriptors ==>
          && d in Content(t.characteristics[t.holder[d]].descriptors)
          && t.descriptors[d] == Content(t.characteristics[t.holder[d]].descriptors)[d])
    && t.includes == (set s | s in m && m[s].includesKnown)
    && t.listed == (set s | s in m && m[s].characteristics.Some?)
    && t.described == (set h | h in t.characteristics && t.characteristics[h].descriptors.Some?)
  }

  lemma AssembledRooted(m: map<nat, ServiceNode>, t: Leaves)
    requires Assembled(m, t)
    ensures Rooted(t, m.Keys)
  {
  }

  lemma AssembledLinked(m: map<nat, ServiceNode>, t: Leaves)
    requires Assembled(m, t) && Rooted(t, m.Keys)
    requires forall s :: s in m ==> Content(m[s].characteristics) == Under(t.characteristics, t.owner, {s})
    requires forall h :: h in t.characteristics ==>
      Content(t.characteristics[h].descriptors) == Under(t.descriptors, t.holder, {h})
    ensures Linked(m, t)
  {
  }

  lemma Assemble(m: map<nat, ServiceNode>, owner: map<nat, nat>, holder: map<nat, nat>,
    c: map<nat, CharacteristicNode>, d: map<nat, DescriptorNode>) returns (t: Leaves)
    requires c.Keys == owner.Keys && d.Keys == holder.Keys && forall k :: k in holder ==> holder[k] in c
    requires forall h :: h in c ==> owner[h] in m && Leaf(c[h], m[owner[h]], h, holder)
    requires forall k :: k in d ==>
      k in Content(c[holder[k]].descriptors) && d[k] == Content(c[holder[k]].descriptors)[k]
    ensures t.characteristics == c && t.owner == owner && t.descriptors == d && t.holder == holder
    ensures Assembled(m, t) && Rooted(t, m.Keys)
  {
    t := Leaves(
      c, owner, d, holder, set s | s in m && m[s].includesKnown,
      set s | s in m && m[s].characteristics.Some?, set h | h in c && c[h].descriptors.Some?);
    AssembledRooted(m, t);
  }

  lemma LeavesOf(m: map<nat, ServiceNode>, p: Profile) returns (t: Leaves)
    requires Unique(p) && Cloned(m, p)
    ensures Rooted(t, m.Keys) && Linked(m, t)
  {
    var owner, holder := FindPlaces(p);
    var c := UpperLeaves(m, p, owner, holder);
    var d := LowerLeaves(c, holder);
    t := Assemble(m, owner, holder, c, d);
    forall s | s in m
      ensures Content(m[s].characteristics) == Under(c, owner, {s})
    {
      UpperRecord(m, p, owner, holder, c, s);
    }
    AssembledLinked(m, t);
  }

  // ---------------------------------------------------------------- the copy as levels

  ghost function UpperOf(m: map<nat, ServiceNode>, t: Leaves): Level<ServiceNode, CharacteristicNode>
    requires Rooted(t, m.Keys)
  {
    Level(m, t.characteristics,
          map s | s in m :: if s in t.listed then Some(Under(t.characteristics, t.owner, {s})) else None,
          map h | h in t.characteristics :: Some(m[t.owner[h]]))
  }

  ghost function LowerOf(t: Leaves): Level<CharacteristicNode, DescriptorNode>
    requires t.holder.Keys == t.descriptors.Keys && forall d :: d in t.holder ==> t.holder[d] in t.characteristics
  {
    Level(t.characteristics, t.descriptors,
          map h | h in t.characteristics ::
            if h in t.described then Some(Under(t.descriptors, t.holder, {h})) else None,
          map d | d in t.descriptors :: Some(t.characteristics[t.holder[d]]))
  }

  lemma UpperIndexed(m: map<nat, ServiceNode>, t: Leaves)
    requires Rooted(t, m.Keys) && Linked(m, t)
    ensures Indexed(UpperOf(m, t))
  {
    OwnedIndexed(UpperOf(m, t), t.owner);
  }

  lemma LowerIndexed(m: map<nat, ServiceNode>, t: Leaves)
    requires Rooted(t, m.Keys) && Linked(m, t)
    ensures Indexed(LowerOf(t))
  {
    OwnedIndexed(LowerOf(t), t.holder);
  }

  lemma CopiedDescriptors(m: map<nat, ServiceNode>, p: Profile, t: Leaves, s: nat, h: nat)
    requires Cloned(m, p) && Rooted(t, m.Keys) && Linked(m, t) && HasCharacteristic(p, s, h)
    ensures h in t.characteristics && h in Content(m[s].characteristics)
    ensures Content(m[s].characteristics)[h].characteristic == CharacteristicAt(p, s, h).characteristic
    ensures DescriptorsAt(CatalogOf(Some(m), t.includes, UpperOf(m, t), LowerOf(t)), h)
      == CharacteristicAt(p, s, h).descriptors
  {
    ClonedNode(m, p, s, h);
    var node := Content(m[s].characteristics)[h];
    assert Content(m[s].characteristics) == Under(t.characteristics, t.owner, {s});
    assert t.characteristics[h] == node;
  }

  lemma CharacteristicsFrom(c: Catalog, s: nat, e: map<nat, Characteristic>)
    requires s in c.characteristics && c.characteristics[s].Keys == e.Keys
    requires forall h :: h in e ==> Characteristic(c.characteristics[s][h], DescriptorsAt(c, h)) == e[h]
    ensures CharacteristicsAt(c, s) == Some(e)
  {
    assert CharacteristicsAt(c, s).value == e;
  }

  lemma CopiedCharacteristics(m: map<nat, ServiceNode>, p: Profile, t: Leaves, s: nat)
    requires Cloned(m, p) && Rooted(t, m.Keys) && Linked(m, t) && s in m && m[s].characteristics.Some?
    requires Content(m[s].characteristics).Keys == Content(Content(p.services)[s].characteristics).Keys
    ensures var c := CatalogOf(Some(m), t.includes, UpperOf(m, t), LowerOf(t));
      CharacteristicsAt(c, s) == Some(Content(Content(p.services)[s].characteristics))
  {
    var c := CatalogOf(Some(m), t.includes, UpperOf(m, t), LowerOf(t));
    var e := Content(Content(p.services)[s].characteristics);
    forall h | h in e
      ensures h in c.characteristics[s] && Characteristic(c.characteristics[s][h], DescriptorsAt(c, h)) == e[h]
    {
      assert HasCharacteristic(p, s, h);
      CopiedDescriptors(m, p, t, s, h);
    }
    CharacteristicsFrom(c, s, e);
  }

  lemma CopiedService(m: map<nat, ServiceNode>, p: Profile, t: Leaves, s: nat)
    requires Cloned(m, p) && Rooted(t, m.Keys) && Linked(m, t) && s in m
    ensures var c := CatalogOf(Some(m), t.includes, UpperOf(m, t), LowerOf(t));
      Service(c.services.value[s], s in c.includesKnown, CharacteristicsAt(c, s)) == Content(p.services)[s]
  {
    assert ServiceCloned(m[s], Content(p.services)[s]);
    if m[s].characteristics.Some? {
      CopiedCharacteristics(m, p, t, s);
    }
  }

  lemma TreeFrom(c: Catalog, p: Profile)
    requires c.services.Some? && p.services.Some? && c.services.value.Keys == p.services.value.Keys
    requires forall s :: s in c.services.value ==>
      Service(c.services.value[s], s in c.includesKnown, CharacteristicsAt(c, s)) == p.services.value[s]
    ensures Tree(c) == p
  {
    assert Tree(c).services.value == p.services.value;
  }

  lemma CopiedTree(m: map<nat, ServiceNode>, p: Profile, t: Leaves)
    requires p.services.Some? && Cloned(m, p) && Rooted(t, m.Keys) && Linked(m, t)
    ensures Tree(CatalogOf(Some(m), t.includes, UpperOf(m, t), LowerOf(t))) == p
  {
    var c := CatalogOf(Some(m), t.includes, UpperOf(m, t), LowerOf(t));
    forall s | s in m
      ensures Service(c.services.value[s], s in c.includesKnown, CharacteristicsAt(c, s)) == p.services.value[s]
    {
      CopiedService(m, p, t, s);
    }
    TreeFrom(c, p);
  }

  /** `cloneProfile`: new nodes, linked to their parents, that stand for the profile as it is copied. */
  method CloneProfile(p: Profile) returns (m: map<nat, ServiceNode>)
    requires p.services.Some?
    ensures Cloned(m, Refiled(p)) && forall s :: s in m ==> fresh(m[s])
    ensures forall s, h :: s in m && h in Content(m[s].characteristics) ==> fresh(Content(m[s].characteristics)[h])
  {
    m := CloneServices(p.services.value);
  }
}
