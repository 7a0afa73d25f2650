/**
  The flat index by handle over a copied profile: all nodes of the tree, of those with the same handle the
  one that comes last.
 */
module GattIndex {
  import opened GattClone
  import opened GattFiling
  import opened GattLinks
  import opened GattNodes
  import opened GattProfile

  // ---------------------------------------------------------------- records put together

  /** The records of a map in order of key, a later entry in the place of an earlier one with its handle. */
  ghost function Together<T>(parts: map<nat, map<nat, T>>): map<nat, T> {
    SortedIsAscending(parts.Keys);
    TogetherUpTo(parts, Sorted(parts.Keys))
  }

  ghost function TogetherUpTo<T>(parts: map<nat, map<nat, T>>, keys: seq<nat>): map<nat, T> {
    if keys == [] then map[]
    else TogetherUpTo(parts, keys[..|keys| - 1]) + At(parts, keys[|keys| - 1])
  }

  ghost function At<T>(parts: map<nat, map<nat, T>>, k: nat): map<nat, T> {
    if k in parts then parts[k] else map[]
  }

  function Members(keys: seq<nat>): set<nat> {
    set k | k in keys
  }

  lemma TogetherNext<T>(parts: map<nat, map<nat, T>>, keys: seq<nat>, i: nat)
    requires i < |keys| && keys[i] in parts
    ensures TogetherUpTo(parts, keys[..i + 1]) == TogetherUpTo(parts, keys[..i]) + parts[keys[i]]
  {
    assert keys[..i + 1][..i] == keys[..i];
  }

  lemma TogetherIs<T>(parts: map<nat, map<nat, T>>, keys: seq<nat>)
    requires keys == Sorted(parts.Keys)
    ensures TogetherUpTo(parts, keys[..0]) == map[] && TogetherUpTo(parts, keys[..|keys|]) == Together(parts)
  {
    assert keys[..|keys|] == keys;
  }

  lemma {:induction false} TogetherFrom<T>(parts: map<nat, map<nat, T>>, keys: seq<nat>, h: nat)
    requires h in TogetherUpTo(parts, keys)
    ensures exists k :: k in parts && h in parts[k] && parts[k][h] == TogetherUpTo(parts, keys)[h]
  {
    var k := keys[|keys| - 1];
    if h in At(parts, k) {
      assert k in parts && h in parts[k];
    } else {
      TogetherFrom(parts, keys[..|keys| - 1], h);
    }
  }

  /** Of the records that have a handle, the one under the largest key gives its entry. */
  lemma TogetherLast<T>(parts: map<nat, map<nat, T>>, h: nat, k: nat)
    requires k in parts && h in parts[k] && forall k' :: k' in parts && k' > k ==> h !in parts[k']
    ensures h in Together(parts) && Together(parts)[h] == parts[k][h]
  {
    var keys := Sorted(parts.Keys);
    SortedIsAscending(parts.Keys);
    var i :| 0 <= i < |keys| && keys[i] == k;
    forall j | i < j < |keys| ensures h !in At(parts, keys[j]) {
      assert keys[j] > k;
    }
    TogetherFirst(parts, keys, h, i);
  }

  lemma {:induction false} TogetherFirst<T>(parts: map<nat, map<nat, T>>, keys: seq<nat>, h: nat, i: nat)
    requires i < |keys| && h in At(parts, keys[i]) && forall j :: i < j < |keys| ==> h !in At(parts, keys[j])
    ensures h in TogetherUpTo(parts, keys) && TogetherUpTo(parts, keys)[h] == At(parts, keys[i])[h]
    decreases |keys|
  {
    if i < |keys| - 1 {
      TogetherFirst(parts, keys[..|keys| - 1], h, i);
    }
  }

  lemma {:induction false} TogetherUnder<T>(parts: map<nat, map<nat, T>>, keys: seq<nat>, index: map<nat, T>,
    parent: map<nat, nat>)
    requires parent.Keys == index.Keys
    requires forall i :: 0 <= i < |keys| ==> keys[i] in parts && parts[keys[i]] == Under(index, parent, {keys[i]})
    ensures TogetherUpTo(parts, keys) == Under(index, parent, Members(keys))
  {
    if keys == [] {
      UnderNone(index, parent);
    } else {
      hide Under;
      var (front, k) := (keys[..|keys| - 1], keys[|keys| - 1]);
      assert Members(keys) == Members(front) + {k};
      TogetherUnder(parts, front, index, parent);
      UnderMore(index, parent, Members(front), {k});
    }
  }

  /** When the records are the parts of an index by parent, they are the index together. */
  lemma TogetherAll<T>(parts: map<nat, map<nat, T>>, index: map<nat, T>, parent: map<nat, nat>)
    requires parent.Keys == index.Keys && forall h :: h in parent ==> parent[h] in parts
    requires forall k :: k in parts ==> parts[k] == Under(index, parent, {k})
    ensures Together(parts) == index
  {
    var keys := Sorted(parts.Keys);
    SortedIsAscending(parts.Keys);
    forall i | 0 <= i < |keys|
      ensures keys[i] in parts
    {
      assert keys[i] in keys;
    }
    TogetherUnder(parts, keys, index, parent);
    UnderAll(index, parent, Members(keys));
  }

  ghost function CharacteristicParts(m: map<nat, ServiceNode>): map<nat, map<nat, CharacteristicNode>>
    reads m.Values
  {
    map s | s in m :: Content(m[s].characteristics)
  }

  ghost function DescriptorParts(record: map<nat, CharacteristicNode>): map<nat, map<nat, DescriptorNode>>
    reads record.Values
  {
    map h | h in record :: Content(record[h].descriptors)
  }

  /** The descriptors of each service. */
  ghost function LowerParts(m: map<nat, ServiceNode>): map<nat, map<nat, DescriptorNode>>
    reads m.Values, set n, c | n in m.Values && c in Content(n.characteristics).Values :: c
  {
    map s | s in m :: Together(DescriptorParts(Content(m[s].characteristics)))
  }

  // ---------------------------------------------------------------- nodes under their own handles

  ghost predicate BelowHandled(node: CharacteristicNode)
    reads node
  {
    forall d :: d in Content(node.descriptors) ==> Content(node.descriptors)[d].descriptor.handle == d
  }

  ghost predicate Handled(record: map<nat, CharacteristicNode>)
    reads record.Values
  {
    forall h :: h in record ==> record[h].characteristic.handle == h && BelowHandled(record[h])
  }

  ghost predicate AllHandled(m: map<nat, ServiceNode>)
    reads m.Values, set n, c | n in m.Values && c in Content(n.characteristics).Values :: c
  {
    forall s :: s in m ==> m[s].service.handle == s && Handled(Content(m[s].characteristics))
  }

  lemma ClonedHandled(m: map<nat, ServiceNode>, p: Profile)
    requires Cloned(m, p) && Ordered(p)
    ensures AllHandled(m)
  {
    OrderedIsOwn(p);
    forall s | s in m
      ensures m[s].service.handle == s && Handled(Content(m[s].characteristics))
    {
      assert ServiceCloned(m[s], Content(p.services)[s]);
      RecordHandled(m[s], Content(p.services)[s]);
    }
  }

  lemma RecordHandled(node: ServiceNode, e: Service)
    requires ServiceCloned(node, e) && OwnBelow(e)
    ensures Handled(Content(node.characteristics))
  {
    var record := Content(node.characteristics);
    forall h | h in record
      ensures record[h].characteristic.handle == h && BelowHandled(record[h])
    {
      var x := Content(e.characteristics)[h];
      assert CharacteristicCloned(record[h], x) && OwnDescriptors(x);
      forall d | d in Content(record[h].descriptors)
        ensures Content(record[h].descriptors)[d].descriptor.handle == d
      {
        assert DescriptorInfos(Content(record[h].descriptors))[d] == Content(x.descriptors)[d];
      }
    }
  }

  /** All that the index is filled with is the leaves. */
  lemma LeavesTogether(m: map<nat, ServiceNode>, t: Leaves)
    requires Rooted(t, m.Keys) && Linked(m, t)
    ensures Together(CharacteristicParts(m)) == t.characteristics
    ensures Together(LowerParts(m)) == t.descriptors
  {
    TogetherAll(CharacteristicParts(m), t.characteristics, t.owner);
    hide Under, Linked, DescriptorParts, Together;
    var top := map d | d in t.holder :: t.owner[t.holder[d]];
    forall s | s in m
      ensures LowerParts(m)[s] == Under(t.descriptors, top, {s})
    {
      LowerPart(m, t, top, s);
    }
    TogetherAll(LowerParts(m), t.descriptors, top);
  }

  lemma LowerPart(m: map<nat, ServiceNode>, t: Leaves, top: map<nat, nat>, s: nat)
    requires Rooted(t, m.Keys) && Linked(m, t) && s in m
    requires top.Keys == t.descriptors.Keys && forall d :: d in top ==> top[d] == t.owner[t.holder[d]]
    ensures Together(DescriptorParts(Content(m[s].characteristics))) == Under(t.descriptors, top, {s})
  {
    var record := Content(m[s].characteristics);
    assert record == Under(t.characteristics, t.owner, {s});
    UnderTop(t, top, s);
    RecordTogether(record, t.descriptors, t.holder);
  }

  lemma UnderTop(t: Leaves, top: map<nat, nat>, s: nat)
    requires t.owner.Keys == t.characteristics.Keys && t.holder.Keys == t.descriptors.Keys == top.Keys
    requires forall d :: d in top ==> t.holder[d] in t.owner && top[d] == t.owner[t.holder[d]]
    ensures Under(t.descriptors, t.holder, Under(t.characteristics, t.owner, {s}).Keys)
      == Under(t.descriptors, top, {s})
  {
  }

  lemma RecordTogether(record: map<nat, CharacteristicNode>, index: map<nat, DescriptorNode>, holder: map<nat, nat>)
    requires holder.Keys == index.Keys && forall h :: h in record ==>
      Content(record[h].descriptors) == Under(index, holder, {h})
    ensures Together(DescriptorParts(record)) == Under(index, holder, record.Keys)
  {
    var parts := DescriptorParts(record);
    var keys := Sorted(parts.Keys);
    SortedIsAscending(parts.Keys);
    forall i | 0 <= i < |keys|
      ensures keys[i] in parts && parts[keys[i]] == Under(index, holder, {keys[i]})
    {
      assert keys[i] in keys && keys[i] in record;
    }
    TogetherUnder(parts, keys, index, holder);
    assert Members(keys) == record.Keys;
  }

  ghost predicate HeldIn(node: ServiceNode, h: nat, c: CharacteristicNode)
    reads node
  {
    h in Content(node.characteristics) && Content(node.characteristics)[h] == c
  }

  /** The index has no characteristics but those of the services. */
  lemma AllFrom(m: map<nat, ServiceNode>)
    ensures forall h :: h in Together(CharacteristicParts(m)) ==>
      exists s :: s in m && HeldIn(m[s], h, Together(CharacteristicParts(m))[h])
  {
    var parts := CharacteristicParts(m);
    forall h | h in Together(parts)
      ensures exists s :: s in m && HeldIn(m[s], h, Together(parts)[h])
    {
      TogetherFrom(parts, Sorted(parts.Keys), h);
      var s :| s in parts && h in parts[s] && parts[s][h] == Together(parts)[h];
      assert h in Content(m[s].characteristics);
    }
  }

  // ---------------------------------------------------------------- copies that stay as they are

  twostate lemma CharacteristicKept(c: CharacteristicNode, new e: Characteristic)
    requires old(CharacteristicCloned(c, e)) && unchanged(c) && unchanged(Content(c.descriptors).Values)
    ensures CharacteristicCloned(c, e)
  {
  }

  twostate lemma ServiceKept(n: ServiceNode, new e: Service)
    requires old(ServiceCloned(n, e)) && unchanged(n) && unchanged(Content(n.characteristics).Values)
    requires forall c :: c in Content(n.characteristics).Values ==> unchanged(Content(c.descriptors).Values)
    ensures ServiceCloned(n, e)
    ensures DescriptorParts(Content(n.characteristics)) == old(DescriptorParts(Content(n.characteristics)))
  {
    hide CharacteristicCloned;
    forall h | h in Content(n.characteristics)
      ensures CharacteristicCloned(Content(n.characteristics)[h], Content(e.characteristics)[h])
    {
      CharacteristicKept(Content(n.characteristics)[h], Content(e.characteristics)[h]);
    }
  }

  /** A copy whose nodes have not changed is still a copy. */
  twostate lemma CopyKept(m: map<nat, ServiceNode>, new p: Profile)
    requires old(Cloned(m, p)) && unchanged(m.Values)
    requires forall n :: n in m.Values ==> unchanged(Content(n.characteristics).Values)
    requires forall n, c :: n in m.Values && c in Content(n.characteristics).Values ==>
      unchanged(Content(c.descriptors).Values)
    ensures Cloned(m, p) && CharacteristicParts(m) == old(CharacteristicParts(m)) && LowerParts(m) == old(LowerParts(m))
  {
    hide ServiceCloned, DescriptorParts, Together;
    forall s | s in m
      ensures ServiceCloned(m[s], Content(p.services)[s])
      ensures DescriptorParts(Content(m[s].characteristics)) == old(DescriptorParts(Content(m[s].characteristics)))
    {
      ServiceKept(m[s], Content(p.services)[s]);
    }
  }

  // ---------------------------------------------------------------- the index

  datatype FlatProfile = FlatProfile(
    services: map<nat, ServiceNode>, characteristics: map<nat, CharacteristicNode>,
    descriptors: map<nat, DescriptorNode>)

  /** The entries of a record under some keys. */
  ghost function UpTo<T>(record: map<nat, T>, keys: seq<nat>): map<nat, T> {
    map k | k in record && k in keys :: record[k]
  }

  lemma UpToNext<T>(record: map<nat, T>, keys: seq<nat>, i: nat)
    requires i < |keys| && keys[i] in record
    ensures UpTo(record, keys[..i + 1]) == UpTo(record, keys[..i])[keys[i] := record[keys[i]]]
  {
    assert keys[..i + 1] == keys[..i] + [keys[i]];
  }

  lemma UpToAll<T>(record: map<nat, T>, keys: seq<nat>)
    requires keys == Sorted(record.Keys)
    ensures UpTo(record, keys[..0]) == map[] && UpTo(record, keys[..|keys|]) == record
  {
    SortedIsAscending(record.Keys);
    assert keys[..|keys|] == keys;
  }

  /** `fillDescriptor` for each entry of a record. */
  method FillDescriptors(record: map<nat, DescriptorNode>, descriptors: map<nat, DescriptorNode>)
    returns (r: map<nat, DescriptorNode>)
    requires forall d :: d in record ==> record[d].descriptor.handle == d
    ensures r == descriptors + record
  {
    hide UpTo;
    r := descriptors;
    var keys := KeysOf(record.Keys);
    UpToAll(record, keys);
    PlusNone(descriptors);
    for i := 0 to |keys|
      invariant r == descriptors + UpTo(record, keys[..i])
    {
      assert keys[i] in keys;
      UpToNext(record, keys, i);
      PlusUpdate(descriptors, UpTo(record, keys[..i]), keys[i], record[keys[i]]);
      r := r[record[keys[i]].descriptor.handle := record[keys[i]]];
    }
  }

  method FillCharacteristic(node: CharacteristicNode, fp: FlatProfile) returns (r: FlatProfile)
    requires BelowHandled(node)
    ensures r == FlatProfile(
      fp.services, fp.characteristics[node.characteristic.handle := node], fp.descriptors + Content(node.descriptors))
  {
    r := fp.(characteristics := fp.characteristics[node.characteristic.handle := node]);
    if node.descriptors.Some? {
      assert Content(node.descriptors) == node.descriptors.value;
      var descriptors := FillDescriptors(node.descriptors.value, fp.descriptors);
      r := r.(descriptors := descriptors);
    }
  }

  /** `parts` are the records of a record's nodes. */
  ghost predicate Parted(record: map<nat, CharacteristicNode>, parts: map<nat, map<nat, DescriptorNode>>)
    reads record.Values
  {
    parts.Keys == record.Keys && forall h :: h in record ==> parts[h] == Content(record[h].descriptors)
  }

  method FillRecord(record: map<nat, CharacteristicNode>, fp: FlatProfile,
    ghost parts: map<nat, map<nat, DescriptorNode>>)
    returns (r: FlatProfile)
    requires Handled(record) && Parted(record, parts)
    ensures r == FlatProfile(fp.services, fp.characteristics + record, fp.descriptors + Together(parts))
  {
    hide TogetherUpTo, Together, BelowHandled, UpTo;
    r := fp;
    var keys := KeysOf(record.Keys);
    TogetherIs(parts, keys);
    UpToAll(record, keys);
    PlusNone(fp.characteristics);
    PlusNone(fp.descriptors);
    for i := 0 to |keys|
      invariant r.services == fp.services && r.characteristics == fp.characteristics + UpTo(record, keys[..i])
      invariant r.descriptors == fp.descriptors + TogetherUpTo(parts, keys[..i])
    {
      assert keys[i] in keys;
      UpToNext(record, keys, i);
      PlusUpdate(fp.characteristics, UpTo(record, keys[..i]), keys[i], record[keys[i]]);
      TogetherNext(parts, keys, i);
      PlusPlus(fp.descriptors, TogetherUpTo(parts, keys[..i]), parts[keys[i]]);
      r := FillCharacteristic(record[keys[i]], r);
    }
  }

  method FillService(node: ServiceNode, fp: FlatProfile) returns (r: FlatProfile)
    requires Handled(Content(node.characteristics))
    ensures r == FlatProfile(
      fp.services[node.service.handle := node], fp.characteristics + old(Content(node.characteristics)),
      fp.descriptors + old(Together(DescriptorParts(Content(node.characteristics)))))
  {
    r := fp.(services := fp.services[node.service.handle := node]);
    if node.characteristics.Some? {
      r := FillRecord(node.characteristics.value, r, DescriptorParts(node.characteristics.value));
    } else {
      assert Together(DescriptorParts(map[])) == map[];
    }
  }

  twostate lemma RecordKept(n: ServiceNode)
    requires unchanged(n) && unchanged(Content(n.characteristics).Values)
    ensures Handled(Content(n.characteristics)) == old(Handled(Content(n.characteristics)))
    ensures DescriptorParts(Content(n.characteristics)) == old(DescriptorParts(Content(n.characteristics)))
  {
  }

  lemma PartsOfEach(m: map<nat, ServiceNode>)
    ensures CharacteristicParts(m).Keys == LowerParts(m).Keys == m.Keys
    ensures forall s :: s in m ==>
      && CharacteristicParts(m)[s] == Content(m[s].characteristics)
      && LowerParts(m)[s] == Together(DescriptorParts(Content(m[s].characteristics)))
  {
  }

  /** `fillFlatProfile`, starting from nothing. */
  method FillFlatProfile(m: map<nat, ServiceNode>) returns (r: FlatProfile)
    requires AllHandled(m)
    ensures r == old(FlatProfile(m, Together(CharacteristicParts(m)), Together(LowerParts(m))))
  {
    r := FlatProfile(map[], map[], map[]);
    ghost var (upper, lower) := (CharacteristicParts(m), LowerParts(m));
    PartsOfEach(m);
    hide CharacteristicParts, LowerParts, DescriptorParts, Handled, Together, TogetherUpTo, UpTo;
    var keys := KeysOf(m.Keys);
    TogetherIs(upper, keys);
    TogetherIs(lower, keys);
    UpToAll(m, keys);
    for i := 0 to |keys|
      invariant r.services == UpTo(m, keys[..i])
      invariant r.characteristics == TogetherUpTo(upper, keys[..i]) && r.descriptors == TogetherUpTo(lower, keys[..i])
    {
      assert keys[i] in keys;
      UpToNext(m, keys, i);
      TogetherNext(upper, keys, i);
      TogetherNext(lower, keys, i);
      RecordKept(m[keys[i]]);
      r := FillService(m[keys[i]], r);
    }
  }

  method CloneAndFill(p: Profile, ghost q: Profile) returns (r: FlatProfile)
    requires p.services.Some? && q == Refiled(p)
    ensures Cloned(r.services, q) && q.services.Some?
    ensures r.characteristics == Together(CharacteristicParts(r.services)) &&
      r.descriptors == Together(LowerParts(r.services))
    ensures fresh(r.services.Values) && fresh(r.characteristics.Values)
  {
    RefiledIsOrdered(p);
    assert q.services.Some?;
    var m := CloneProfile(p);
    hide Refiled, Together;
    ClonedHandled(m, q);
    AllFrom(m);
    label Copied:
    r := FillFlatProfile(m);
    hide Cloned, AllHandled, CharacteristicParts, LowerParts;
    CopyKept@Copied(m, q);
  }
}
