/**
  What `cloneProfile` makes of a profile as a value: every record goes under the handle it names, whatever
  key it came with, and of two with the same handle the one with the larger key stays.
 */
module GattFiling {
  import opened Bytes
  import opened GattLinks
  import opened GattProfile

  /** Entries filed by handle, a later one in the place of an earlier one. */
  function Filed<T>(entries: seq<(nat, T)>): map<nat, T> {
    if entries == [] then map[]
    else
      var e := entries[|entries| - 1];
      Filed(entries[..|entries| - 1])[e.0 := e.1]
  }

  lemma FiledNext<T>(entries: seq<(nat, T)>, i: nat)
    requires i < |entries|
    ensures Filed(entries[..i + 1]) == Filed(entries[..i])[entries[i].0 := entries[i].1]
  {
    assert entries[..i + 1][..i] == entries[..i];
  }

  lemma {:induction false} FiledFrom<T>(entries: seq<(nat, T)>, h: nat)
    requires h in Filed(entries)
    ensures (h, Filed(entries)[h]) in entries
  {
    var (front, e) := (entries[..|entries| - 1], entries[|entries| - 1]);
    assert e in entries;
    if h != e.0 {
      FiledFrom(front, h);
    }
  }

  /** Entries that are a record's, under its keys, are filed as that record. */
  lemma FiledSame<T>(entries: seq<(nat, T)>, record: map<nat, T>)
    requires |entries| == |Sorted(record.Keys)|
    requires forall i :: 0 <= i < |entries| ==>
      var k := Sorted(record.Keys)[i]; k in record && entries[i] == (k, record[k])
    ensures Filed(entries) == record
  {
    var keys := Sorted(record.Keys);
    SortedIsAscending(record.Keys);
    FiledUpTo(entries, keys, record, |keys|);
    assert entries[..|keys|] == entries;
    forall k | k in record
      ensures k in Filed(entries)
    {
      var i :| 0 <= i < |keys| && keys[i] == k;
    }
  }

  lemma {:induction false} FiledUpTo<T>(entries: seq<(nat, T)>, keys: seq<nat>, record: map<nat, T>, n: nat)
    requires n <= |entries| == |keys|
    requires forall i :: 0 <= i < |keys| ==> keys[i] in record && entries[i] == (keys[i], record[keys[i]])
    ensures forall i :: 0 <= i < n ==> keys[i] in Filed(entries[..n])
    ensures forall k :: k in Filed(entries[..n]) ==> k in record && Filed(entries[..n])[k] == record[k]
  {
    if n > 0 {
      FiledUpTo(entries, keys, record, n - 1);
      FiledNext(entries, n - 1);
    }
  }

  function DescriptorEntries(record: map<nat, DescriptorInfo>): (r: seq<(nat, DescriptorInfo)>)
    ensures |r| == |Sorted(record.Keys)|
  {
    SortedIsAscending(record.Keys);
    var keys := Sorted(record.Keys);
    seq(|keys|, i requires 0 <= i < |keys| => assert keys[i] in keys; (record[keys[i]].handle, record[keys[i]]))
  }

  function CharacteristicEntries(record: map<nat, Characteristic>): (r: seq<(nat, Characteristic)>)
    ensures |r| == |Sorted(record.Keys)|
  {
    SortedIsAscending(record.Keys);
    var keys := Sorted(record.Keys);
    seq(|keys|, i requires 0 <= i < |keys| =>
      assert keys[i] in keys;
      (record[keys[i]].characteristic.handle, RefiledCharacteristic(record[keys[i]])))
  }

  function ServiceEntries(record: map<nat, Service>): (r: seq<(nat, Service)>)
    ensures |r| == |Sorted(record.Keys)|
  {
    SortedIsAscending(record.Keys);
    var keys := Sorted(record.Keys);
    seq(|keys|, i requires 0 <= i < |keys| =>
      assert keys[i] in keys;
      (record[keys[i]].service.handle, RefiledService(record[keys[i]])))
  }

  function RefiledCharacteristic(e: Characteristic): Characteristic {
    Characteristic(e.characteristic,
      if e.descriptors.None? then None else Some(Filed(DescriptorEntries(e.descriptors.value))))
  }

  function RefiledService(e: Service): Service {
    Service(e.service, e.includesKnown,
      if e.characteristics.None? then None else Some(Filed(CharacteristicEntries(e.characteristics.value))))
  }

  /** A profile as it is copied, whatever keys it came with. */
  function Refiled(p: Profile): Profile {
    Profile(if p.services.None? then None else Some(Filed(ServiceEntries(p.services.value))))
  }

  predicate OwnDescriptors(e: Characteristic) {
    forall d :: d in Content(e.descriptors) ==> Content(e.descriptors)[d].handle == d
  }

  /** Every record below the service is kept under its own handle. */
  predicate OwnBelow(e: Service) {
    forall h :: h in Content(e.characteristics) ==>
      Content(e.characteristics)[h].characteristic.handle == h && OwnDescriptors(Content(e.characteristics)[h])
  }

  predicate Own(record: map<nat, Service>) {
    forall s :: s in record ==> record[s].service.handle == s && OwnBelow(record[s])
  }

  lemma OrderedIsOwn(p: Profile)
    requires Ordered(p)
    ensures Own(Content(p.services))
  {
    forall s | s in Content(p.services)
      ensures Content(p.services)[s].service.handle == s && OwnBelow(Content(p.services)[s])
    {
      assert HasService(p, s);
      OrderedBelow(p, s);
    }
  }

  lemma OwnIsOrdered(p: Profile)
    requires Own(Content(p.services))
    ensures Ordered(p)
  {
    forall s, c | HasCharacteristic(p, s, c)
      ensures CharacteristicAt(p, s, c).characteristic.handle == c && OwnDescriptors(CharacteristicAt(p, s, c))
    {
      assert c in Content(Content(p.services)[s].characteristics);
    }
    forall s, c, d | HasDescriptor(p, s, c, d)
      ensures CharacteristicAt(p, s, c).descriptors.value[d].handle == d
    {
      assert d in Content(CharacteristicAt(p, s, c).descriptors);
    }
  }

  lemma OrderedBelow(p: Profile, s: nat)
    requires Ordered(p) && HasService(p, s)
    ensures OwnBelow(p.services.value[s])
  {
    var e := p.services.value[s];
    forall h | h in Content(e.characteristics)
      ensures Content(e.characteristics)[h].characteristic.handle == h && OwnDescriptors(Content(e.characteristics)[h])
    {
      assert HasCharacteristic(p, s, h);
      assert forall d :: d in Content(CharacteristicAt(p, s, h).descriptors) ==> HasDescriptor(p, s, h, d);
    }
  }

  // What is copied is kept under its own handles.

  lemma RefiledDescriptors(e: Characteristic)
    ensures OwnDescriptors(RefiledCharacteristic(e))
  {
    var r := Content(RefiledCharacteristic(e).descriptors);
    forall d | d in r
      ensures r[d].handle == d
    {
      FiledFrom(DescriptorEntries(e.descriptors.value), d);
    }
  }

  lemma CharacteristicFiled(record: map<nat, Characteristic>, h: nat)
    requires h in Filed(CharacteristicEntries(record))
    ensures Filed(CharacteristicEntries(record))[h].characteristic.handle == h
    ensures OwnDescriptors(Filed(CharacteristicEntries(record))[h])
  {
    var entries, keys := CharacteristicEntries(record), Sorted(record.Keys);
    FiledFrom(entries, h);
    SortedIsAscending(record.Keys);
    var i :| 0 <= i < |entries| && entries[i] == (h, Filed(entries)[h]);
    assert keys[i] in keys;
    RefiledDescriptors(record[keys[i]]);
  }

  lemma ServiceFiled(record: map<nat, Service>, s: nat)
    requires s in Filed(ServiceEntries(record))
    ensures Filed(ServiceEntries(record))[s].service.handle == s && OwnBelow(Filed(ServiceEntries(record))[s])
  {
    var entries, keys := ServiceEntries(record), Sorted(record.Keys);
    FiledFrom(entries, s);
    SortedIsAscending(record.Keys);
    var i :| 0 <= i < |entries| && entries[i] == (s, Filed(entries)[s]);
    assert keys[i] in keys;
    var e := record[keys[i]];
    var below := Content(RefiledService(e).characteristics);
    forall h | h in below
      ensures below[h].characteristic.handle == h && OwnDescriptors(below[h])
    {
      CharacteristicFiled(e.characteristics.value, h);
    }
  }

  /** A copy has every record under its own handle. */
  lemma RefiledIsOrdered(p: Profile)
    ensures Ordered(Refiled(p))
  {
    forall s | s in Content(Refiled(p).services)
      ensures Content(Refiled(p).services)[s].service.handle == s && OwnBelow(Content(Refiled(p).services)[s])
    {
      ServiceFiled(p.services.value, s);
    }
    OwnIsOrdered(Refiled(p));
  }

  // A profile that has them so already is copied as it is.

  lemma SameDescriptorsFiled(e: Characteristic)
    requires OwnDescriptors(e)
    ensures RefiledCharacteristic(e) == e
  {
    if e.descriptors.Some? {
      SortedIsAscending(e.descriptors.value.Keys);
      forall i | 0 <= i < |Sorted(e.descriptors.value.Keys)|
        ensures Sorted(e.descriptors.value.Keys)[i] in Content(e.descriptors)
      {
        assert Sorted(e.descriptors.value.Keys)[i] in Sorted(e.descriptors.value.Keys);
      }
      FiledSame(DescriptorEntries(e.descriptors.value), e.descriptors.value);
    }
  }

  lemma SameCharacteristicsFiled(e: Service)
    requires OwnBelow(e)
    ensures RefiledService(e) == e
  {
    if e.characteristics.Some? {
      var record := e.characteristics.value;
      var keys := Sorted(record.Keys);
      SortedIsAscending(record.Keys);
      forall i | 0 <= i < |keys|
        ensures keys[i] in record && CharacteristicEntries(record)[i] == (keys[i], record[keys[i]])
      {
        assert keys[i] in keys && keys[i] in Content(e.characteristics);
        SameDescriptorsFiled(record[keys[i]]);
      }
      FiledSame(CharacteristicEntries(record), record);
    }
  }

  lemma RefiledSame(p: Profile)
    requires Ordered(p)
    ensures Refiled(p) == p
  {
    OrderedIsOwn(p);
    if p.services.Some? {
      var record := p.services.value;
      var keys := Sorted(record.Keys);
      SortedIsAscending(record.Keys);
      forall i | 0 <= i < |keys|
        ensures keys[i] in record && ServiceEntries(record)[i] == (keys[i], record[keys[i]])
      {
        assert keys[i] in keys && keys[i] in Content(p.services);
        SameCharacteristicsFiled(record[keys[i]]);
      }
      FiledSame(ServiceEntries(record), record);
    }
  }

  // Of two records with the same handle the one with the larger key is copied.

  function FirstOf<T>(entry: (nat, T)): nat {
    entry.0
  }

  lemma {:induction false} LastFiled<T>(entries: seq<(nat, T)>, h: nat, i: nat)
    ensures LastAt(entries, FirstOf, h, i) ==> h in Filed(entries) && Filed(entries)[h] == entries[i].1
    ensures Absent(entries, FirstOf, h) ==> h !in Filed(entries)
  {
    if entries != [] {
      LastFiled(entries[..|entries| - 1], h, i);
    }
  }

  /** No record under a larger key than `k` has the handle of the one under `k`. */
  predicate Kept<T(!new)>(record: map<nat, T>, handle: T -> nat, k: nat) {
    k in record && forall k' :: k' in record && k' > k ==> handle(record[k']) != handle(record[k])
  }

  function HandleOf(e: Characteristic): nat {
    e.characteristic.handle
  }

  function HandleOfService(e: Service): nat {
    e.service.handle
  }

  /** Where a kept record is among the entries, which are in order of key. */
  lemma PlaceOf<T(!new), U>(record: map<nat, T>, handle: T -> nat, entries: seq<(nat, U)>, k: nat) returns (i: nat)
    requires Kept(record, handle, k) && |entries| == |Sorted(record.Keys)|
    requires forall i :: 0 <= i < |entries| ==>
      Sorted(record.Keys)[i] in record && entries[i].0 == handle(record[Sorted(record.Keys)[i]])
    ensures LastAt(entries, FirstOf, handle(record[k]), i) && Sorted(record.Keys)[i] == k
  {
    var keys := Sorted(record.Keys);
    SortedIsAscending(record.Keys);
    i :| 0 <= i < |keys| && keys[i] == k;
    forall j | i < j < |entries|
      ensures FirstOf(entries[j]) != handle(record[k])
    {
      assert keys[j] in record && keys[j] > k;
    }
  }

  lemma KeysThere<T>(record: map<nat, T>)
    ensures forall i :: 0 <= i < |Sorted(record.Keys)| ==> Sorted(record.Keys)[i] in record
  {
    SortedIsAscending(record.Keys);
    forall i | 0 <= i < |Sorted(record.Keys)| ensures Sorted(record.Keys)[i] in record {
      assert Sorted(record.Keys)[i] in Sorted(record.Keys);
    }
  }

  /** A kept service is in the copy under its handle, with its own fields; nothing is there without a service. */
  lemma ServiceIsCopied(p: Profile, k: nat)
    requires Kept(Content(p.services), HandleOfService, k)
    ensures var (e, r) := (p.services.value[k], Refiled(p));
      && HasService(r, e.service.handle)
      && var copy := r.services.value[e.service.handle];
      && copy == RefiledService(e)
      && copy.service == e.service && copy.includesKnown == e.includesKnown
      && (copy.characteristics.Some? <==> e.characteristics.Some?)
  {
    var record := p.services.value;
    KeysThere(record);
    var i := PlaceOf(record, HandleOfService, ServiceEntries(record), k);
    LastFiled(ServiceEntries(record), record[k].service.handle, i);
  }

  /** The same of a service's characteristics. */
  lemma CharacteristicIsCopied(e: Service, k: nat)
    requires Kept(Content(e.characteristics), HandleOf, k)
    ensures var (x, r) := (e.characteristics.value[k], Content(RefiledService(e).characteristics));
      && x.characteristic.handle in r
      && var copy := r[x.characteristic.handle];
      && copy == RefiledCharacteristic(x)
      && copy.characteristic == x.characteristic && (copy.descriptors.Some? <==> x.descriptors.Some?)
  {
    var record := e.characteristics.value;
    KeysThere(record);
    var i := PlaceOf(record, HandleOf, CharacteristicEntries(record), k);
    LastFiled(CharacteristicEntries(record), record[k].characteristic.handle, i);
  }

  /** And of a characteristic's descriptors. */
  lemma DescriptorIsCopied(x: Characteristic, k: nat)
    requires Kept(Content(x.descriptors), DescriptorHandle, k)
    ensures var (d, r) := (x.descriptors.value[k], Content(RefiledCharacteristic(x).descriptors));
      d.handle in r && r[d.handle] == d
  {
    var record := x.descriptors.value;
    KeysThere(record);
    var i := PlaceOf(record, DescriptorHandle, DescriptorEntries(record), k);
    LastFiled(DescriptorEntries(record), record[k].handle, i);
  }

  /** Nothing is in the copy that no record has the handle of. */
  lemma NothingIsAdded(p: Profile, e: Service, x: Characteristic, h: nat)
    ensures HasService(Refiled(p), h) ==>
      exists k :: k in Content(p.services) && p.services.value[k].service.handle == h
    ensures h in Content(RefiledService(e).characteristics) ==>
      exists k :: k in Content(e.characteristics) && e.characteristics.value[k].characteristic.handle == h
    ensures h in Content(RefiledCharacteristic(x).descriptors) ==>
      exists k :: k in Content(x.descriptors) && x.descriptors.value[k].handle == h
  {
    KeysThere(Content(p.services));
    KeysThere(Content(e.characteristics));
    KeysThere(Content(x.descriptors));
    if HasService(Refiled(p), h) {
      FiledFrom(ServiceEntries(p.services.value), h);
      var i :| 0 <= i < |ServiceEntries(p.services.value)| && ServiceEntries(p.services.value)[i].0 == h;
      assert Sorted(p.services.value.Keys)[i] in p.services.value;
    }
    if h in Content(RefiledService(e).characteristics) {
      FiledFrom(CharacteristicEntries(e.characteristics.value), h);
      var i :| 0 <= i < |CharacteristicEntries(e.characteristics.value)|
        && CharacteristicEntries(e.characteristics.value)[i].0 == h;
      assert Sorted(e.characteristics.value.Keys)[i] in e.characteristics.value;
    }
    if h in Content(RefiledCharacteristic(x).descriptors) {
      FiledFrom(DescriptorEntries(x.descriptors.value), h);
      var i :| 0 <= i < |DescriptorEntries(x.descriptors.value)| && DescriptorEntries(x.descriptors.value)[i].0 == h;
      assert Sorted(x.descriptors.value.Keys)[i] in x.descriptors.value;
    }
  }
}
