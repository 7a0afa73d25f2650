/**
  Which advertising data `AdvData.build` and `AdvData.parse` hand on unchanged.
 */
module AdvertisingRoundTrip {
  import opened Advertising
  import opened Buffers
  import opened Bytes

  // ----- what becomes of one property -----

  /** What a run of fields of one type makes of its property. */
  function AbsorbRow(t: byte, before: Option<Property>, row: seq<Field>): Change
    decreases |row|
  {
    if row == [] then Now(before) else
      match Absorb(t, row[0].data, before)
      case Thrown => Thrown
      case Now(p) => AbsorbRow(t, p, row[1..])
  }

  lemma WithItself(known: map<byte, Property>, t: byte)
    ensures With(known, t, At(known, t)) == known
  {
  }

  lemma WithAgain(known: map<byte, Property>, t: byte, p: Option<Property>, q: Option<Property>)
    ensures With(With(known, t, p), t, q) == With(known, t, q) && At(With(known, t, p), t) == p
  {
  }

  /** Fields of one type touch no other property. */
  lemma {:induction false} RowAbsorbed(ad: AdvData, t: byte, row: seq<Field>)
    requires t in ORDER && forall i :: 0 <= i < |row| ==> row[i].kind == t
    ensures AbsorbAll(ad, row) ==
      match AbsorbRow(t, At(ad.known, t), row)
      case Thrown => None
      case Now(p) => Some(AdvData(With(ad.known, t, p), ad.unparsed))
    decreases |row|
  {
    WithItself(ad.known, t);
    if row != [] {
      var change := Absorb(t, row[0].data, At(ad.known, t));
      if change.Now? {
        var next := Absorbed(ad, row[0]).value;
        RowAbsorbed(next, t, row[1..]);
        var last := AbsorbRow(t, change.property, row[1..]);
        WithAgain(ad.known, t, change.property, if last.Now? then last.property else None);
      }
    }
  }

  /** The property is built with every length in one byte and every number in its field. */
  predicate Fits(t: byte, p: Property) {
    match p
    case Uuids(list) => |list| * UuidSize(t) <= 254
    case Services(list) => forall i :: 0 <= i < |list| ==> |list[i].data| <= 252
    case Name(name) => |name| <= 254
    case Look(a) => AppearanceValue(a) < 0x1_0000
    case Maker(ident, data) => ident < 0x1_0000 && |data| <= 252
    case _ => true
  }

  lemma FitsExactly(t: byte, p: Property)
    requires Holds(t, p)
    ensures Fits(t, p) <==> FieldsOf(t, p).Some? && Short(FieldsOf(t, p).value)
    ensures FieldsOf(t, p).Some? ==> forall i :: 0 <= i < |FieldsOf(t, p).value| ==> FieldsOf(t, p).value[i].kind == t
  {
    match p
    case Services(list) =>
      var fields := FieldsOf(t, p).value;
      assert forall i :: 0 <= i < |list| ==> |fields[i].data| == 2 + |list[i].data|;
    case Uuids(list) =>
      SlotsLength(list, UuidSize(t), |list|);
      assert |FieldsOf(t, p).value[0].data| == |list| * UuidSize(t);
    case _ =>
  }

  /** The values that parsing can give back: what `build` drops, narrows or rewrites is left out. */
  predicate Faithful(t: byte, p: Property) {
    match p
    case Flags(v) => 0 < v < 0x100
    case TxPower(v) => v != 0 && -0x80 <= v < 0x80
    case Uuids(list) => forall i :: 0 <= i < |list| ==> Canonical(list[i], UuidSize(t))
    case Name(name) => name != []
    case Services(list) => list != [] && forall i :: 0 <= i < |list| ==> FaithfulService(t, list[i])
    case Look(a) => a.subcategory < 64 && a.value == a.category * 64 + a.subcategory
    case Maker(_, _) => true
  }

  /** The 32- and 128-bit forms survive only with a 16-bit UUID and no data. */
  predicate FaithfulService(t: byte, s: ServiceData) {
    Canonical(s.uuid, 2) && (t == SERVICE_DATA_16 || s.data == [])
  }

  lemma ServiceReadBack(t: byte, s: ServiceData)
    requires IsServiceData(t)
    ensures ServiceOf(t, ServicePayload(t, s)) == s <==> FaithfulService(t, s)
  {
    var payload := ServicePayload(t, s);
    var n := Min(UuidSize(t), |payload|);
    UuidReadBack(payload[..n]);
    if FaithfulService(t, s) {
      UuidRestored(s.uuid, 2);
      assert payload == UuidBytes(s.uuid) + s.data;
      assert payload[..2] == UuidBytes(s.uuid) && payload[2..] == s.data;
    }
  }

  lemma {:induction false} UuidTextsCanonical(data: seq<byte>, size: nat, n: nat)
    requires size > 0 && |data| == n * size
    ensures |UuidTexts(data, size)| == n
    ensures forall i :: 0 <= i < n ==> Canonical(UuidTexts(data, size)[i], size)
    decreases n
  {
    if n > 0 {
      assert n * size == size + (n - 1) * size;
      UuidReadBack(data[..size]);
      UuidTextsCanonical(data[size..], size, n - 1);
    }
  }

  function Packed(list: seq<string>): seq<byte> {
    if list == [] then [] else UuidBytes(list[0]) + Packed(list[1..])
  }

  lemma {:induction false} PackedReadBack(list: seq<string>, size: nat)
    requires size > 0 && forall i :: 0 <= i < |list| ==> Canonical(list[i], size)
    ensures UuidTexts(Packed(list), size) == list
  {
    if list != [] {
      UuidRestored(list[0], size);
      PackedReadBack(list[1..], size);
      var data := Packed(list);
      assert data[..size] == UuidBytes(list[0]) && data[size..] == Packed(list[1..]);
    }
  }

  lemma {:induction false} PackedPush(list: seq<string>, uuid: string)
    ensures Packed(list + [uuid]) == Packed(list) + UuidBytes(uuid)
  {
    if list == [] {
      assert Packed([uuid]) == UuidBytes(uuid) + Packed([]);
    } else {
      assert (list + [uuid])[1..] == list[1..] + [uuid];
      PackedPush(list[1..], uuid);
      Regroup(UuidBytes(list[0]), Packed(list[1..]), UuidBytes(uuid));
    }
  }

  lemma OverlayZeros(packed: seq<byte>, room: nat, source: seq<byte>)
    requires |source| <= room
    ensures Overlay(packed + Zeros(room), |packed|, source) == packed + source + Zeros(room - |source|)
  {
  }

  lemma {:induction false} SlotRoom(size: nat, i: nat, n: nat)
    requires i <= n
    ensures SlotAt(size, i) <= SlotAt(size, n)
    decreases n
  {
    if i < n {
      SlotRoom(size, i, n - 1);
    }
  }

  /** UUIDs of the right size fill the slots of the list exactly. */
  lemma {:induction false} SlotsPacked(list: seq<string>, size: nat, i: nat)
    requires i <= |list| && forall k :: 0 <= k < |list| ==> Canonical(list[k], size)
    ensures |Packed(list[..i])| == SlotAt(size, i) <= SlotAt(size, |list|)
    ensures Slots(list, size, i) == Packed(list[..i]) + Zeros(SlotAt(size, |list|) - SlotAt(size, i))
  {
    hide Overlay, UuidBytes, LowerHex, PairValues;
    SlotRoom(size, i, |list|);
    if i == 0 {
      assert [] + Zeros(SlotAt(size, |list|)) == Zeros(SlotAt(size, |list|));
    } else {
      SlotsPacked(list, size, i - 1);
      UuidRestored(list[i - 1], size);
      OverlayZeros(Packed(list[..i - 1]), SlotAt(size, |list|) - SlotAt(size, i - 1), UuidBytes(list[i - 1]));
      PackedPush(list[..i - 1], list[i - 1]);
      assert list[..i] == list[..i - 1] + [list[i - 1]];
    }
  }

  lemma UuidsReadBack(list: seq<string>, size: nat)
    requires size > 0
    ensures UuidTexts(Slots(list, size, |list|), size) == list <==>
      forall i :: 0 <= i < |list| ==> Canonical(list[i], size)
  {
    SlotsLength(list, size, |list|);
    UuidTextsCanonical(Slots(list, size, |list|), size, |list|);
    if forall i :: 0 <= i < |list| ==> Canonical(list[i], size) {
      SlotsPacked(list, size, |list|);
      assert list[..|list|] == list && Zeros(0) == [];
      assert Packed(list) + [] == Packed(list);
      PackedReadBack(list, size);
    }
  }

  lemma LookParts(a: Appearance, value: uint16)
    requires a.subcategory < 64 ==> value == a.category * 64 + a.subcategory
    ensures Appearance(value / 64, value % 64, value) == a <==> Faithful(APPEARANCE, Look(a))
  {
    if a.subcategory < 64 {
      assert value / 64 == a.category && value % 64 == a.subcategory;
    }
  }

  lemma LookReadBack(a: Appearance)
    requires AppearanceValue(a) < 0x1_0000
    ensures Absorb(APPEARANCE, Le16(AppearanceValue(a)), None) == Now(Some(Look(a))) <==> Faithful(APPEARANCE, Look(a))
  {
    var value := AppearanceValue(a);
    ReadWriteLe16(value, [], []);
    assert [] + Le16(value) + [] == Le16(value);
    if a.subcategory < 64 {
      SixBits(a.category, a.subcategory);
    }
    LookParts(a, value);
  }

  lemma SixBits(category: nat, subcategory: nat)
    requires subcategory < 64
    ensures Or(category * 64, subcategory) == category * 64 + subcategory
  {
    hide Or, TwoTo;
    PowersOfTwo();
    OrSwapped(category * 64, subcategory);
    OrAdds(subcategory, category, 6);
  }

  /** The service data that parsing gives back, entry by entry. */
  function ServicesBack(t: byte, list: seq<ServiceData>): (r: seq<ServiceData>)
    ensures |r| == |list|
    ensures forall i :: 0 <= i < |list| ==> r[i] == ServiceOf(t, ServicePayload(t, list[i]))
  {
    seq(|list|, i requires 0 <= i < |list| => ServiceOf(t, ServicePayload(t, list[i])))
  }

  lemma ServicesBackNext(t: byte, list: seq<ServiceData>)
    requires list != []
    ensures ServicesBack(t, list) == [ServiceOf(t, ServicePayload(t, list[0]))] + ServicesBack(t, list[1..])
    ensures ServiceFields(t, list) == [Field(t, ServicePayload(t, list[0]))] + ServiceFields(t, list[1..])
  {
    hide ServiceOf, ServicePayload;
  }

  lemma AbsorbService(t: byte, data: seq<byte>, before: Option<Property>)
    requires IsServiceData(t)
    ensures Absorb(t, data, before) == Now(Some(Services(ServicesOf(before) + [ServiceOf(t, data)])))
  {
  }

  lemma {:induction false} ServiceRow(t: byte, before: seq<ServiceData>, list: seq<ServiceData>)
    requires IsServiceData(t)
    ensures AbsorbRow(t, Some(Services(before)), ServiceFields(t, list))
      == Now(Some(Services(before + ServicesBack(t, list))))
    decreases |list|
  {
    if list == [] {
      assert before + [] == before;
    } else {
      var back := ServiceOf(t, ServicePayload(t, list[0]));
      ServicesBackNext(t, list);
      AbsorbService(t, ServicePayload(t, list[0]), Some(Services(before)));
      assert ServiceFields(t, list)[1..] == ServiceFields(t, list[1..]);
      ServiceRow(t, before + [back], list[1..]);
      Regroup(before, [back], ServicesBack(t, list[1..]));
    }
  }

  lemma ServicesReadBack(t: byte, list: seq<ServiceData>)
    requires IsServiceData(t)
    ensures AbsorbRow(t, None, ServiceFields(t, list)).Now?
    ensures AbsorbRow(t, None, ServiceFields(t, list)).property == Some(Services(list)) <==> Faithful(t, Services(list))
  {
    if list != [] {
      FirstService(t, list);
      SameServices(t, list);
    }
  }

  lemma FirstService(t: byte, list: seq<ServiceData>)
    requires IsServiceData(t) && list != []
    ensures AbsorbRow(t, None, ServiceFields(t, list)) == Now(Some(Services(ServicesBack(t, list))))
  {
    var back := ServiceOf(t, ServicePayload(t, list[0]));
    ServicesBackNext(t, list);
    AbsorbService(t, ServicePayload(t, list[0]), None);
    assert ServiceFields(t, list)[1..] == ServiceFields(t, list[1..]) && [] + [back] == [back];
    ServiceRow(t, [back], list[1..]);
  }

  lemma SameServices(t: byte, list: seq<ServiceData>)
    requires IsServiceData(t)
    ensures ServicesBack(t, list) == list <==> forall i :: 0 <= i < |list| ==> FaithfulService(t, list[i])
  {
    forall i | 0 <= i < |list| ensures ServicesBack(t, list)[i] == list[i] <==> FaithfulService(t, list[i]) {
      ServiceReadBack(t, list[i]);
    }
    assert ServicesBack(t, list) == list <==> forall i :: 0 <= i < |list| ==> ServicesBack(t, list)[i] == list[i];
  }

  lemma UuidListBack(t: byte, list: seq<string>, data: seq<byte>)
    requires IsUuidList(t) && (UuidTexts(data, UuidSize(t)) == list <==> Faithful(t, Uuids(list)))
    ensures Absorb(t, data, None) == Now(Some(Uuids(list))) <==> Faithful(t, Uuids(list))
  {
    UuidsAbsorbed(t, data);
  }

  lemma UuidsAbsorbed(t: byte, data: seq<byte>)
    requires IsUuidList(t)
    ensures Absorb(t, data, None) == Now(Some(Uuids(UuidTexts(data, UuidSize(t)))))
  {
    var texts := UuidTexts(data, UuidSize(t));
    assert [] + texts == texts;
  }

  lemma RowOfOne(t: byte, f: Field)
    ensures AbsorbRow(t, None, [f]) == Absorb(t, f.data, None)
  {
    assert [f][1..] == [];
  }

  /** Alone in its type, a property that can be built comes back as itself exactly when it is faithful. */
  lemma Survives(t: byte, p: Property)
    requires Holds(t, p) && FieldsOf(t, p).Some?
    ensures AbsorbRow(t, None, FieldsOf(t, p).value).Now?
    ensures AbsorbRow(t, None, FieldsOf(t, p).value).property == Some(p) <==> Faithful(t, p)
  {
    var row := FieldsOf(t, p).value;
    if |row| == 1 {
      RowOfOne(t, row[0]);
    }
    match p
    case Uuids(list) =>
      UuidsReadBack(list, UuidSize(t));
      UuidListBack(t, list, row[0].data);
    case Services(list) => ServicesReadBack(t, list);
    case Look(a) => LookReadBack(a);
    case Maker(ident, data) =>
      ReadWriteLe16(ident, [], data);
      assert [] + Le16(ident) + data == Le16(ident) + data;
    case _ =>
  }

  // ----- the whole object -----

  /** What parsing gives back for a type, when every field fits. */
  function Survivor(ad: AdvData, t: byte): Option<Property> {
    if t in ad.known && FieldsAt(ad, t).Some? && AbsorbRow(t, None, FieldsAt(ad, t).value).Now? then
      AbsorbRow(t, None, FieldsAt(ad, t).value).property
    else
      None
  }

  predicate Distinct(types: seq<byte>) {
    forall i, j :: 0 <= i < j < |types| ==> types[i] != types[j]
  }

  /** Properties of the given types as their own fields alone would leave them, the others as before. */
  ghost predicate Alone(known: map<byte, Property>, before: map<byte, Property>, ad: AdvData, types: seq<byte>) {
    forall t :: At(known, t) == (if t in types then Survivor(ad, t) else At(before, t))
  }

  lemma {:induction false} EachAlone(acc: AdvData, ad: AdvData, types: seq<byte>) returns (back: AdvData)
    requires Typed(ad) && FieldsFor(ad, types).Some? && Distinct(types)
    requires forall t :: t in types ==> t in ORDER && t !in acc.known
    ensures AbsorbAll(acc, FieldsFor(ad, types).value) == Some(back)
    ensures back.unparsed == acc.unparsed && Alone(back.known, acc.known, ad, types)
    decreases |types|
  {
    if types == [] {
      back := acc;
    } else {
      var t := types[0];
      var next := OneAlone(acc, ad, t);
      AbsorbAppend(acc, FieldsAt(ad, t).value, FieldsFor(ad, types[1..]).value);
      assert forall k :: k in types[1..] ==> k in types && k != t;
      assert forall k :: k in types[1..] ==> At(next.known, k) == None;
      back := EachAlone(next, ad, types[1..]);
      AloneNext(back.known, next.known, acc.known, ad, types);
    }
  }

  lemma AloneNext(last: map<byte, Property>, next: map<byte, Property>, first: map<byte, Property>, ad: AdvData,
    types: seq<byte>)
    requires types != [] && Distinct(types)
    requires Alone(next, first, ad, [types[0]]) && Alone(last, next, ad, types[1..])
    ensures Alone(last, first, ad, types)
  {
    forall t ensures At(last, t) == (if t in types then Survivor(ad, t) else At(first, t)) {
      assert t in types <==> t == types[0] || t in types[1..];
    }
  }

  lemma OneAlone(acc: AdvData, ad: AdvData, t: byte) returns (next: AdvData)
    requires Typed(ad) && FieldsAt(ad, t).Some? && t in ORDER && t !in acc.known
    ensures AbsorbAll(acc, FieldsAt(ad, t).value) == Some(next) && next.unparsed == acc.unparsed
    ensures Alone(next.known, acc.known, ad, [t])
  {
    var row := FieldsAt(ad, t).value;
    if t in ad.known {
      FitsExactly(t, ad.known[t]);
      Survives(t, ad.known[t]);
    }
    RowAbsorbed(acc, t, row);
    next := AdvData(With(acc.known, t, AbsorbRow(t, None, row).property), acc.unparsed);
  }

  predicate AllFit(ad: AdvData) {
    forall t :: t in ad.known ==> Fits(t, ad.known[t])
  }

  predicate AllFaithful(ad: AdvData) {
    ad.unparsed.None? && forall t :: t in ad.known ==> Faithful(t, ad.known[t])
  }

  /** `parse(build(ad))` is `ad`. */
  predicate RoundTrips(ad: AdvData) {
    Built(ad).Some? && Parsed(Built(ad).value) == Some(ad)
  }

  lemma {:induction false} AllFitFields(ad: AdvData, types: seq<byte>)
    requires Typed(ad) && AllFit(ad)
    ensures FieldsFor(ad, types).Some? && Short(FieldsFor(ad, types).value)
  {
    if types != [] {
      var t := types[0];
      if t in ad.known {
        FitsExactly(t, ad.known[t]);
      }
      AllFitFields(ad, types[1..]);
    }
  }

  lemma OrderIsDistinct()
    ensures Distinct(ORDER)
  {
  }

  /** What parsing makes of built data whose fields all fit. */
  lemma ParsedBuilt(ad: AdvData) returns (back: AdvData)
    requires Typed(ad) && AllFit(ad)
    ensures Built(ad).Some? && Parsed(Built(ad).value) == Some(back)
    ensures back.unparsed.None? && forall t :: At(back.known, t) == Survivor(ad, t)
  {
    AllFitFields(ad, ORDER);
    var fields := FieldsFor(ad, ORDER).value;
    SplitJoined(fields, []);
    assert [] + Join(fields) == Join(fields) && Join(fields) + [] == Join(fields) && fields + [] == fields;
    OrderIsDistinct();
    back := EachAlone(EMPTY, ad, ORDER);
    forall t ensures At(back.known, t) == Survivor(ad, t) {
      if t in ad.known {
        HoldsIsOrdered(t);
      }
    }
  }

  /** Data whose fields fit comes back as it was exactly when each property is faithful. */
  lemma RoundTripWhenFit(ad: AdvData)
    requires Typed(ad) && AllFit(ad)
    ensures RoundTrips(ad) <==> AllFaithful(ad)
  {
    var back := ParsedBuilt(ad);
    forall t | t in ad.known ensures Survivor(ad, t) == Some(ad.known[t]) <==> Faithful(t, ad.known[t]) {
      FitsExactly(t, ad.known[t]);
      Survives(t, ad.known[t]);
    }
    if RoundTrips(ad) {
      assert back == ad;
      assert forall t :: t in ad.known ==> At(back.known, t) == Some(ad.known[t]);
    }
    if AllFaithful(ad) {
      assert forall t :: At(back.known, t) == At(ad.known, t);
      assert forall t :: t in back.known <==> At(back.known, t).Some?;
      assert forall t :: t in ad.known <==> At(ad.known, t).Some?;
      assert back.known == ad.known;
    }
  }

  // ----- fields too long for their length byte -----
  //
  // Counting the bytes that are not zero: building a property spends no more than parsing it takes, and
  // a list that is too long is parsed from one field more than it is built as.

  function NonZero(b: seq<byte>): nat {
    if b == [] then 0 else (if b[0] == 0 then 0 else 1) + NonZero(b[1..])
  }

  lemma {:induction false} NonZeroAppend(a: seq<byte>, b: seq<byte>)
    ensures NonZero(a + b) == NonZero(a) + NonZero(b)
  {
    if a == [] {
      assert a + b == b;
    } else {
      assert (a + b)[1..] == a[1..] + b;
      NonZeroAppend(a[1..], b);
    }
  }

  lemma NonZeroOne(x: byte)
    ensures NonZero([x]) == if x == 0 then 0 else 1
  {
    assert [x][1..] == [];
  }

  lemma NonZeroCut(b: seq<byte>, n: nat)
    requires n <= |b|
    ensures NonZero(b) == NonZero(b[..n]) + NonZero(b[n..])
  {
    assert b == b[..n] + b[n..];
    NonZeroAppend(b[..n], b[n..]);
  }

  lemma {:induction false} NonZeroReversed(b: seq<byte>)
    ensures NonZero(Reversed(b)) == NonZero(b)
  {
    if b != [] {
      NonZeroReversed(b[1..]);
      assert Reversed(b) == Reversed(b[1..]) + [b[0]];
      NonZeroAppend(Reversed(b[1..]), [b[0]]);
      NonZeroOne(b[0]);
    }
  }

  lemma {:induction false} NonZeroZeros(n: nat)
    ensures NonZero(Zeros(n)) == 0
  {
    if n > 0 {
      assert Zeros(n)[1..] == Zeros(n - 1);
      NonZeroZeros(n - 1);
    }
  }

  lemma NonZeroOverlay(b: seq<byte>, o: nat, source: seq<byte>)
    ensures NonZero(Overlay(b, o, source)) <= NonZero(b) + NonZero(source)
  {
    hide NonZero;
    if o < |b| {
      var n := Min(|source|, |b| - o);
      NonZeroCut(b, o);
      NonZeroCut(b[o..], n);
      NonZeroCut(source, n);
      assert b[o..][n..] == b[o + n..];
      assert Overlay(b, o, source) == b[..o] + source[..n] + b[o + n..];
      NonZeroAppend(b[..o] + source[..n], b[o + n..]);
      NonZeroAppend(b[..o], source[..n]);
    }
  }

  function TextContent(list: seq<string>): nat {
    if list == [] then 0 else NonZero(PairValues(list[0])) + TextContent(list[1..])
  }

  function ServiceContent(list: seq<ServiceData>): nat {
    if list == [] then 0 else NonZero(PairValues(list[0].uuid)) + NonZero(list[0].data) + ServiceContent(list[1..])
  }

  lemma {:induction false} TextContentAppend(a: seq<string>, b: seq<string>)
    ensures TextContent(a + b) == TextContent(a) + TextContent(b)
  {
    if a == [] {
      assert a + b == b;
    } else {
      assert (a + b)[1..] == a[1..] + b;
      TextContentAppend(a[1..], b);
    }
  }

  lemma {:induction false} ServiceContentPush(list: seq<ServiceData>, s: ServiceData)
    ensures ServiceContent(list + [s]) == ServiceContent(list) + NonZero(PairValues(s.uuid)) + NonZero(s.data)
  {
    if list == [] {
      assert ServiceContent([s]) == NonZero(PairValues(s.uuid)) + NonZero(s.data) + ServiceContent([]);
    } else {
      assert (list + [s])[1..] == list[1..] + [s];
      ServiceContentPush(list[1..], s);
    }
  }

  /** The bytes other than zero that a property holds. */
  function Content(p: Property): nat {
    match p
    case Flags(v) => NonZero([v % 0x100])
    case TxPower(v) => NonZero([v % 0x100])
    case Uuids(list) => TextContent(list)
    case Name(name) => NonZero(name)
    case Services(list) => ServiceContent(list)
    case Look(a) => NonZero(Le16(a.value))
    case Maker(ident, data) => NonZero(Le16(ident % 0x1_0000)) + NonZero(data)
  }

  /** The fewest bytes other than zero that a property can have been parsed from, two for each field header. */
  function Cost(p: Option<Property>): nat {
    match p
    case None => 0
    case Some(Services(list)) => ServiceContent(list) + 2 * |list|
    case Some(other) => Content(other) + 2
  }

  lemma UuidTextContent(b: seq<byte>)
    ensures NonZero(PairValues(UuidText(b))) == NonZero(b)
  {
    HexReadBack(Reversed(b));
    NonZeroReversed(b);
  }

  lemma {:induction false} TextContentParsed(data: seq<byte>, size: nat)
    requires size > 0
    ensures TextContent(UuidTexts(data, size)) == NonZero(data)
    decreases |data|
  {
    if data != [] {
      var n := Min(size, |data|);
      UuidTextContent(data[..n]);
      NonZeroCut(data, n);
      TextContentParsed(data[n..], size);
    }
  }

  lemma CostOfUuids(t: byte, data: seq<byte>, before: Option<Property>)
    requires IsUuidList(t)
    ensures var p := Absorb(t, data, before).property;
      && Cost(p) <= Cost(before) + 2 + NonZero(data)
      && (before.Some? && before.value.Uuids? ==> Cost(p) <= Cost(before) + NonZero(data))
  {
    TextContentParsed(data, UuidSize(t));
    TextContentAppend(UuidsOf(before), UuidTexts(data, UuidSize(t)));
  }

  lemma CostOfService(t: byte, data: seq<byte>, before: Option<Property>)
    requires IsServiceData(t)
    ensures Cost(Absorb(t, data, before).property) <= Cost(before) + 2 + NonZero(data)
  {
    ServiceOfContent(t, data);
    ServiceContentPush(ServicesOf(before), ServiceOf(t, data));
  }

  lemma ServiceOfContent(t: byte, data: seq<byte>)
    ensures NonZero(PairValues(ServiceOf(t, data).uuid)) + NonZero(ServiceOf(t, data).data) == NonZero(data)
  {
    var n := Min(UuidSize(t), |data|);
    UuidTextContent(data[..n]);
    NonZeroCut(data, n);
  }

  lemma CostOfNumber(data: seq<byte>)
    requires data != []
    ensures Cost(Some(Flags(data[0]))) <= 2 + NonZero(data)
    ensures Cost(Some(TxPower(SignedByte(data[0])))) <= 2 + NonZero(data)
  {
    assert SignedByte(data[0]) % 0x100 == data[0];
    NonZeroOne(data[0]);
  }

  lemma WordContent(data: seq<byte>)
    requires |data| >= 2
    ensures NonZero(Le16(ReadLe16(data, 0))) + NonZero(data[2..]) == NonZero(data)
  {
    WriteReadLe16(data, 0);
    assert data[0..2] == data[..2];
    NonZeroCut(data, 2);
  }

  lemma CostOfMaker(ident: uint16, data: seq<byte>)
    ensures Cost(Some(Maker(ident, data))) == NonZero(Le16(ident)) + NonZero(data) + 2
  {
    assert ident % 0x1_0000 == ident;
  }

  lemma CostOfSingle(t: byte, data: seq<byte>, before: Option<Property>)
    requires t in {FLAGS, TX_POWER_LEVEL, APPEARANCE, MANUFACTURER_DATA} && Absorb(t, data, before).Now?
    ensures Cost(Absorb(t, data, before).property) <= 2 + NonZero(data)
  {
    if t == FLAGS || t == TX_POWER_LEVEL {
      if data != [] {
        CostOfNumber(data);
      }
    } else {
      WordContent(data);
      CostOfMaker(ReadLe16(data, 0), data[2..]);
    }
  }

  lemma CostOfField(t: byte, data: seq<byte>, before: Option<Property>)
    requires t in ORDER && Absorb(t, data, before).Now?
    ensures Cost(Absorb(t, data, before).property) <= Cost(before) + 2 + NonZero(data)
  {
    HoldsIsOrdered(t);
    if IsUuidList(t) {
      CostOfUuids(t, data, before);
    } else if IsServiceData(t) {
      CostOfService(t, data, before);
    } else if !IsName(t) {
      CostOfSingle(t, data, before);
    }
  }

  function SumCost(known: map<byte, Property>, types: seq<byte>): nat {
    if types == [] then 0 else Cost(At(known, types[0])) + SumCost(known, types[1..])
  }

  lemma {:induction false} SumCostChanged(known: map<byte, Property>, t: byte, p: Option<Property>, more: nat,
    types: seq<byte>)
    requires Distinct(types) && Cost(p) <= Cost(At(known, t)) + more
    ensures SumCost(With(known, t, p), types) <= SumCost(known, types) + more
    ensures t !in types ==> SumCost(With(known, t, p), types) == SumCost(known, types)
  {
    if types != [] {
      WithAgain(known, t, p, p);
      SumCostChanged(known, t, p, more, types[1..]);
      assert t in types <==> t == types[0] || t in types[1..];
      assert t == types[0] ==> t !in types[1..];
      assert t != types[0] ==> At(With(known, t, p), types[0]) == At(known, types[0]);
    }
  }

  /** The bytes other than zero of the fields of known types, two for each header. */
  function Weight(fields: seq<Field>): nat {
    if fields == [] then 0 else FieldWeight(fields[0]) + Weight(fields[1..])
  }

  function FieldWeight(f: Field): nat {
    if f.kind in ORDER then 2 + NonZero(f.data) else 0
  }

  lemma {:induction false} WeightAppend(a: seq<Field>, b: seq<Field>)
    ensures Weight(a + b) == Weight(a) + Weight(b)
  {
    if a == [] {
      assert a + b == b;
    } else {
      assert (a + b)[1..] == a[1..] + b;
      WeightAppend(a[1..], b);
    }
  }

  lemma ZeroIsNoType()
    ensures 0 !in ORDER
  {
    HoldsIsOrdered(0);
  }

  lemma NonZeroTwo(x: byte, y: byte)
    ensures NonZero([x, y]) == (if x == 0 then 0 else 1) + (if y == 0 then 0 else 1)
  {
    assert [x, y] == [x] + [y];
    NonZeroAppend([x], [y]);
    NonZeroOne(x);
    NonZeroOne(y);
  }

  lemma FieldWeightInBytes(b: seq<byte>, end: nat)
    requires 2 <= end <= |b| && b[0] != 0
    ensures FieldWeight(Field(b[1], b[2..end])) + NonZero(b[end..]) <= NonZero(b)
  {
    ZeroIsNoType();
    NonZeroCut(b, end);
    NonZeroCut(b[..end], 2);
    assert b[..end][..2] == [b[0], b[1]] && b[..end][2..] == b[2..end];
    NonZeroTwo(b[0], b[1]);
  }

  lemma {:induction false} SplitWeight(b: seq<byte>)
    ensures Weight(Split(b)) <= NonZero(b) && Short(Split(b))
    decreases |b|
  {
    if |b| < 2 {
    } else if b[0] == 0 {
      SplitWeight(b[1..]);
    } else {
      var end := Min(1 + b[0] as nat, |b|);
      SplitWeight(b[end..]);
      assert Split(b)[1..] == Split(b[end..]);
      FieldWeightInBytes(b, end);
    }
  }

  lemma {:induction false} JoinWeight(fields: seq<Field>)
    requires forall i :: 0 <= i < |fields| ==> fields[i].kind in ORDER
    ensures NonZero(Join(fields)) <= Weight(fields)
  {
    if fields != [] {
      var f := fields[0];
      JoinWeight(fields[1..]);
      NonZeroAppend(FieldBytes(f), Join(fields[1..]));
      NonZeroCut(FieldBytes(f), 2);
      assert FieldBytes(f)[2..] == f.data && FieldBytes(f)[..2] == [(|f.data| + 1) % 0x100, f.kind];
      NonZeroTwo((|f.data| + 1) % 0x100, f.kind);
    }
  }

  /** What any property that was parsed satisfies: service data fits a field, an appearance is consistent. */
  predicate Parsable(p: Option<Property>) {
    && (forall i :: 0 <= i < |ServicesOf(p)| ==> |ServicesOf(p)[i].data| <= 252)
    && (p.Some? && p.value.Look? ==> Faithful(APPEARANCE, p.value))
  }

  ghost predicate AllParsable(known: map<byte, Property>) {
    forall t :: Parsable(At(known, t))
  }

  lemma ParsedIsParsable(t: byte, data: seq<byte>, before: Option<Property>)
    requires t in ORDER && |data| <= 254 && Parsable(before)
    ensures Absorb(t, data, before).Now? ==> Parsable(Absorb(t, data, before).property)
  {
    if IsServiceData(t) {
      assert |ServiceOf(t, data).data| <= 252;
    }
  }

  lemma AbsorbingCosts(acc: AdvData, f: Field, all: seq<byte>)
    requires Distinct(all) && |f.data| <= 254 && AllParsable(acc.known) && Absorbed(acc, f).Some?
    ensures SumCost(Absorbed(acc, f).value.known, all) <= SumCost(acc.known, all) + FieldWeight(f)
    ensures AllParsable(Absorbed(acc, f).value.known)
  {
    var t := f.kind;
    if t in ORDER {
      var before := At(acc.known, t);
      CostOfField(t, f.data, before);
      ParsedIsParsable(t, f.data, before);
      var p := Absorb(t, f.data, before).property;
      SumCostChanged(acc.known, t, p, 2 + NonZero(f.data), all);
      StillParsable(acc.known, t, p);
    }
  }

  lemma StillParsable(known: map<byte, Property>, t: byte, p: Option<Property>)
    requires AllParsable(known) && Parsable(p)
    ensures AllParsable(With(known, t, p))
  {
    forall k ensures Parsable(At(With(known, t, p), k)) {
      assert k != t ==> At(With(known, t, p), k) == At(known, k);
      assert At(With(known, t, p), t) == p;
    }
  }

  /** Nothing is parsed from fewer bytes than it costs. */
  lemma {:induction false} ParsingCosts(acc: AdvData, fields: seq<Field>, all: seq<byte>)
    requires Distinct(all) && Short(fields) && AllParsable(acc.known) && AbsorbAll(acc, fields).Some?
    ensures SumCost(AbsorbAll(acc, fields).value.known, all) <= SumCost(acc.known, all) + Weight(fields)
    ensures AllParsable(AbsorbAll(acc, fields).value.known)
    decreases |fields|
  {
    if fields != [] {
      AbsorbingCosts(acc, fields[0], all);
      ParsingCosts(Absorbed(acc, fields[0]).value, fields[1..], all);
    }
  }

  predicate Begun(acc: AdvData, t: byte) {
    IsUuidList(t) && t in acc.known && acc.known[t].Uuids?
  }

  lemma MoreOfList(acc: AdvData, f: Field, all: seq<byte>)
    requires Distinct(all) && Begun(acc, f.kind) && |f.data| <= 254 && AllParsable(acc.known)
    ensures Absorbed(acc, f).Some?
    ensures SumCost(Absorbed(acc, f).value.known, all) + 2 <= SumCost(acc.known, all) + FieldWeight(f)
    ensures AllParsable(Absorbed(acc, f).value.known)
  {
    var t := f.kind;
    HoldsIsOrdered(t);
    CostOfUuids(t, f.data, At(acc.known, t));
    var p := Absorb(t, f.data, At(acc.known, t)).property;
    SumCostChanged(acc.known, t, p, NonZero(f.data), all);
    AbsorbingCosts(acc, f, all);
  }

  /** A list that grows by another field wastes that field's header. */
  lemma {:induction false} GrowingCosts(acc: AdvData, fields: seq<Field>, t: byte, all: seq<byte>)
    requires Distinct(all) && Short(fields) && AllParsable(acc.known) && AbsorbAll(acc, fields).Some? && Begun(acc, t)
    requires At(AbsorbAll(acc, fields).value.known, t) != At(acc.known, t)
    ensures SumCost(AbsorbAll(acc, fields).value.known, all) + 2 <= SumCost(acc.known, all) + Weight(fields)
    decreases |fields|
  {
    if fields != [] {
      var next := Absorbed(acc, fields[0]).value;
      if fields[0].kind == t {
        MoreOfList(acc, fields[0], all);
        ParsingCosts(next, fields[1..], all);
      } else {
        AbsorbingCosts(acc, fields[0], all);
        assert At(next.known, t) == At(acc.known, t);
        GrowingCosts(next, fields[1..], t, all);
      }
    }
  }

  // ----- what building spends -----

  lemma {:induction false} SlotsContent(list: seq<string>, size: nat, i: nat)
    requires i <= |list|
    ensures NonZero(Slots(list, size, i)) <= TextContent(list[..i])
  {
    if i == 0 {
      NonZeroZeros(SlotAt(size, |list|));
    } else {
      SlotsContent(list, size, i - 1);
      UuidOverlay(Slots(list, size, i - 1), SlotAt(size, i - 1), list[i - 1]);
      TextContentPush(list[..i - 1], list[i - 1]);
      assert list[..i] == list[..i - 1] + [list[i - 1]];
    }
  }

  lemma UuidOverlay(b: seq<byte>, o: nat, uuid: string)
    ensures NonZero(Overlay(b, o, UuidBytes(uuid))) <= NonZero(b) + NonZero(PairValues(uuid))
  {
    NonZeroOverlay(b, o, UuidBytes(uuid));
    NonZeroReversed(PairValues(uuid));
  }

  lemma TextContentPush(list: seq<string>, uuid: string)
    ensures TextContent(list + [uuid]) == TextContent(list) + NonZero(PairValues(uuid))
  {
    TextContentAppend(list, [uuid]);
    assert TextContent([uuid]) == NonZero(PairValues(uuid)) + TextContent([]);
  }

  lemma PayloadContent(t: byte, s: ServiceData)
    ensures NonZero(ServicePayload(t, s)) <= NonZero(PairValues(s.uuid)) + NonZero(s.data)
  {
    var empty := Zeros(2 + |s.data|);
    NonZeroZeros(2 + |s.data|);
    UuidOverlay(empty, 0, s.uuid);
    NonZeroOverlay(Overlay(empty, 0, UuidBytes(s.uuid)), UuidSize(t), s.data);
  }

  lemma {:induction false} ServiceWeight(t: byte, list: seq<ServiceData>)
    requires IsServiceData(t)
    ensures Weight(ServiceFields(t, list)) <= ServiceContent(list) + 2 * |list|
  {
    if list != [] {
      assert ServiceFields(t, list)[1..] == ServiceFields(t, list[1..]);
      PayloadContent(t, list[0]);
      ServiceWeight(t, list[1..]);
    }
  }

  lemma OneWeight(f: Field)
    ensures Weight([f]) == FieldWeight(f)
  {
    assert Weight([f]) == FieldWeight(f) + Weight([f][1..]);
  }

  lemma LookWeight(a: Appearance)
    requires Faithful(APPEARANCE, Look(a))
    ensures AppearanceValue(a) == a.value
  {
    SixBits(a.category, a.subcategory);
  }

  lemma MakerWeight(ident: uint16, data: seq<byte>)
    ensures NonZero(Le16(ident) + data) + 2 == Cost(Some(Maker(ident, data)))
  {
    NonZeroAppend(Le16(ident), data);
    CostOfMaker(ident, data);
  }

  lemma UuidsWeight(list: seq<string>, size: nat)
    ensures NonZero(Slots(list, size, |list|)) + 2 <= Cost(Some(Uuids(list)))
  {
    SlotsContent(list, size, |list|);
    assert list[..|list|] == list;
  }

  /** A property that could have been parsed is built in no more than it costs. */
  lemma BuiltWeight(t: byte, p: Property)
    requires Holds(t, p) && FieldsOf(t, p).Some? && Parsable(Some(p))
    ensures Weight(FieldsOf(t, p).value) <= Cost(Some(p))
  {
    hide Slots, NonZero, Or, TextContent, ServicePayload;
    var fields := FieldsOf(t, p).value;
    if |fields| == 1 {
      OneWeight(fields[0]);
    }
    match p
    case Uuids(list) => UuidsWeight(list, UuidSize(t));
    case Services(list) => ServiceWeight(t, list);
    case Look(a) => LookWeight(a);
    case Maker(ident, data) => MakerWeight(ident, data);
    case _ =>
  }

  lemma {:induction false} BuildingCosts(ad: AdvData, types: seq<byte>)
    requires Typed(ad) && AllParsable(ad.known) && FieldsFor(ad, types).Some?
    requires forall t :: t in types ==> t in ORDER
    ensures Weight(FieldsFor(ad, types).value) <= SumCost(ad.known, types)
    ensures forall i :: 0 <= i < |FieldsFor(ad, types).value| ==> FieldsFor(ad, types).value[i].kind in ORDER
  {
    if types != [] {
      var t := types[0];
      WeightAppend(FieldsAt(ad, t).value, FieldsFor(ad, types[1..]).value);
      BuildingCosts(ad, types[1..]);
      if t in ad.known {
        assert Parsable(At(ad.known, t));
        FitsExactly(t, ad.known[t]);
        BuiltWeight(t, ad.known[t]);
      }
    }
  }

  // ----- the first list that is too long -----

  predicate LongList(ad: AdvData, t: byte) {
    t in ad.known && ad.known[t].Uuids? && !Fits(t, ad.known[t])
  }

  lemma {:induction false} TextsOf(data: seq<byte>, size: nat)
    requires size > 0
    ensures |UuidTexts(data, size)| * size < |data| + size
    decreases |data|
  {
    if data != [] {
      var n := Min(size, |data|);
      TextsOf(data[n..], size);
      var rest := |UuidTexts(data[n..], size)|;
      assert (rest + 1) * size == rest * size + size;
    }
  }

  /** The length byte of a list too long holds fewer UUIDs than the list. */
  lemma LongLength(n: nat, t: byte)
    requires IsUuidList(t) && n * UuidSize(t) > 254
    ensures var k := (n * UuidSize(t) + 1) % 0x100;
      1 <= k <= 255 && k - 1 + 255 < n * UuidSize(t)
  {
    if UuidSize(t) == 2 {
      assert n * UuidSize(t) == 2 * n;
    } else if UuidSize(t) == 4 {
      assert n * UuidSize(t) == 4 * n;
    } else {
      assert n * UuidSize(t) == 16 * n;
    }
  }

  lemma SplitLong(t: byte, data: seq<byte>, behind: seq<byte>) returns (cut: seq<byte>, rest: seq<byte>)
    requires 1 <= (|data| + 1) % 0x100 <= |data|
    ensures Split(FieldBytes(Field(t, data)) + behind) == [Field(t, cut)] + Split(rest)
    ensures |cut| == (|data| + 1) % 0x100 - 1
  {
    var b := FieldBytes(Field(t, data)) + behind;
    var len: nat := (|data| + 1) % 0x100;
    var end := 1 + len;
    assert b[0] == len && b[1] == t;
    cut, rest := b[2..end], b[end..];
  }

  /** What is parsed of a list too long is not the list, so that more of its type must follow. */
  lemma LongListCut(acc: AdvData, ad: AdvData, t: byte, cut: seq<byte>)
    requires LongList(ad, t) && IsUuidList(t) && t !in acc.known
    requires |cut| == (|ad.known[t].uuids| * UuidSize(t) + 1) % 0x100 - 1
    ensures Absorbed(acc, Field(t, cut)).Some? && Begun(Absorbed(acc, Field(t, cut)).value, t)
    ensures At(Absorbed(acc, Field(t, cut)).value.known, t) != At(ad.known, t)
  {
    var (list, size) := (ad.known[t].uuids, UuidSize(t));
    HoldsIsOrdered(t);
    LongLength(|list|, t);
    TextsOf(cut, size);
    UuidsAbsorbed(t, cut);
    assert |UuidTexts(cut, size)| * size < |list| * size;
  }

  lemma {:induction false} LongListCosts(acc: AdvData, ad: AdvData, types: seq<byte>, all: seq<byte>)
    requires Typed(ad) && AllParsable(ad.known) && AllParsable(acc.known) && FieldsFor(ad, types).Some?
    requires Distinct(all) && Distinct(types) && forall t :: t in types ==> t in ORDER && t !in acc.known
    requires exists t :: t in types && LongList(ad, t)
    requires AbsorbAll(acc, Split(Join(FieldsFor(ad, types).value))) == Some(ad)
    ensures SumCost(ad.known, all) + 2 <= SumCost(acc.known, all) + Weight(Split(Join(FieldsFor(ad, types).value)))
    decreases |types|
  {
    var t := types[0];
    var (fields, behind) := (FieldsAt(ad, t).value, FieldsFor(ad, types[1..]).value);
    JoinAppend(fields, behind);
    if LongList(ad, t) {
      LongListFirst(acc, ad, t, Join(behind), all);
    } else {
      var next := PastShort(acc, ad, t, Join(behind), all);
      assert forall k :: k in types[1..] ==> k in types && k != t && At(next.known, k) == None;
      LongListCosts(next, ad, types[1..], all);
    }
  }

  /** Fields that are not too long are parsed as they were built. */
  lemma PastShort(acc: AdvData, ad: AdvData, t: byte, behind: seq<byte>, all: seq<byte>) returns (next: AdvData)
    requires Typed(ad) && AllParsable(ad.known) && AllParsable(acc.known) && Distinct(all)
    requires t in ORDER && t !in acc.known && !LongList(ad, t) && FieldsAt(ad, t).Some?
    ensures Alone(next.known, acc.known, ad, [t]) && AllParsable(next.known)
    ensures AbsorbAll(acc, Split(Join(FieldsAt(ad, t).value) + behind)) == AbsorbAll(next, Split(behind))
    ensures SumCost(next.known, all) + Weight(Split(behind)) <=
      SumCost(acc.known, all) + Weight(Split(Join(FieldsAt(ad, t).value) + behind))
  {
    var fields := FieldsAt(ad, t).value;
    ShortUnlessLong(ad, t);
    SplitJoined(fields, behind);
    next := OneAlone(acc, ad, t);
    AbsorbAppend(acc, fields, Split(behind));
    ParsingCosts(acc, fields, all);
    WeightAppend(fields, Split(behind));
  }

  lemma ShortUnlessLong(ad: AdvData, t: byte)
    requires Typed(ad) && AllParsable(ad.known) && FieldsAt(ad, t).Some? && !LongList(ad, t)
    ensures Short(FieldsAt(ad, t).value)
  {
    if t in ad.known {
      assert Parsable(At(ad.known, t));
      FitsExactly(t, ad.known[t]);
      FitsIfParsable(t, ad.known[t]);
    }
  }

  lemma FitsIfParsable(t: byte, p: Property)
    requires Holds(t, p) && FieldsOf(t, p).Some? && Parsable(Some(p))
    ensures Fits(t, p) || p.Uuids?
  {
    if p.Services? {
      assert ServicesOf(Some(p)) == p.services;
    }
  }

  lemma LongListFirst(acc: AdvData, ad: AdvData, t: byte, behind: seq<byte>, all: seq<byte>)
    requires Distinct(all) && Typed(ad) && AllParsable(acc.known) && t in ORDER && t !in acc.known && LongList(ad, t)
    requires FieldsAt(ad, t).Some? && AbsorbAll(acc, Split(Join(FieldsAt(ad, t).value) + behind)) == Some(ad)
    ensures SumCost(ad.known, all) + 2 <= SumCost(acc.known, all) + Weight(Split(Join(FieldsAt(ad, t).value) + behind))
  {
    var f, rest := LongListSplit(ad, t, behind);
    LongListRest(acc, ad, f, Split(rest), all);
  }

  lemma LongListSplit(ad: AdvData, t: byte, behind: seq<byte>) returns (f: Field, rest: seq<byte>)
    requires Typed(ad) && LongList(ad, t) && FieldsAt(ad, t).Some?
    ensures Split(Join(FieldsAt(ad, t).value) + behind) == [f] + Split(rest) && Short(Split(rest))
    ensures f.kind == t && |f.data| <= 254 && |f.data| == (|ad.known[t].uuids| * UuidSize(t) + 1) % 0x100 - 1
  {
    var list := ad.known[t].uuids;
    var data := Slots(list, UuidSize(t), |list|);
    SlotsLength(list, UuidSize(t), |list|);
    JoinOne(Field(t, data));
    LongLength(|list|, t);
    var cut;
    cut, rest := SplitLong(t, data, behind);
    f := Field(t, cut);
    SplitWeight(rest);
  }

  lemma LongListRest(acc: AdvData, ad: AdvData, f: Field, rest: seq<Field>, all: seq<byte>)
    requires Distinct(all) && AllParsable(acc.known) && f.kind !in acc.known && LongList(ad, f.kind) &&
      IsUuidList(f.kind)
    requires |f.data| <= 254 && |f.data| == (|ad.known[f.kind].uuids| * UuidSize(f.kind) + 1) % 0x100 - 1
    requires Short(rest) && AbsorbAll(acc, [f] + rest) == Some(ad)
    ensures SumCost(ad.known, all) + 2 <= SumCost(acc.known, all) + Weight([f] + rest)
  {
    LongListCut(acc, ad, f.kind, f.data);
    AbsorbingCosts(acc, f, all);
    assert ([f] + rest)[1..] == rest;
    GrowingCosts(Absorbed(acc, f).value, rest, f.kind, all);
  }

  /** Data that comes back is parsed from no more than it costs. */
  lemma RoundTripCosts(ad: AdvData) returns (b: seq<byte>)
    requires Typed(ad) && RoundTrips(ad)
    ensures FieldsFor(ad, ORDER).Some? && b == Join(FieldsFor(ad, ORDER).value)
    ensures AbsorbAll(EMPTY, Split(b)) == Some(ad) && AllParsable(ad.known)
    ensures Weight(Split(b)) <= SumCost(ad.known, ORDER)
  {
    var fields := FieldsFor(ad, ORDER).value;
    b := Join(fields);
    assert [] + b == b;
    SplitWeight(b);
    OrderIsDistinct();
    ParsingCosts(EMPTY, Split(b), ORDER);
    BuildingCosts(ad, ORDER);
    JoinWeight(fields);
  }

  lemma LongOne(ad: AdvData) returns (t: byte)
    requires Typed(ad) && FieldsFor(ad, ORDER).Some? && AllParsable(ad.known) && !AllFit(ad)
    ensures t in ORDER && LongList(ad, t)
  {
    t :| t in ad.known && !Fits(t, ad.known[t]);
    HoldsIsOrdered(t);
    Buildable(ad, ORDER, t);
    assert Parsable(At(ad.known, t));
    FitsIfParsable(t, ad.known[t]);
  }

  /** Data with a field too long for its length byte never comes back. */
  lemma LongFieldsAreLost(ad: AdvData)
    requires Typed(ad) && !AllFit(ad)
    ensures !RoundTrips(ad)
  {
    if RoundTrips(ad) {
      var b := RoundTripCosts(ad);
      var t := LongOne(ad);
      OrderIsDistinct();
      LongListCosts(EMPTY, ad, ORDER, ORDER);
      NothingCosts(ORDER);
    }
  }

  lemma {:induction false} NothingCosts(types: seq<byte>)
    ensures SumCost(EMPTY.known, types) == 0
  {
    if types != [] {
      NothingCosts(types[1..]);
    }
  }

  lemma {:induction false} Buildable(ad: AdvData, types: seq<byte>, t: byte)
    requires FieldsFor(ad, types).Some? && t in types
    ensures FieldsAt(ad, t).Some?
  {
    if t != types[0] {
      Buildable(ad, types[1..], t);
    }
  }

  /** Exactly which advertising data `build` and `parse` hand on unchanged. */
  lemma RoundTripExact(ad: AdvData)
    requires Typed(ad)
    ensures RoundTrips(ad) <==> AllFit(ad) && AllFaithful(ad)
  {
    if AllFit(ad) {
      RoundTripWhenFit(ad);
    } else {
      LongFieldsAreLost(ad);
    }
  }
}
