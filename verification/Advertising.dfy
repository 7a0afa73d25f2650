/**
  Advertising data: the type-length-value fields of `AdvData.build` and `AdvData.parse`.
  The optional properties of the advertising object are a map from their field type; names are
  their UTF-8 bytes.
 */
module Advertising {
  import opened Buffers
  import opened Bytes

  const FLAGS: byte := 0x01
  const TX_POWER_LEVEL: byte := 0x0a
  const SERVICE_DATA_16: byte := 0x16
  const APPEARANCE: byte := 0x19
  const MANUFACTURER_DATA: byte := 0xff

  /** The field types `build` knows, in the order it writes them. */
  const ORDER: seq<byte> := [
    FLAGS, 0x02, 0x03, 0x04, 0x05, 0x06, 0x07, 0x09, 0x08, TX_POWER_LEVEL, 0x14, 0x1f, 0x15, SERVICE_DATA_16,
    APPEARANCE, 0x20, 0x21, MANUFACTURER_DATA
  ]

  datatype ServiceData = ServiceData(uuid: string, data: seq<byte>)

  datatype Appearance = Appearance(category: uint16, subcategory: uint16, value: uint16)

  datatype Property =
    | Flags(flags: int)
    | Uuids(uuids: seq<string>)
    | Name(name: seq<byte>)
    | TxPower(level: int)
    | Services(services: seq<ServiceData>)
    | Look(appearance: Appearance)
    | Maker(ident: nat, data: seq<byte>)

  datatype AdvData = AdvData(known: map<byte, Property>, unparsed: Option<map<byte, seq<byte>>>)

  datatype Field = Field(kind: byte, data: seq<byte>)

  predicate IsUuidList(t: byte) {
    0x02 <= t <= 0x07 || t in {0x14, 0x15, 0x1f}
  }

  predicate IsName(t: byte) {
    t == 0x08 || t == 0x09
  }

  predicate IsServiceData(t: byte) {
    t in {SERVICE_DATA_16, 0x20, 0x21}
  }

  /** Bytes of a UUID in the lists and service data of a type. */
  function UuidSize(t: byte): nat {
    if t in {0x02, 0x03, 0x14, SERVICE_DATA_16} then 2 else if t in {0x04, 0x05, 0x1f, 0x20} then 4 else 16
  }

  /** A property is of the kind its type holds. */
  predicate Holds(t: byte, p: Property) {
    match p
    case Flags(_) => t == FLAGS
    case Uuids(_) => IsUuidList(t)
    case Name(_) => IsName(t)
    case TxPower(_) => t == TX_POWER_LEVEL
    case Services(_) => IsServiceData(t)
    case Look(_) => t == APPEARANCE
    case Maker(_, _) => t == MANUFACTURER_DATA
  }

  predicate Typed(ad: AdvData) {
    forall t :: t in ad.known ==> Holds(t, ad.known[t])
  }

  lemma HoldsIsOrdered(t: byte)
    ensures t in ORDER <==>
      t in {FLAGS, TX_POWER_LEVEL, APPEARANCE, MANUFACTURER_DATA} || IsUuidList(t) || IsName(t) || IsServiceData(t)
  {
    assert ORDER[..7] == [FLAGS, 0x02, 0x03, 0x04, 0x05, 0x06, 0x07];
    assert ORDER[7..13] == [0x09, 0x08, TX_POWER_LEVEL, 0x14, 0x1f, 0x15];
    assert ORDER[13..] == [SERVICE_DATA_16, APPEARANCE, 0x20, 0x21, MANUFACTURER_DATA];
    assert ORDER == ORDER[..7] + ORDER[7..13] + ORDER[13..];
  }

  // ----- UUID texts -----

  function HexDigit(n: nat): char
    requires n < 16
  {
    if n < 10 then ('0' as int + n) as char else ('a' as int + n - 10) as char
  }

  function DigitValue(c: char): Option<nat> {
    if '0' <= c <= '9' then Some(c as int - '0' as int)
    else if 'a' <= c <= 'f' then Some(c as int - 'a' as int + 10)
    else if 'A' <= c <= 'F' then Some(c as int - 'A' as int + 10)
    else None
  }

  /** `parseInt(pair, 16)`: the hex digits at the front; none read as zero. */
  function PairValue(pair: string): byte
    requires 1 <= |pair| <= 2
  {
    match DigitValue(pair[0])
    case None => 0
    case Some(high) =>
      assert high < 16;
      if |pair| == 1 || DigitValue(pair[1]).None? then high else
        assert DigitValue(pair[1]).value < 16;
        high * 16 + DigitValue(pair[1]).value
  }

  function PairValues(text: string): (r: seq<byte>)
    ensures |r| == (|text| + 1) / 2
  {
    if text == "" then []
    else if |text| == 1 then [PairValue(text)]
    else [PairValue(text[..2])] + PairValues(text[2..])
  }

  function HexText(b: seq<byte>): (r: string)
    ensures |r| == 2 * |b|
  {
    if b == [] then "" else [HexDigit(b[0] / 16), HexDigit(b[0] % 16)] + HexText(b[1..])
  }

  function Reversed(b: seq<byte>): (r: seq<byte>)
    ensures |r| == |b|
  {
    seq(|b|, i requires 0 <= i < |b| => b[|b| - 1 - i])
  }

  lemma ReversedTwice(b: seq<byte>)
    ensures Reversed(Reversed(b)) == b
  {
  }

  /** `UUID.from(text)`: little-endian bytes. */
  function UuidBytes(text: string): seq<byte> {
    Reversed(PairValues(text))
  }

  /** The text `parse` gives to the bytes of a UUID. */
  function UuidText(b: seq<byte>): string {
    HexText(Reversed(b))
  }

  predicate LowerHex(text: string) {
    forall i :: 0 <= i < |text| ==> '0' <= text[i] <= '9' || 'a' <= text[i] <= 'f'
  }

  /** A text `parse` can give to a UUID of `size` bytes. */
  predicate Canonical(text: string, size: nat) {
    |text| == 2 * size && LowerHex(text)
  }

  lemma {:induction false} HexReadBack(b: seq<byte>)
    ensures PairValues(HexText(b)) == b && LowerHex(HexText(b))
  {
    if b == [] {
    } else {
      HexReadBack(b[1..]);
      var (high, low) := (b[0] / 16, b[0] % 16);
      assert DigitValue(HexDigit(high)) == Some(high) && DigitValue(HexDigit(low)) == Some(low);
      assert HexText(b)[..2] == [HexDigit(high), HexDigit(low)];
      assert HexText(b)[2..] == HexText(b[1..]);
    }
  }

  lemma {:induction false} HexRestored(text: string)
    requires LowerHex(text) && |text| % 2 == 0
    ensures HexText(PairValues(text)) == text
  {
    if text == "" {
    } else {
      HexRestored(text[2..]);
      var b := PairValue(text[..2]);
      assert HexDigit(b / 16) == text[0] && HexDigit(b % 16) == text[1] by {
        var (high, low) := (DigitValue(text[0]).value, DigitValue(text[1]).value);
        assert b == high * 16 + low && b / 16 == high && b % 16 == low;
      }
      assert PairValues(text)[1..] == PairValues(text[2..]);
    }
  }

  lemma UuidReadBack(b: seq<byte>)
    ensures UuidBytes(UuidText(b)) == b && Canonical(UuidText(b), |b|)
  {
    HexReadBack(Reversed(b));
    ReversedTwice(b);
  }

  lemma UuidRestored(text: string, size: nat)
    requires Canonical(text, size)
    ensures UuidText(UuidBytes(text)) == text && |UuidBytes(text)| == size
  {
    HexRestored(text);
    ReversedTwice(PairValues(text));
  }

  // ----- the fields of a property -----

  /** Where the i-th slot of a UUID list begins. */
  function SlotAt(size: nat, i: nat): nat {
    if i == 0 then 0 else SlotAt(size, i - 1) + size
  }

  lemma {:induction false} SlotAtIs(size: nat, i: nat)
    ensures SlotAt(size, i) == i * size
  {
    if i > 0 {
      SlotAtIs(size, i - 1);
      assert i * size == (i - 1) * size + size;
    }
  }

  /** The buffer of a UUID list after `i` of its UUIDs have been copied in; a long UUID runs into the next slot. */
  function Slots(list: seq<string>, size: nat, i: nat): (r: seq<byte>)
    requires i <= |list|
  {
    if i == 0 then Zeros(SlotAt(size, |list|))
      else Overlay(Slots(list, size, i - 1), SlotAt(size, i - 1), UuidBytes(list[i - 1]))
  }

  lemma {:induction false} SlotsLength(list: seq<string>, size: nat, i: nat)
    requires i <= |list|
    ensures |Slots(list, size, i)| == SlotAt(size, |list|) == |list| * size
  {
    SlotAtIs(size, |list|);
    if i > 0 {
      SlotsLength(list, size, i - 1);
    }
  }

  /** The buffer of a service data field has room for a 2-byte UUID, whatever its size. */
  function ServicePayload(t: byte, s: ServiceData): (r: seq<byte>)
    ensures |r| == 2 + |s.data|
  {
    Overlay(Overlay(Zeros(2 + |s.data|), 0, UuidBytes(s.uuid)), UuidSize(t), s.data)
  }

  function ServiceFields(t: byte, list: seq<ServiceData>): (r: seq<Field>)
    ensures |r| == |list|
    ensures forall i :: 0 <= i < |list| ==> r[i] == Field(t, ServicePayload(t, list[i]))
  {
    seq(|list|, i requires 0 <= i < |list| => Field(t, ServicePayload(t, list[i])))
  }

  function AppearanceValue(a: Appearance): nat {
    Or(a.category * 64, a.subcategory)
  }

  /** The fields `build` writes for a property, or None where writing a number out of range throws. */
  function FieldsOf(t: byte, p: Property): Option<seq<Field>> {
    match p
    case Flags(v) => Some(if v == 0 then [] else [Field(t, [v % 0x100])])
    case Uuids(list) => Some([Field(t, Slots(list, UuidSize(t), |list|))])
    case Name(name) => if name == [] then Some([]) else if |name| > 254 then None else Some([Field(t, name)])
    case TxPower(v) => Some(if v == 0 then [] else [Field(t, [v % 0x100])])
    case Services(list) => Some(ServiceFields(t, list))
    case Look(a) => if AppearanceValue(a) >= 0x1_0000 then None else Some([Field(t, Le16(AppearanceValue(a)))])
    case Maker(ident, data) =>
      if ident >= 0x1_0000 || |data| > 252 then None else Some([Field(t, Le16(ident) + data)])
  }

  /** A field on the wire; the length byte holds the length modulo 256. */
  function FieldBytes(f: Field): (r: seq<byte>)
    ensures |r| == 2 + |f.data|
  {
    [(|f.data| + 1) % 0x100, f.kind] + f.data
  }

  function Join(fields: seq<Field>): seq<byte> {
    if fields == [] then [] else FieldBytes(fields[0]) + Join(fields[1..])
  }

  lemma {:induction false} JoinAppend(a: seq<Field>, b: seq<Field>)
    ensures Join(a + b) == Join(a) + Join(b)
  {
    if a == [] {
      assert a + b == b;
    } else {
      assert (a + b)[1..] == a[1..] + b;
      JoinAppend(a[1..], b);
    }
  }

  function FieldsAt(ad: AdvData, t: byte): Option<seq<Field>> {
    if t in ad.known then FieldsOf(t, ad.known[t]) else Some([])
  }

  function Both(a: Option<seq<Field>>, b: Option<seq<Field>>): Option<seq<Field>> {
    if a.Some? && b.Some? then Some(a.value + b.value) else None
  }

  function FieldsFor(ad: AdvData, types: seq<byte>): Option<seq<Field>> {
    if types == [] then Some([]) else Both(FieldsAt(ad, types[0]), FieldsFor(ad, types[1..]))
  }

  function Built(ad: AdvData): Option<seq<byte>> {
    Appended([], FieldsFor(ad, ORDER))
  }

  // ----- AdvData.build -----

  /** `buildFlags` and `buildTxPowerLevel`. */
  method BuildNumber(t: byte, v: int) returns (r: seq<byte>)
    ensures r == FieldBytes(Field(t, [v % 0x100]))
  {
    var buffer := new byte[3];
    buffer[0], buffer[1], buffer[2] := 2, t, v % 0x100;
    return buffer[..];
  }

  /** `buildListOfServiceClassUuids`. */
  method BuildUuidList(t: byte, list: seq<string>) returns (r: seq<byte>)
    ensures r == FieldBytes(Field(t, Slots(list, UuidSize(t), |list|)))
  {
    var bytes := UuidSize(t);
    var buffer := new byte[2 + |list| * bytes](_ => 0);
    buffer[0], buffer[1] := (buffer.Length - 1) % 0x100, t;
    ghost var header := buffer[..2];
    var o: nat := 2;
    SlotsLength(list, bytes, |list|);
    assert buffer[..] == header + Slots(list, bytes, 0);
    for i := 0 to |list|
      invariant o == 2 + SlotAt(bytes, i)
      invariant buffer[..] == header + Slots(list, bytes, i)
    {
      SlotFilled(header, list, bytes, i);
      CopyOver(UuidBytes(list[i]), buffer, o);
      o := o + bytes;
    }
    return buffer[..];
  }

  lemma OverlayAfter(header: seq<byte>, b: seq<byte>, o: nat, source: seq<byte>)
    ensures Overlay(header + b, |header| + o, source) == header + Overlay(b, o, source)
  {
  }

  lemma SlotFilled(header: seq<byte>, list: seq<string>, size: nat, i: nat)
    requires |header| == 2 && i < |list|
    ensures Overlay(header + Slots(list, size, i), 2 + SlotAt(size, i), UuidBytes(list[i]))
      == header + Slots(list, size, i + 1)
  {
    OverlayAfter(header, Slots(list, size, i), SlotAt(size, i), UuidBytes(list[i]));
  }

  /** `buildName`. */
  method BuildName(t: byte, name: seq<byte>) returns (r: Option<seq<byte>>)
    ensures r == if |name| > 254 then None else Some(FieldBytes(Field(t, name)))
  {
    var buffer := new byte[2 + |name|];
    if buffer.Length - 1 >= 0x100 {
      return None;
    }
    var o := WriteByte(buffer, buffer.Length - 1, 0);
    o := WriteByte(buffer, t, o);
    var copied := Copy(name, buffer, o);
    assert buffer[..o + copied] == buffer[..];
    assert buffer[..] == [(|name| + 1) % 0x100, t] + name;
    return Some(buffer[..]);
  }

  /** `buildServiceData`. */
  method BuildServiceData(t: byte, s: ServiceData) returns (r: seq<byte>)
    ensures r == FieldBytes(Field(t, ServicePayload(t, s)))
  {
    var buffer := new byte[2 + 2 + |s.data|](_ => 0);
    buffer[0], buffer[1] := (buffer.Length - 1) % 0x100, t;
    ghost var header := buffer[..2];
    ghost var empty := Zeros(2 + |s.data|);
    assert buffer[..] == header + empty;
    CopyOver(UuidBytes(s.uuid), buffer, 2);
    OverlayAfter(header, empty, 0, UuidBytes(s.uuid));
    CopyOver(s.data, buffer, 2 + UuidSize(t));
    OverlayAfter(header, Overlay(empty, 0, UuidBytes(s.uuid)), UuidSize(t), s.data);
    return buffer[..];
  }

  /** `buildAppearance`. */
  method BuildAppearance(a: Appearance) returns (r: Option<seq<byte>>)
    ensures r == if AppearanceValue(a) >= 0x1_0000 then None
      else Some(FieldBytes(Field(APPEARANCE, Le16(AppearanceValue(a)))))
  {
    var buffer := new byte[2 + 2];
    var o := WriteByte(buffer, buffer.Length - 1, 0);
    o := WriteByte(buffer, APPEARANCE, o);
    var value := Or(a.category * 64, a.subcategory);
    if value >= 0x1_0000 {
      return None;
    }
    o := WriteWord(buffer, value, o);
    assert buffer[..o] == buffer[..];
    assert buffer[..] == [3, APPEARANCE] + Le16(value);
    return Some(buffer[..]);
  }

  /** `buildManufData`. */
  method BuildMaker(ident: nat, data: seq<byte>) returns (r: Option<seq<byte>>)
    ensures r == if ident >= 0x1_0000 || |data| > 252 then None
      else Some(FieldBytes(Field(MANUFACTURER_DATA, Le16(ident) + data)))
  {
    var buffer := new byte[2 + 2 + |data|];
    if buffer.Length - 1 >= 0x100 || ident >= 0x1_0000 {
      return None;
    }
    var o := WriteByte(buffer, buffer.Length - 1, 0);
    o := WriteByte(buffer, MANUFACTURER_DATA, o);
    o := WriteWord(buffer, ident, o);
    var copied := Copy(data, buffer, o);
    assert buffer[..o + copied] == buffer[..];
    assert buffer[..] == [(|data| + 3) % 0x100, MANUFACTURER_DATA] + (Le16(ident) + data);
    return Some(buffer[..]);
  }

  /** What `build` appends for one property that is present. */
  method BuildProperty(t: byte, p: Property) returns (r: Option<seq<byte>>)
    requires Holds(t, p)
    ensures r.Some? <==> FieldsOf(t, p).Some?
    ensures r.Some? ==> r.value == Join(FieldsOf(t, p).value)
  {
    match p
    case Flags(v) =>
      if v == 0 {
        return Some([]);
      }
      var field := BuildNumber(t, v);
      JoinOne(Field(t, [v % 0x100]));
      return Some(field);
    case TxPower(v) =>
      if v == 0 {
        return Some([]);
      }
      var field := BuildNumber(t, v);
      JoinOne(Field(t, [v % 0x100]));
      return Some(field);
    case Uuids(list) =>
      var field := BuildUuidList(t, list);
      JoinOne(Field(t, Slots(list, UuidSize(t), |list|)));
      return Some(field);
    case Name(name) =>
      if name == [] {
        return Some([]);
      }
      r := BuildName(t, name);
      JoinOne(Field(t, name));
    case Services(list) =>
      var buffer := [];
      ghost var fields := ServiceFields(t, list);
      for i := 0 to |list|
        invariant buffer == Join(fields[..i])
      {
        var field := BuildServiceData(t, list[i]);
        buffer := buffer + field;
        JoinOne(fields[i]);
        JoinAppend(fields[..i], [fields[i]]);
        assert fields[..i] + [fields[i]] == fields[..i + 1];
      }
      assert fields[..|list|] == fields;
      return Some(buffer);
    case Look(a) =>
      r := BuildAppearance(a);
      JoinOne(Field(t, Le16(AppearanceValue(a) % 0x1_0000)));
    case Maker(ident, data) =>
      r := BuildMaker(ident, data);
      JoinOne(Field(t, Le16(ident % 0x1_0000) + data));
  }

  lemma JoinOne(f: Field)
    ensures Join([f]) == FieldBytes(f)
  {
    assert Join([f]) == FieldBytes(f) + Join([]);
  }

  /** `AdvData.build`: the properties present, in order. */
  method Build(ad: AdvData) returns (r: Option<seq<byte>>)
    requires Typed(ad)
    ensures r == Built(ad)
  {
    r := BuildInOrder(ad, ORDER);
  }

  /** The successive `if`s of `build`. */
  method BuildInOrder(ad: AdvData, types: seq<byte>) returns (r: Option<seq<byte>>)
    requires Typed(ad)
    ensures r == Appended([], FieldsFor(ad, types))
  {
    var buffer := [];
    assert types[0..] == types;
    for k := 0 to |types|
      invariant Appended([], FieldsFor(ad, types)) == Appended(buffer, FieldsFor(ad, types[k..]))
    {
      var t := types[k];
      assert types[k..][1..] == types[k + 1..];
      NextBuilt(ad, types[k..], buffer);
      if t in ad.known {
        var field := BuildProperty(t, ad.known[t]);
        if field.None? {
          return None;
        }
        buffer := buffer + field.value;
      } else {
        assert buffer + Join([]) == buffer;
      }
    }
    assert buffer + Join([]) == buffer;
    return Some(buffer);
  }

  /** A buffer with further fields behind it. */
  function Appended(buffer: seq<byte>, fields: Option<seq<Field>>): Option<seq<byte>> {
    match fields
    case None => None
    case Some(list) => Some(buffer + Join(list))
  }

  lemma NextBuilt(ad: AdvData, types: seq<byte>, buffer: seq<byte>)
    requires types != []
    ensures Appended(buffer, FieldsFor(ad, types)) ==
      match FieldsAt(ad, types[0])
      case None => None
      case Some(fields) => Appended(buffer + Join(fields), FieldsFor(ad, types[1..]))
  {
    if FieldsFor(ad, types).Some? {
      var (fields, rest) := (FieldsAt(ad, types[0]).value, FieldsFor(ad, types[1..]).value);
      JoinAppend(fields, rest);
      Regroup(buffer, Join(fields), Join(rest));
    }
  }

  // ----- what parsing makes of bytes -----

  lemma Slices<T>(b: seq<T>, from: nat, mid: nat, to: nat)
    requires from <= mid <= to <= |b|
    ensures b[from..to][..mid - from] == b[from..mid] && b[from..to][mid - from..] == b[mid..to]
  {
  }

  function Min(a: nat, b: nat): nat {
    if a < b then a else b
  }

  /** The fields of a stretch of bytes; zero length bytes and a lone last byte are skipped, a long length is cut. */
  function Split(b: seq<byte>): seq<Field> {
    if |b| < 2 then []
    else if b[0] == 0 then Split(b[1..])
    else
      var len: nat := b[0];
      var end := Min(1 + len, |b|);
      [Field(b[1], b[2..end])] + Split(b[end..])
  }

  function UuidTexts(data: seq<byte>, size: nat): seq<string>
    requires size > 0
  {
    if data == [] then [] else
      var n := Min(size, |data|);
      [UuidText(data[..n])] + UuidTexts(data[n..], size)
  }

  function UuidsOf(p: Option<Property>): seq<string> {
    if p.Some? && p.value.Uuids? then p.value.uuids else []
  }

  function ServicesOf(p: Option<Property>): seq<ServiceData> {
    if p.Some? && p.value.Services? then p.value.services else []
  }

  function ServiceOf(t: byte, data: seq<byte>): ServiceData {
    var n := Min(UuidSize(t), |data|);
    ServiceData(UuidText(data[..n]), data[n..])
  }

  function SignedByte(b: byte): int {
    if b < 0x80 then b else b - 0x100
  }

  /** What a field makes of its property: a throw, or the property's new value. */
  datatype Change = Thrown | Now(property: Option<Property>)

  /** `parseField` for a type `build` knows. */
  function Absorb(t: byte, data: seq<byte>, before: Option<Property>): Change {
    if t == FLAGS then Now(if data == [] then None else Some(Flags(data[0])))
    else if IsUuidList(t) then Now(Some(Uuids(UuidsOf(before) + UuidTexts(data, UuidSize(t)))))
    else if IsName(t) then Now(Some(Name(data)))
    else if IsServiceData(t) then Now(Some(Services(ServicesOf(before) + [ServiceOf(t, data)])))
    else if t == TX_POWER_LEVEL then if data == [] then Thrown else Now(Some(TxPower(SignedByte(data[0]))))
    else if |data| < 2 then Thrown
    else if t == APPEARANCE then
      var value := ReadLe16(data, 0);
      Now(Some(Look(Appearance(value / 64, value % 64, value))))
    else
      Now(Some(Maker(ReadLe16(data, 0), data[2..])))
  }

  function At(known: map<byte, Property>, t: byte): Option<Property> {
    if t in known then Some(known[t]) else None
  }

  function With(known: map<byte, Property>, t: byte, p: Option<Property>): map<byte, Property> {
    if p.Some? then known[t := p.value] else known - {t}
  }

  function Absorbed(ad: AdvData, f: Field): Option<AdvData> {
    if f.kind in ORDER then
      match Absorb(f.kind, f.data, At(ad.known, f.kind))
      case Thrown => None
      case Now(p) => Some(AdvData(With(ad.known, f.kind, p), ad.unparsed))
    else
      var others := if ad.unparsed.Some? then ad.unparsed.value else map[];
      Some(AdvData(ad.known, Some(others[f.kind := f.data])))
  }

  function AbsorbAll(ad: AdvData, fields: seq<Field>): Option<AdvData>
    decreases |fields|
  {
    if fields == [] then Some(ad) else
      match Absorbed(ad, fields[0])
      case None => None
      case Some(next) => AbsorbAll(next, fields[1..])
  }

  const EMPTY := AdvData(map[], None)

  function Parsed(b: seq<byte>): Option<AdvData> {
    AbsorbAll(EMPTY, Split(b))
  }

  // ----- splitting undoes joining -----

  predicate Short(fields: seq<Field>) {
    forall i :: 0 <= i < |fields| ==> |fields[i].data| <= 254
  }

  lemma SplitField(f: Field, behind: seq<byte>)
    requires |f.data| <= 254
    ensures Split(FieldBytes(f) + behind) == [f] + Split(behind)
  {
    var b := FieldBytes(f) + behind;
    assert b[0] == |f.data| + 1 && b[1] == f.kind;
    assert b[2..2 + |f.data|] == f.data && b[2 + |f.data|..] == behind;
  }

  /** Splitting distributes over any fields short enough for their length byte, whatever follows. */
  lemma {:induction false} SplitJoined(fields: seq<Field>, rest: seq<byte>)
    requires Short(fields)
    ensures Split(Join(fields) + rest) == fields + Split(rest)
  {
    if fields == [] {
      assert [] + rest == rest;
    } else {
      Regroup(FieldBytes(fields[0]), Join(fields[1..]), rest);
      SplitField(fields[0], Join(fields[1..]) + rest);
      SplitJoined(fields[1..], rest);
      assert [fields[0]] + fields[1..] == fields;
      Regroup([fields[0]], fields[1..], Split(rest));
    }
  }

  lemma {:induction false} AbsorbAppend(ad: AdvData, a: seq<Field>, b: seq<Field>)
    ensures AbsorbAll(ad, a + b) ==
      match AbsorbAll(ad, a)
      case None => None
      case Some(next) => AbsorbAll(next, b)
    decreases |a|
  {
    if a == [] {
      assert a + b == b;
    } else {
      assert (a + b)[1..] == a[1..] + b;
      if Absorbed(ad, a[0]).Some? {
        AbsorbAppend(Absorbed(ad, a[0]).value, a[1..], b);
      }
    }
  }

  // ----- AdvData.parse -----

  /** Where a field's data lies: `parse` keeps views of its argument, not copies. */
  datatype Span = Span(kind: byte, from: nat, to: nat)

  /** The spans of the fields from offset `o` on. */
  function Scan(b: seq<byte>, o: nat): (r: seq<Span>)
    ensures forall i :: 0 <= i < |r| ==> o <= r[i].from <= r[i].to <= |b|
    ensures forall i, j :: 0 <= i < j < |r| ==> r[i].to <= r[j].from
    decreases if o < |b| then |b| - o else 0
  {
    if o + 2 > |b| then []
    else if b[o] == 0 then Scan(b, o + 1)
    else
      var len: nat := b[o];
      [Span(b[o + 1], o + 2, Min(o + 1 + len, |b|))] + Scan(b, o + 1 + len)
  }

  function FieldAt(b: seq<byte>, s: Span): Field
    requires s.from <= s.to <= |b|
  {
    Field(s.kind, b[s.from..s.to])
  }

  function FieldsAtSpans(b: seq<byte>, spans: seq<Span>): (r: seq<Field>)
    requires forall i :: 0 <= i < |spans| ==> spans[i].from <= spans[i].to <= |b|
    ensures |r| == |spans| && forall i :: 0 <= i < |spans| ==> r[i] == FieldAt(b, spans[i])
  {
    seq(|spans|, i requires 0 <= i < |spans| => FieldAt(b, spans[i]))
  }

  lemma SpansNext(b: seq<byte>, s: Span, rest: seq<Span>)
    requires s.from <= s.to <= |b| && forall i :: 0 <= i < |rest| ==> rest[i].from <= rest[i].to <= |b|
    ensures FieldsAtSpans(b, [s] + rest) == [FieldAt(b, s)] + FieldsAtSpans(b, rest)
  {
  }

  lemma SplitAt(b: seq<byte>, o: nat)
    requires o + 2 <= |b| && b[o] != 0
    ensures var to := Min(o + 1 + b[o] as nat, |b|);
      to >= o + 2 && Split(b[o..]) == [Field(b[o + 1], b[o + 2..to])] + Split(b[to..])
  {
    var to := Min(o + 1 + b[o] as nat, |b|);
    Slices(b, o, to, |b|);
    Slices(b, o, o + 2, to);
    assert b[o..][2..to - o] == b[o + 2..to] && b[o..] == b[o..|b|];
  }

  lemma {:induction false} ScanSplits(b: seq<byte>, o: nat)
    requires o <= |b|
    ensures FieldsAtSpans(b, Scan(b, o)) == Split(b[o..])
    decreases |b| - o
  {
    if o + 2 > |b| {
    } else if b[o] == 0 {
      ScanSplits(b, o + 1);
      assert b[o..][1..] == b[o + 1..];
    } else {
      var to := Min(o + 1 + b[o] as nat, |b|);
      SplitAt(b, o);
      SpansNext(b, Span(b[o + 1], o + 2, to), Scan(b, to));
      ScanPastEnd(b, o);
      ScanSplits(b, to);
    }
  }

  /** A last field cut short ends the scan as one that ends with the buffer does. */
  lemma ScanPastEnd(b: seq<byte>, o: nat)
    requires o + 2 <= |b| && b[o] != 0
    ensures var to := Min(o + 1 + b[o] as nat, |b|); Scan(b, o) == [Span(b[o + 1], o + 2, to)] + Scan(b, to)
  {
  }

  /** A list of UUIDs with the bytes of each in the opposite order. */
  function TurnEach(data: seq<byte>, size: nat): (r: seq<byte>)
    requires size > 0
    ensures |r| == |data|
  {
    if data == [] then [] else
      var n := Min(size, |data|);
      Reversed(data[..n]) + TurnEach(data[n..], size)
  }

  /** What parsing leaves of a field's data: `reverse` turns UUIDs round where they lie. */
  function Turned(t: byte, data: seq<byte>): (r: seq<byte>)
    ensures |r| == |data|
  {
    if IsUuidList(t) then TurnEach(data, UuidSize(t))
    else if IsServiceData(t) then
      var n := Min(UuidSize(t), |data|);
      Reversed(data[..n]) + data[n..]
    else data
  }

  function TurnedAt(b: seq<byte>, s: Span): (r: seq<byte>)
    requires s.from <= s.to <= |b|
    ensures |r| == |b|
  {
    b[..s.from] + Turned(s.kind, b[s.from..s.to]) + b[s.to..]
  }

  function TurnedAll(b: seq<byte>, spans: seq<Span>, n: nat): (r: seq<byte>)
    requires n <= |spans| && forall i :: 0 <= i < |spans| ==> spans[i].from <= spans[i].to <= |b|
    ensures |r| == |b|
  {
    if n == 0 then b else TurnedAt(TurnedAll(b, spans, n - 1), spans[n - 1])
  }

  lemma TurnedBehind(b: seq<byte>, s: Span, from: nat)
    requires s.from <= s.to <= from <= |b|
    ensures TurnedAt(b, s)[from..] == b[from..]
  {
    var before := b[..s.from] + Turned(s.kind, b[s.from..s.to]);
    assert |before| == s.to && TurnedAt(b, s) == before + b[s.to..];
  }

  /** Bytes behind the spans turned so far are as they were. */
  lemma {:induction false} TurnedBefore(b: seq<byte>, spans: seq<Span>, n: nat, from: nat)
    requires n <= |spans| && from <= |b|
    requires forall i :: 0 <= i < |spans| ==> spans[i].from <= spans[i].to <= |b|
    requires forall i :: 0 <= i < n ==> spans[i].to <= from
    ensures TurnedAll(b, spans, n)[from..] == b[from..]
  {
    hide TurnedAt;
    if n > 0 {
      TurnedBefore(b, spans, n - 1, from);
      TurnedBehind(TurnedAll(b, spans, n - 1), spans[n - 1], from);
    }
  }

  /** `buffer.subarray(from, to).reverse().toString('hex')`: the view is turned round in place. */
  method ReadUuid(buffer: array<byte>, from: nat, to: nat) returns (uuid: string)
    requires from <= to <= buffer.Length
    modifies buffer
    ensures uuid == UuidText(old(buffer[from..to]))
    ensures buffer[..] == old(buffer[..from]) + Reversed(old(buffer[from..to])) + old(buffer[to..])
  {
    ghost var (before, view, after) := (buffer[..from], buffer[from..to], buffer[to..]);
    forall k | from <= k < to {
      buffer[k] := buffer[from + to - 1 - k];
    }
    assert buffer[..from] == before && buffer[from..to] == Reversed(view) && buffer[to..] == after;
    assert buffer[..] == buffer[..from] + buffer[from..to] + buffer[to..];
    uuid := HexText(buffer[from..to]);
  }

  lemma NextText(b: seq<byte>, i: nat, end: nat, to: nat, size: nat, uuids: seq<string>)
    requires i < to <= |b| && size > 0 && end == Min(i + size, to)
    ensures uuids + UuidTexts(b[i..to], size) == uuids + [UuidText(b[i..end])] + UuidTexts(b[end..to], size)
  {
    Slices(b, i, end, to);
    Regroup(uuids, [UuidText(b[i..end])], UuidTexts(b[end..to], size));
  }

  lemma NextTurned(b: seq<byte>, i: nat, end: nat, to: nat, size: nat, done: seq<byte>)
    requires i < to <= |b| && size > 0 && end == Min(i + size, to)
    ensures done + TurnEach(b[i..to], size) == done + Reversed(b[i..end]) + TurnEach(b[end..to], size)
  {
    Slices(b, i, end, to);
    Regroup(done, Reversed(b[i..end]), TurnEach(b[end..to], size));
  }

  lemma Grown(head: seq<byte>, done: seq<byte>, b: seq<byte>, i: nat, end: nat)
    requires i == |head| + |done| && i <= end <= |b|
    ensures var now := head + done + b[i..];
      && now[i..end] == b[i..end]
      && now[..i] + Reversed(b[i..end]) + now[end..] == head + (done + Reversed(b[i..end])) + b[end..]
  {
    var now := head + done + b[i..];
    assert now[..i] == head + done && now[i..end] == b[i..end] && now[end..] == b[end..];
    Regroup(head, done, Reversed(b[i..end]));
  }

  /** `parseServiceClassUuids` on the view from `from` to `to`. */
  method ParseUuids(buffer: array<byte>, from: nat, to: nat, size: nat) returns (uuids: seq<string>)
    requires from <= to <= buffer.Length && size > 0
    modifies buffer
    ensures uuids == UuidTexts(old(buffer[from..to]), size)
    ensures buffer[..] == old(buffer[..from]) + TurnEach(old(buffer[from..to]), size) + old(buffer[to..])
  {
    ghost var b := buffer[..];
    ghost var (head, texts, turned) := (b[..from], UuidTexts(b[from..to], size), TurnEach(b[from..to], size));
    ghost var done: seq<byte> := [];
    uuids := [];
    var i: nat := from;
    assert uuids + texts == texts && done + turned == turned && buffer[..] == head + done + b[i..];
    assert buffer[..from] == head && buffer[from..to] == b[from..to] && buffer[to..] == b[to..];
    while i < to
      invariant from <= i <= to && |done| == i - from
      invariant buffer[..] == head + done + b[i..]
      invariant texts == uuids + UuidTexts(b[i..to], size)
      invariant turned == done + TurnEach(b[i..to], size)
    {
      var end := Min(i + size, to);
      Grown(head, done, b, i, end);
      NextText(b, i, end, to, size, uuids);
      NextTurned(b, i, end, to, size, done);
      ghost var now := buffer[..];
      assert buffer[..i] == now[..i] && buffer[i..end] == now[i..end] && buffer[end..] == now[end..];
      var uuid := ReadUuid(buffer, i, end);
      uuids := uuids + [uuid];
      done := done + Reversed(b[i..end]);
      i := end;
    }
    assert done + [] == done && uuids + [] == uuids;
  }

  /** `parseField`, one case of its switch for each kind of property. */
  method ParseField(ad: AdvData, buffer: array<byte>, s: Span) returns (r: Option<AdvData>)
    requires s.from <= s.to <= buffer.Length
    modifies buffer
    ensures r == Absorbed(ad, FieldAt(old(buffer[..]), s))
    ensures r.Some? ==> buffer[..] == TurnedAt(old(buffer[..]), s)
  {
    ghost var b := buffer[..];
    var t := s.kind;
    var before := At(ad.known, t);
    var data := buffer[s.from..s.to];
    HoldsIsOrdered(t);
    assert FieldAt(b, s) == Field(t, data);
    assert buffer[..] == b[..s.from] + data + b[s.to..];
    hide UuidTexts, TurnEach, ServiceOf;
    var p: Property;
    if t == FLAGS {
      if data == [] {
        return Some(AdvData(ad.known - {t}, ad.unparsed));
      }
      p := Flags(data[0]);
    } else if IsUuidList(t) {
      var uuids := ParseUuids(buffer, s.from, s.to, UuidSize(t));
      p := Uuids(UuidsOf(before) + uuids);
    } else if IsName(t) {
      p := Name(data);
    } else if t == TX_POWER_LEVEL {
      if data == [] {
        return None;
      }
      p := TxPower(SignedByte(data[0]));
    } else if IsServiceData(t) {
      var service := ParseServiceData(buffer, s);
      p := Services(ServicesOf(before) + [service]);
    } else if t == APPEARANCE {
      if |data| < 2 {
        return None;
      }
      var value := ReadLe16(data, 0);
      p := Look(Appearance(value / 64 % 0x400, value % 64, value));
    } else if t == MANUFACTURER_DATA {
      if |data| < 2 {
        return None;
      }
      p := Maker(ReadLe16(data, 0), data[2..]);
    } else {
      var others := if ad.unparsed.Some? then ad.unparsed.value else map[];
      return Some(AdvData(ad.known, Some(others[t := data])));
    }
    return Some(AdvData(ad.known[t := p], ad.unparsed));
  }

  lemma TurnedService(b: seq<byte>, s: Span, end: nat)
    requires s.from <= s.to <= |b| && IsServiceData(s.kind) && end == Min(s.from + UuidSize(s.kind), s.to)
    ensures TurnedAt(b, s) == b[..s.from] + Reversed(b[s.from..end]) + b[end..]
  {
    var (head, uuid, data, tail) := (b[..s.from], Reversed(b[s.from..end]), b[end..s.to], b[s.to..]);
    Slices(b, s.from, end, s.to);
    assert b[end..] == data + tail;
    Regroup(head + uuid, data, tail);
    Regroup(head, uuid, data);
  }

  lemma ServiceInView(b: seq<byte>, s: Span, end: nat)
    requires s.from <= s.to <= |b| && IsServiceData(s.kind) && end == Min(s.from + UuidSize(s.kind), s.to)
    ensures ServiceOf(s.kind, b[s.from..s.to]) == ServiceData(UuidText(b[s.from..end]), b[end..s.to])
  {
    Slices(b, s.from, end, s.to);
  }

  /** The service data cases of `parseField`. */
  method ParseServiceData(buffer: array<byte>, s: Span) returns (service: ServiceData)
    requires s.from <= s.to <= buffer.Length && IsServiceData(s.kind)
    modifies buffer
    ensures service == ServiceOf(s.kind, old(buffer[s.from..s.to]))
    ensures buffer[..] == TurnedAt(old(buffer[..]), s)
  {
    var end := Min(s.from + UuidSize(s.kind), s.to);
    ghost var b := buffer[..];
    assert b[s.from..s.to] == buffer[s.from..s.to] && b[s.from..end] == buffer[s.from..end];
    assert b[..s.from] == buffer[..s.from] && b[end..] == buffer[end..];
    TurnedService(b, s, end);
    ServiceInView(b, s, end);
    hide HexText, Reversed;
    var data := buffer[end..s.to];
    assert data == b[end..s.to];
    var uuid := ReadUuid(buffer, s.from, end);
    service := ServiceData(uuid, data);
  }

  /** When its turn comes, a field's view still shows what it showed at first. */
  lemma ViewKept(b: seq<byte>, spans: seq<Span>, i: nat)
    requires i < |spans| && forall j :: 0 <= j < |spans| ==> spans[j].from <= spans[j].to <= |b|
    requires forall j :: 0 <= j < i ==> spans[j].to <= spans[i].from
    ensures FieldAt(TurnedAll(b, spans, i), spans[i]) == FieldsAtSpans(b, spans)[i]
  {
    var (now, s) := (TurnedAll(b, spans, i), spans[i]);
    TurnedBefore(b, spans, i, s.from);
    assert now[s.from..s.to] == now[s.from..][..s.to - s.from];
    assert b[s.from..s.to] == b[s.from..][..s.to - s.from];
  }

  lemma NextAbsorbed(ad: AdvData, fields: seq<Field>, i: nat)
    requires i < |fields|
    ensures AbsorbAll(ad, fields[i..]) ==
      match Absorbed(ad, fields[i])
      case None => None
      case Some(next) => AbsorbAll(next, fields[i + 1..])
  {
    assert fields[i..][1..] == fields[i + 1..];
  }

  /**
    `AdvData.parse`: what the bytes mean, None where reading a short field throws. The buffer is
    left with every UUID turned round.
   */
  method Parse(buffer: array<byte>) returns (r: Option<AdvData>)
    modifies buffer
    ensures r == Parsed(old(buffer[..]))
    ensures r.Some? ==> var spans := Scan(old(buffer[..]), 0); buffer[..] == TurnedAll(old(buffer[..]), spans, |spans|)
  {
    var fields := FindSpans(buffer);
    ghost var b := buffer[..];
    ScanSplits(b, 0);
    assert b[0..] == b;
    r := ParseFields(buffer, fields);
  }

  /** The second loop of `parse`, over spans in order. */
  method ParseFields(buffer: array<byte>, fields: seq<Span>) returns (r: Option<AdvData>)
    requires forall i :: 0 <= i < |fields| ==> fields[i].from <= fields[i].to <= buffer.Length
    requires forall i, j :: 0 <= i < j < |fields| ==> fields[i].to <= fields[j].from
    modifies buffer
    ensures r == AbsorbAll(EMPTY, FieldsAtSpans(old(buffer[..]), fields))
    ensures r.Some? ==> buffer[..] == TurnedAll(old(buffer[..]), fields, |fields|)
  {
    ghost var b := buffer[..];
    ghost var views := FieldsAtSpans(b, fields);
    var ad := EMPTY;
    assert views[0..] == views;
    for i := 0 to |fields|
      invariant AbsorbAll(EMPTY, views) == AbsorbAll(ad, views[i..])
      invariant buffer[..] == TurnedAll(b, fields, i)
    {
      ViewKept(b, fields, i);
      NextAbsorbed(ad, views, i);
      var next := ParseField(ad, buffer, fields[i]);
      if next.None? {
        return None;
      }
      ad := next.value;
    }
    return Some(ad);
  }

  /** The first loop of `parse`. */
  method FindSpans(buffer: array<byte>) returns (fields: seq<Span>)
    ensures fields == Scan(buffer[..], 0)
  {
    fields := [];
    var o: nat := 0;
    ghost var b := buffer[..];
    ghost var all := Scan(b, o);
    assert fields + all == all;
    while o < buffer.Length
      invariant all == fields + Scan(b, o)
      decreases buffer.Length - o
    {
      var len: nat := buffer[o];
      o := o + 1;
      if len == 0 || o >= buffer.Length {
        continue;
      }
      var t := buffer[o];
      o := o + 1;
      var s := Span(t, o, Min(o + (len - 1), buffer.Length));
      o := o + (len - 1);
      Regroup(fields, [s], Scan(b, o));
      fields := fields + [s];
    }
    assert fields + [] == fields;
  }
}
