/**
  Advertising data byte by byte: how each kind of field is laid out, what several fields mean together, and
  what `AdvData.build` writes for objects that do not come back.
 */
module AdvertisingFields {
  import opened Advertising
  import opened AdvertisingRoundTrip
  import opened Buffers
  import opened Bytes

  // ----- UUID texts -----

  const DIGITS := "0123456789abcdef"

  lemma DigitIs(n: nat)
    requires n < 16
    ensures HexDigit(n) == DIGITS[n]
  {
    assert n in {0, 1, 2, 3, 4, 5, 6, 7} || n in {8, 9, 10, 11, 12, 13, 14, 15};
  }

  lemma {:induction false} HexTextAt(b: seq<byte>, i: nat)
    requires i < |b|
    ensures HexText(b)[2 * i] == DIGITS[b[i] / 16] && HexText(b)[2 * i + 1] == DIGITS[b[i] % 16]
  {
    DigitIs(b[i] / 16);
    DigitIs(b[i] % 16);
    if i > 0 {
      HexTextAt(b[1..], i - 1);
      assert HexText(b)[2..] == HexText(b[1..]);
    }
  }

  /** The text of a UUID shows its last byte first, each byte as two lower-case digits. */
  lemma UuidTextAt(b: seq<byte>, i: nat)
    requires i < |b|
    ensures |UuidText(b)| == 2 * |b|
    ensures var at := 2 * (|b| - 1 - i);
      UuidText(b)[at] == DIGITS[b[i] / 16] && UuidText(b)[at + 1] == DIGITS[b[i] % 16]
  {
    HexTextAt(Reversed(b), |b| - 1 - i);
  }

  function Lower(c: char): char {
    if 'A' <= c <= 'F' then (c as int + 32) as char else c
  }

  function Lowered(text: string): (r: string)
    ensures |r| == |text| && forall i :: 0 <= i < |text| ==> r[i] == Lower(text[i])
  {
    seq(|text|, i requires 0 <= i < |text| => Lower(text[i]))
  }

  /** Upper-case digits are read as lower-case ones. */
  lemma {:induction false} CaseIsIgnored(text: string)
    ensures UuidBytes(Lowered(text)) == UuidBytes(text)
  {
    PairsIgnoreCase(text);
  }

  lemma {:induction false} PairsIgnoreCase(text: string)
    ensures PairValues(Lowered(text)) == PairValues(text)
  {
    if |text| >= 2 {
      assert Lowered(text)[..2] == Lowered(text[..2]) && Lowered(text)[2..] == Lowered(text[2..]);
      PairsIgnoreCase(text[2..]);
    }
  }

  lemma IsDigit(c: char)
    ensures DigitValue(c).Some? ==> Lower(c) in DIGITS
    ensures forall n :: 0 <= n < 16 && c == DIGITS[n] ==> DigitValue(c) == Some(n)
  {
    if DigitValue(c).Some? {
      DigitIs(DigitValue(c).value);
    }
    forall n | 0 <= n < 16 && c == DIGITS[n] ensures DigitValue(c) == Some(n) {
      DigitIs(n);
    }
  }

  /** A digit alone, or before something that is none, is a byte; anything else is a zero byte. */
  lemma OddTexts(high: char, low: char)
    requires Lower(low) !in DIGITS
    ensures Lower(high) !in DIGITS ==> UuidBytes([high]) == UuidBytes([high, low]) == [0]
    ensures forall n :: 0 <= n < 16 && high == DIGITS[n] ==> UuidBytes([high]) == UuidBytes([high, low]) == [n]
  {
    IsDigit(high);
    IsDigit(low);
    hide DigitValue;
    PairAlone([high]);
    PairAlone([high, low]);
  }

  lemma PairAlone(text: string)
    requires 1 <= |text| <= 2
    ensures UuidBytes(text) == [PairValue(text)]
  {
    assert text[..|text|] == text;
    if |text| == 2 {
      assert PairValues(text[2..]) == [];
    }
  }

  // ----- one field -----

  /** A field as it lies in the buffer. */
  function Laid(f: Field): seq<byte>
    requires |f.data| <= 254
  {
    [|f.data| + 1, f.kind] + f.data
  }

  lemma OneField(f: Field)
    requires |f.data| <= 254
    ensures Parsed(Laid(f)) == Absorbed(EMPTY, f)
  {
    assert Laid(f) == FieldBytes(f) && FieldBytes(f) + [] == FieldBytes(f);
    SplitField(f, []);
    assert [f] + [] == [f];
    assert AbsorbAll(EMPTY, [f]) == Absorbed(EMPTY, f) by {
      hide Absorbed;
      assert [f][1..] == [];
    }
  }

  function Only(t: byte, p: Property): Option<AdvData> {
    Some(AdvData(map[t := p], None))
  }

  /** The types of the lists and of the service data, with the size of their UUIDs. */
  predicate ListType(t: byte, size: nat) {
    (t in {0x02, 0x03, 0x14} && size == 2) || (t in {0x04, 0x05, 0x1f} && size == 4) ||
    (t in {0x06, 0x07, 0x15} && size == 16)
  }

  predicate ServiceType(t: byte, size: nat) {
    (t == 0x16 && size == 2) || (t == 0x20 && size == 4) || (t == 0x21 && size == 16)
  }

  function Texts(uuids: seq<seq<byte>>): (r: seq<string>)
    ensures |r| == |uuids| && forall i :: 0 <= i < |uuids| ==> r[i] == UuidText(uuids[i])
  {
    seq(|uuids|, i requires 0 <= i < |uuids| => UuidText(uuids[i]))
  }

  /** UUIDs of one size, except that the last may be cut short. */
  predicate Sized(uuids: seq<seq<byte>>, size: nat) {
    forall i :: 0 <= i < |uuids| ==> |uuids[i]| == size || (i == |uuids| - 1 && 0 < |uuids[i]| <= size)
  }

  lemma {:induction false} TextsRead(uuids: seq<seq<byte>>, size: nat)
    requires size > 0 && Sized(uuids, size)
    ensures UuidTexts(Flatten(uuids), size) == Texts(uuids)
  {
    if uuids != [] {
      var (first, rest) := (uuids[0], uuids[1..]);
      assert forall i :: 0 <= i < |rest| ==> rest[i] == uuids[i + 1];
      TextsRead(rest, size);
      if |rest| == 0 {
        assert first + [] == first;
      }
      assert (first + Flatten(rest))[..|first|] == first && (first + Flatten(rest))[|first|..] == Flatten(rest);
    }
  }

  /** A list field holds the texts of its UUIDs in order. */
  lemma UuidListIsRead(t: byte, size: nat, uuids: seq<seq<byte>>)
    requires ListType(t, size) && Sized(uuids, size) && |Flatten(uuids)| <= 254
    ensures Parsed(Laid(Field(t, Flatten(uuids)))) == Only(t, Uuids(Texts(uuids)))
  {
    TextsRead(uuids, size);
    OneField(Field(t, Flatten(uuids)));
    HoldsIsOrdered(t);
    assert [] + Texts(uuids) == Texts(uuids);
  }

  /** A service data field holds the text of its UUID and what follows. */
  lemma ServiceDataIsRead(t: byte, size: nat, uuid: seq<byte>, data: seq<byte>)
    requires ServiceType(t, size) && |uuid + data| <= 254
    requires |uuid| == size || (|uuid| < size && data == [])
    ensures Parsed(Laid(Field(t, uuid + data))) == Only(t, Services([ServiceData(UuidText(uuid), data)]))
  {
    OneField(Field(t, uuid + data));
    HoldsIsOrdered(t);
    assert (uuid + data)[..|uuid|] == uuid && (uuid + data)[|uuid|..] == data;
    assert [] + [ServiceData(UuidText(uuid), data)] == [ServiceData(UuidText(uuid), data)];
  }

  lemma NameIsRead(t: byte, name: seq<byte>)
    requires t in {0x08, 0x09} && |name| <= 254
    ensures Parsed(Laid(Field(t, name))) == Only(t, Name(name))
  {
    OneField(Field(t, name));
    HoldsIsOrdered(t);
  }

  /** Flags and transmit power are their first byte, the power a signed one; without it only the power throws. */
  lemma NumbersAreRead(v: byte, more: seq<byte>)
    requires |more| <= 253
    ensures Parsed(Laid(Field(0x01, [v] + more))) == Only(0x01, Flags(v))
    ensures Parsed(Laid(Field(0x0a, [v] + more))) == Only(0x0a, TxPower(if v < 128 then v else v - 256))
    ensures Parsed(Laid(Field(0x01, []))) == Some(AdvData(map[], None))
    ensures Parsed(Laid(Field(0x0a, []))).None?
  {
    OneField(Field(0x01, [v] + more));
    OneField(Field(0x0a, [v] + more));
    OneField(Field(0x01, []));
    OneField(Field(0x0a, []));
    HoldsIsOrdered(0x01);
    HoldsIsOrdered(0x0a);
  }

  /** Appearance and manufacturer begin with a number of two bytes, low byte first; without both they throw. */
  lemma WordsAreRead(t: byte, low: byte, high: byte, more: seq<byte>)
    requires t in {0x19, 0xff} && |more| <= 252
    ensures var value := low + 0x100 * (high as int);
      Parsed(Laid(Field(t, [low, high] + more))) == Only(t,
        if t == 0x19 then Look(Appearance(value / 64, value % 64, value)) else Maker(value, more))
    ensures Parsed(Laid(Field(t, [low]))).None? && Parsed(Laid(Field(t, []))).None?
  {
    OneField(Field(t, [low, high] + more));
    OneField(Field(t, [low]));
    OneField(Field(t, []));
    HoldsIsOrdered(t);
    assert ([low, high] + more)[2..] == more;
  }

  /** The data of any other type is kept as it is. */
  lemma OthersAreKept(f: Field)
    requires |f.data| <= 254
    requires !(0x01 <= f.kind <= 0x0a) && f.kind !in {0x14, 0x15, 0x16, 0x19, 0x1f, 0x20, 0x21, 0xff}
    ensures Parsed(Laid(f)) == Some(AdvData(map[], Some(map[f.kind := f.data])))
  {
    OneField(f);
    HoldsIsOrdered(f.kind);
  }

  // ----- several fields -----

  function LaidAll(fields: seq<Field>): seq<byte>
    requires Short(fields)
  {
    Flatten(seq(|fields|, i requires 0 <= i < |fields| => Laid(fields[i])))
  }

  lemma {:induction false} LaidIsJoined(fields: seq<Field>)
    requires Short(fields)
    ensures LaidAll(fields) == Join(fields)
  {
    var parts := seq(|fields|, i requires 0 <= i < |fields| => Laid(fields[i]));
    if fields == [] {
      assert parts == [];
    } else {
      var rest := fields[1..];
      LaidIsJoined(rest);
      assert parts[1..] == seq(|rest|, i requires 0 <= i < |rest| => Laid(rest[i]));
      assert parts[0] == FieldBytes(fields[0]);
    }
  }

  lemma FieldsAreFound(fields: seq<Field>, rest: seq<byte>)
    requires Short(fields)
    ensures Parsed(LaidAll(fields) + rest) == AbsorbAll(EMPTY, fields + Split(rest))
  {
    LaidIsJoined(fields);
    SplitJoined(fields, rest);
  }

  /** What a property that is there becomes with a further field: lists grow, the rest is replaced. */
  function Grown(was: Property, more: Property): Property {
    if was.Uuids? && more.Uuids? then Uuids(was.uuids + more.uuids)
    else if was.Services? && more.Services? then Services(was.services + more.services)
    else more
  }

  /** One more field's meaning added to that of the fields before it. */
  function Combined(all: AdvData, one: AdvData, t: byte): AdvData {
    AdvData(
      if t in one.known then all.known[t := if t in all.known then Grown(all.known[t], one.known[t]) else one.known[t]]
      else if one.unparsed.Some? then all.known else all.known - {t},
      if one.unparsed.Some? then
        Some((if all.unparsed.Some? then all.unparsed.value else map[]) + one.unparsed.value)
      else all.unparsed)
  }

  lemma ParsedAll(fields: seq<Field>)
    requires Short(fields)
    ensures Parsed(LaidAll(fields)) == AbsorbAll(EMPTY, fields)
  {
    FieldsAreFound(fields, []);
    assert LaidAll(fields) + [] == LaidAll(fields) && fields + [] == fields;
  }

  lemma AddsItsMeaning(all: AdvData, f: Field)
    ensures Absorbed(all, f).Some? <==> Absorbed(EMPTY, f).Some?
    ensures Absorbed(all, f).Some? ==> Absorbed(all, f).value == Combined(all, Absorbed(EMPTY, f).value, f.kind)
  {
    if f.kind in ORDER {
      Grows(f.kind, f.data, At(all.known, f.kind));
      hide Absorb, Grown;
      if Absorbed(EMPTY, f).Some? {
        assert Absorbed(EMPTY, f).value.unparsed.None?;
      }
    } else {
      var others := if all.unparsed.Some? then all.unparsed.value else map[];
      assert others[f.kind := f.data] == others + map[f.kind := f.data];
    }
  }

  lemma Grows(t: byte, data: seq<byte>, before: Option<Property>)
    ensures Absorb(t, data, before) ==
      match Absorb(t, data, None)
      case Thrown => Thrown
      case Now(None) => Now(None)
      case Now(Some(p)) => Now(Some(if before.Some? then Grown(before.value, p) else p))
  {
    if IsUuidList(t) {
      var texts := UuidTexts(data, UuidSize(t));
      assert [] + texts == texts;
    } else if IsServiceData(t) {
      var services := [ServiceOf(t, data)];
      assert [] + services == services;
    }
  }

  /** A field adds its own meaning to that of the fields before it; one that throws makes the whole throw. */
  lemma FieldsCombine(fields: seq<Field>, f: Field)
    requires Short(fields) && |f.data| <= 254
    ensures Short(fields + [f])
    ensures var (all, before, one) := (Parsed(LaidAll(fields + [f])), Parsed(LaidAll(fields)), Parsed(Laid(f)));
      && (all.Some? <==> before.Some? && one.Some?)
      && (all.Some? ==> all.value == Combined(before.value, one.value, f.kind))
  {
    ParsedAll(fields + [f]);
    ParsedAll(fields);
    OneField(f);
    AbsorbAppend(EMPTY, fields, [f]);
    hide Absorbed, Combined, Parsed, LaidAll, Laid;
    if AbsorbAll(EMPTY, fields).Some? {
      var before := AbsorbAll(EMPTY, fields).value;
      assert AbsorbAll(before, [f]) == Absorbed(before, f) by {
        assert [f][1..] == [];
      }
      AddsItsMeaning(before, f);
    }
  }

  /** Zeros between fields are skipped, a lone last byte is too, and a last field cut short is what there is of it. */
  lemma OddBytesAreSkipped(fields: seq<Field>, rest: seq<byte>, n: byte, f: Field)
    requires Short(fields) && |f.data| + 1 < n as int
    ensures Parsed(LaidAll(fields) + ([0] + rest)) == Parsed(LaidAll(fields) + rest)
    ensures Parsed(LaidAll(fields) + [n]) == Parsed(LaidAll(fields))
    ensures Short(fields + [f]) && Parsed(LaidAll(fields) + ([n, f.kind] + f.data)) == Parsed(LaidAll(fields + [f]))
  {
    FieldsAreFound(fields, [0] + rest);
    FieldsAreFound(fields, rest);
    FieldsAreFound(fields, [n]);
    FieldsAreFound(fields, [n, f.kind] + f.data);
    ParsedAll(fields);
    ParsedAll(fields + [f]);
    SplitOdd(rest, n, f);
    assert fields + [] == fields;
    hide Split, Parsed, AbsorbAll, LaidAll;
  }

  lemma SplitOdd(rest: seq<byte>, n: byte, f: Field)
    requires |f.data| + 1 < n as int
    ensures Split([0] + rest) == Split(rest) && Split([n]) == [] && Split([n, f.kind] + f.data) == [f]
  {
    assert ([0] + rest)[1..] == rest;
    var b := [n, f.kind] + f.data;
    assert b[2..|b|] == f.data && b[|b|..] == [];
    if rest == [] {
      assert Split([0] + rest) == [];
    }
  }

  // ----- what is built -----

  /** The order of the fields: the types of the properties, as they are written one after the other. */
  const WRITTEN: seq<byte> := [
    0x01, 0x02, 0x03, 0x04, 0x05, 0x06, 0x07, 0x09, 0x08, 0x0a, 0x14, 0x1f, 0x15, 0x16, 0x19, 0x20, 0x21, 0xff
  ]

  /** What is written of one type. */
  function BuiltOf(ad: AdvData, t: byte): Option<seq<byte>> {
    if t in ad.known then Built(AdvData(map[t := ad.known[t]], None)) else Some([])
  }

  function Concatenated(parts: seq<Option<seq<byte>>>): Option<seq<byte>> {
    if parts == [] then Some([])
    else if parts[0].None? || Concatenated(parts[1..]).None? then None
    else Some(parts[0].value + Concatenated(parts[1..]).value)
  }

  lemma {:induction false} FieldsForOther(ad: AdvData, t: byte, types: seq<byte>)
    requires ad.known.Keys == {t} && t !in types
    ensures FieldsFor(ad, types) == Some([])
  {
    if types != [] {
      assert types[0] in types;
      FieldsForOther(ad, t, types[1..]);
      assert FieldsAt(ad, types[0]) == Some([]);
      var none: seq<Field> := [];
      assert none + none == none;
    }
  }

  lemma {:induction false} FieldsForOne(ad: AdvData, t: byte, types: seq<byte>)
    requires ad.known.Keys == {t} && t in types && Distinct(types)
    ensures FieldsFor(ad, types) == FieldsOf(t, ad.known[t])
  {
    var at := FieldsAt(ad, types[0]);
    if types[0] == t {
      FieldsForOther(ad, t, types[1..]);
      if at.Some? {
        assert at.value + [] == at.value;
      }
    } else {
      FieldsForOne(ad, t, types[1..]);
      var rest := FieldsFor(ad, types[1..]);
      if rest.Some? {
        assert [] + rest.value == rest.value;
      }
    }
  }

  /** The bytes of fields, if there are any. */
  function Wire(fields: Option<seq<Field>>): Option<seq<byte>> {
    if fields.Some? then Some(Join(fields.value)) else None
  }

  lemma WireIsAppended(fields: Option<seq<Field>>)
    ensures Appended([], fields) == Wire(fields)
  {
    if fields.Some? {
      assert [] + Join(fields.value) == Join(fields.value);
    }
  }

  lemma BuiltAlone(t: byte, p: Property)
    requires t in ORDER
    ensures Built(AdvData(map[t := p], None)) == Wire(FieldsOf(t, p))
  {
    OrderIsDistinct();
    FieldsForOne(AdvData(map[t := p], None), t, ORDER);
    WireIsAppended(FieldsOf(t, p));
  }

  /** The types one after the other, each written as if it were alone; a throw for one is a throw for all. */
  lemma BuiltInOrder(ad: AdvData)
    ensures Built(ad) == Concatenated(seq(|WRITTEN|, i requires 0 <= i < |WRITTEN| => BuiltOf(ad, WRITTEN[i])))
  {
    assert WRITTEN == ORDER;
    BuiltEach(ad, ORDER);
    WireIsAppended(FieldsFor(ad, ORDER));
  }

  lemma {:induction false} BuiltEach(ad: AdvData, types: seq<byte>)
    requires forall t :: t in types ==> t in ORDER
    ensures Wire(FieldsFor(ad, types)) ==
      Concatenated(seq(|types|, i requires 0 <= i < |types| => BuiltOf(ad, types[i])))
  {
    var parts := seq(|types|, i requires 0 <= i < |types| => BuiltOf(ad, types[i]));
    if types == [] {
      assert parts == [];
    } else {
      var (t, rest) := (types[0], types[1..]);
      assert t in types;
      BuiltFirst(ad, t);
      hide Built, BuiltOf, FieldsOf, FieldsAt;
      BuiltEach(ad, rest);
      assert parts[1..] == seq(|rest|, i requires 0 <= i < |rest| => BuiltOf(ad, rest[i]));
      assert parts[0] == BuiltOf(ad, t);
      WireOfBoth(FieldsAt(ad, t), FieldsFor(ad, rest));
    }
  }

  lemma BuiltFirst(ad: AdvData, t: byte)
    requires t in ORDER
    ensures BuiltOf(ad, t) == Wire(FieldsAt(ad, t))
  {
    if t in ad.known {
      BuiltAlone(t, ad.known[t]);
    }
  }

  lemma WireOfBoth(a: Option<seq<Field>>, b: Option<seq<Field>>)
    ensures Wire(Both(a, b)) == if a.Some? && b.Some? then Some(Join(a.value) + Join(b.value)) else None
  {
    if a.Some? && b.Some? {
      JoinAppend(a.value, b.value);
    }
  }

  lemma BuiltOne(t: byte, p: Property, f: Field)
    requires t in ORDER && FieldsOf(t, p) == Some([f])
    ensures Built(AdvData(map[t := p], None)) == Some([(|f.data| + 1) % 0x100, f.kind] + f.data)
  {
    BuiltAlone(t, p);
    JoinOne(f);
  }

  lemma NumberIsBuilt(t: byte, p: Property, v: int)
    requires t in ORDER && FieldsOf(t, p) == Some(if v == 0 then [] else [Field(t, [v % 0x100])])
    ensures Built(AdvData(map[t := p], None)) == Some(if v == 0 then [] else [2, t, v % 0x100])
  {
    if v == 0 {
      BuiltAlone(t, p);
    } else {
      BuiltOne(t, p, Field(t, [v % 0x100]));
      assert [2, t] + [v % 0x100] == [2, t, v % 0x100];
    }
  }

  /** Numbers are written as one byte, zero not at all. */
  lemma NumbersAreBuilt(v: int)
    ensures Built(AdvData(map[0x01 := Flags(v)], None)) == Some(if v == 0 then [] else [2, 0x01, v % 0x100])
    ensures Built(AdvData(map[0x0a := TxPower(v)], None)) == Some(if v == 0 then [] else [2, 0x0a, v % 0x100])
  {
    HoldsIsOrdered(0x01);
    HoldsIsOrdered(0x0a);
    hide Built;
    NumberIsBuilt(0x01, Flags(v), v);
    NumberIsBuilt(0x0a, TxPower(v), v);
  }

  /** A name of up to 254 bytes is written, an empty one not at all; a longer one throws. */
  lemma NameIsBuilt(t: byte, name: seq<byte>)
    requires t in {0x08, 0x09}
    ensures Built(AdvData(map[t := Name(name)], None)) ==
      if name == [] then Some([]) else if |name| <= 254 then Some([|name| + 1, t] + name) else None
  {
    HoldsIsOrdered(t);
    BuiltAlone(t, Name(name));
    JoinOne(Field(t, name));
  }

  /** Numbers of two bytes are written low byte first; a larger one, or too much data, throws. */
  lemma LookIsBuilt(a: Appearance)
    ensures var value := Or(a.category * 64, a.subcategory);
      Built(AdvData(map[0x19 := Look(a)], None)) ==
        if value < 0x1_0000 then Some([3, 0x19, value % 0x100, value / 0x100]) else None
  {
    var value := Or(a.category * 64, a.subcategory);
    HoldsIsOrdered(0x19);
    hide Or, Built;
    if value < 0x1_0000 {
      BuiltOne(0x19, Look(a), Field(0x19, Le16(value)));
      assert [3, 0x19] + Le16(value) == [3, 0x19, value % 0x100, value / 0x100];
    } else {
      BuiltAlone(0x19, Look(a));
    }
  }

  lemma MakerIsBuilt(ident: nat, data: seq<byte>)
    ensures Built(AdvData(map[0xff := Maker(ident, data)], None)) ==
      if ident < 0x1_0000 && |data| <= 252 then Some([|data| + 3, 0xff, ident % 0x100, ident / 0x100] + data) else None
  {
    HoldsIsOrdered(0xff);
    BuiltAlone(0xff, Maker(ident, data));
    if ident < 0x1_0000 && |data| <= 252 {
      JoinOne(Field(0xff, Le16(ident) + data));
      assert FieldBytes(Field(0xff, Le16(ident) + data)) == [|data| + 3, 0xff, ident % 0x100, ident / 0x100] + data;
    }
  }

  /** The bytes of a service data field behind its type: the UUID, zeros where it is short, and the data over it. */
  lemma ServiceDataIsBuilt(t: byte, size: nat, s: ServiceData) returns (payload: seq<byte>)
    requires ServiceType(t, size)
    ensures Built(AdvData(map[t := Services([s])], None)) == Some([(|s.data| + 3) % 0x100, t] + payload)
    ensures |payload| == |s.data| + 2 && forall j :: 0 <= j < |payload| ==> payload[j] == ServiceByte(size, s, j)
  {
    payload := ServicePayload(t, s);
    HoldsIsOrdered(t);
    assert ServiceFields(t, [s]) == [Field(t, payload)];
    BuiltOne(t, Services([s]), Field(t, payload));
    forall j | 0 <= j < |payload| ensures payload[j] == ServiceByte(size, s, j) {
      ServiceByteAt(t, size, s, j);
    }
  }

  function ServiceByte(size: nat, s: ServiceData, j: nat): byte
    requires size >= 2 && j < |s.data| + 2
  {
    if j >= size then s.data[j - size] else if j < |UuidBytes(s.uuid)| then UuidBytes(s.uuid)[j] else 0
  }

  lemma OverlayAt(b: seq<byte>, o: nat, source: seq<byte>, j: nat)
    requires j < |b|
    ensures Overlay(b, o, source)[j] == if o <= j < o + |source| then source[j - o] else b[j]
  {
  }

  lemma ServiceByteAt(t: byte, size: nat, s: ServiceData, j: nat)
    requires ServiceType(t, size) && j < |s.data| + 2
    ensures ServicePayload(t, s)[j] == ServiceByte(size, s, j)
  {
    hide UuidBytes, Overlay;
    var under := Overlay(Zeros(2 + |s.data|), 0, UuidBytes(s.uuid));
    OverlayAt(Zeros(2 + |s.data|), 0, UuidBytes(s.uuid), j);
    OverlayAt(under, UuidSize(t), s.data, j);
  }

  /** Several are written one after the other. */
  lemma ServicesAreBuilt(t: byte, size: nat, list: seq<ServiceData>)
    requires ServiceType(t, size)
    ensures Built(AdvData(map[t := Services(list)], None)) == Concatenated(
      seq(|list|, i requires 0 <= i < |list| => Built(AdvData(map[t := Services([list[i]])], None))))
  {
    HoldsIsOrdered(t);
    BuiltAlone(t, Services(list));
    EachService(t, list);
  }

  lemma {:induction false} EachService(t: byte, list: seq<ServiceData>)
    requires t in ORDER
    ensures Some(Join(ServiceFields(t, list))) == Concatenated(
      seq(|list|, i requires 0 <= i < |list| => Built(AdvData(map[t := Services([list[i]])], None))))
  {
    var parts := seq(|list|, i requires 0 <= i < |list| => Built(AdvData(map[t := Services([list[i]])], None)));
    hide Built, ServicePayload;
    if list == [] {
      assert parts == [];
    } else {
      var (s, rest) := (list[0], list[1..]);
      EachService(t, rest);
      assert parts[1..] ==
        seq(|rest|, i requires 0 <= i < |rest| => Built(AdvData(map[t := Services([rest[i]])], None)));
      ServiceAlone(t, s);
      ServicesBackNext(t, list);
      JoinNext(Field(t, ServicePayload(t, s)), ServiceFields(t, rest));
      hide FieldBytes, Join;
    }
  }

  lemma JoinNext(f: Field, rest: seq<Field>)
    ensures Join([f] + rest) == FieldBytes(f) + Join(rest)
  {
    assert ([f] + rest)[1..] == rest;
  }

  lemma ServiceAlone(t: byte, s: ServiceData)
    requires t in ORDER
    ensures Built(AdvData(map[t := Services([s])], None)) == Some(FieldBytes(Field(t, ServicePayload(t, s))))
  {
    var f := Field(t, ServicePayload(t, s));
    assert ServiceFields(t, [s]) == [f];
    BuiltOne(t, Services([s]), f);
  }

  /** The i-th UUID of a list is copied to where it lies over the j-th byte. */
  predicate Covers(list: seq<string>, size: nat, i: nat, j: nat)
    requires i < |list|
  {
    i * size <= j < i * size + |UuidBytes(list[i])|
  }

  /** No UUID from the i-th on lies over the j-th byte. */
  predicate Bare(list: seq<string>, size: nat, i: nat, n: nat, j: nat)
    requires n <= |list|
  {
    forall k: nat :: i <= k < n ==> !Covers(list, size, k, j)
  }

  lemma SlotStep(list: seq<string>, size: nat, n: nat, j: nat)
    requires 0 < n <= |list| && j < |list| * size
    ensures |Slots(list, size, n)| == |Slots(list, size, n - 1)| == |list| * size
    ensures Slots(list, size, n)[j] ==
      if Covers(list, size, n - 1, j) then UuidBytes(list[n - 1])[j - (n - 1) * size] else Slots(list, size, n - 1)[j]
  {
    SlotsLength(list, size, n);
    SlotsLength(list, size, n - 1);
    SlotAtIs(size, n - 1);
    OverlayAt(Slots(list, size, n - 1), SlotAt(size, n - 1), UuidBytes(list[n - 1]), j);
    hide Overlay, UuidBytes;
  }

  /** The j-th byte of a list field: from the last of the UUIDs that lie over it, zero if none does. */
  lemma {:induction false} SlotByte(list: seq<string>, size: nat, n: nat, j: nat, i: nat)
    requires i < n <= |list| && j < |list| * size
    ensures |Slots(list, size, n)| == |list| * size
    ensures Bare(list, size, 0, n, j) ==> Slots(list, size, n)[j] == 0
    ensures Covers(list, size, i, j) && Bare(list, size, i + 1, n, j) ==>
      Slots(list, size, n)[j] == UuidBytes(list[i])[j - i * size]
  {
    SlotStep(list, size, n, j);
    if n == 1 {
      assert Slots(list, size, 0)[j] == 0;
    }
    hide Slots, Covers, UuidBytes;
    assert Bare(list, size, 0, n, j) ==> !Covers(list, size, n - 1, j) && Bare(list, size, 0, n - 1, j);
    if n > 1 {
      SlotByte(list, size, n - 1, j, if i < n - 1 then i else 0);
    }
  }

  /** What is written for a list: its UUIDs in slots of their size, a long one on into the slots behind its own. */
  predicate InSlots(slots: seq<byte>, list: seq<string>, size: nat) {
    && |slots| == |list| * size
    && (forall j: nat :: j < |slots| && Bare(list, size, 0, |list|, j) ==> slots[j] == 0)
    && (forall i: nat, j: nat :: i < |list| && j < |slots| && Covers(list, size, i, j) ==>
          Bare(list, size, i + 1, |list|, j) ==> slots[j] == UuidBytes(list[i])[j - i * size])
  }

  lemma UuidListIsBuilt(t: byte, size: nat, list: seq<string>) returns (slots: seq<byte>)
    requires ListType(t, size)
    ensures Built(AdvData(map[t := Uuids(list)], None)) == Some([(|slots| + 1) % 0x100, t] + slots)
    ensures InSlots(slots, list, size)
  {
    slots := Slots(list, size, |list|);
    HoldsIsOrdered(t);
    BuiltOne(t, Uuids(list), Field(t, slots));
    hide InSlots;
    SlotsAreFilled(list, size);
  }

  lemma SlotsAreFilled(list: seq<string>, size: nat)
    ensures InSlots(Slots(list, size, |list|), list, size)
  {
    var slots := Slots(list, size, |list|);
    SlotsLength(list, size, |list|);
    hide Slots, UuidBytes, Bare;
    forall j: nat | j < |slots| && Bare(list, size, 0, |list|, j) ensures slots[j] == 0 {
      SlotByte(list, size, |list|, j, 0);
    }
    forall i: nat, j: nat | i < |list| && j < |slots| && Covers(list, size, i, j)
      ensures Bare(list, size, i + 1, |list|, j) ==> slots[j] == UuidBytes(list[i])[j - i * size]
    {
      SlotByte(list, size, |list|, j, i);
    }
  }
}
