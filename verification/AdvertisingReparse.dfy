/**
  `AdvData.parse` reverses UUIDs inside the buffer it is given; what a second parse of that buffer says.
 */
module AdvertisingReparse {
  import opened Advertising
  import opened AdvertisingRoundTrip
  import opened Bytes

  const HEART_RATE: seq<byte> := [3, 0x02, 0x0d, 0x18]

  /** The buffer as `parse` leaves it. */
  function LeftBehind(b: seq<byte>): (r: seq<byte>)
    ensures |r| == |b|
  {
    TurnedRest(b, 0)
  }

  // ----- the fields of the buffer left behind -----

  /** The same, a field at a time. */
  function TurnedBytes(b: seq<byte>): (r: seq<byte>)
    ensures |r| == |b|
  {
    if |b| < 2 then b
    else if b[0] == 0 then [b[0]] + TurnedBytes(b[1..])
    else
      var end := FieldEnd(b);
      b[..2] + Turned(b[1], b[2..end]) + TurnedBytes(b[end..])
  }

  function FieldEnd(b: seq<byte>): (end: nat)
    requires |b| >= 2 && b[0] != 0
    ensures 2 <= end <= |b|
  {
    Min(1 + b[0] as nat, |b|)
  }

  lemma SameBehind(b: seq<byte>, c: seq<byte>, o: nat, to: nat)
    requires |b| == |c| && o <= to <= |b| && b[o..] == c[o..]
    ensures b[to..] == c[to..] && (o < |b| ==> b[o] == c[o]) && (o + 1 < |b| ==> b[o + 1] == c[o + 1])
  {
    assert b[to..] == b[o..][to - o..] && c[to..] == c[o..][to - o..];
    assert forall i :: o <= i < |b| ==> b[i] == b[o..][i - o] && c[i] == c[o..][i - o];
  }

  lemma {:induction false} ScanBehind(b: seq<byte>, c: seq<byte>, o: nat)
    requires |b| == |c| && o <= |b| && b[o..] == c[o..]
    ensures Scan(b, o) == Scan(c, o)
    decreases |b| - o
  {
    if o + 2 <= |b| {
      var to := if b[o] == 0 then o + 1 else Min(o + 1 + b[o] as nat, |b|);
      SameBehind(b, c, o, to);
      ScanBehind(b, c, to);
      if b[o] != 0 {
        ScanPastEnd(b, o);
        ScanPastEnd(c, o);
      }
    }
  }

  lemma {:induction false} TurnedFirst(b: seq<byte>, s: Span, rest: seq<Span>, n: nat)
    requires s.from <= s.to <= |b| && n <= |rest|
    requires forall i :: 0 <= i < |rest| ==> rest[i].from <= rest[i].to <= |b|
    ensures TurnedAll(b, [s] + rest, n + 1) == TurnedAll(TurnedAt(b, s), rest, n)
  {
    var all := [s] + rest;
    assert TurnedAll(b, all, n + 1) == TurnedAt(TurnedAll(b, all, n), all[n]);
    if n == 0 {
      assert TurnedAll(b, all, 0) == b;
    } else {
      TurnedFirst(b, s, rest, n - 1);
      assert all[n] == rest[n - 1];
    }
  }

  lemma FieldTurned(b: seq<byte>, o: nat)
    requires o + 2 <= |b| && b[o] != 0
    ensures var to := Min(o + 1 + b[o] as nat, |b|);
      && to >= o + 2
      && TurnedAt(b, Span(b[o + 1], o + 2, to))[..to] + TurnedBytes(b[to..]) == b[..o] + TurnedBytes(b[o..])
      && TurnedAt(b, Span(b[o + 1], o + 2, to))[to..] == b[to..]
  {
    var to := Min(o + 1 + b[o] as nat, |b|);
    var data := Turned(b[o + 1], b[o + 2..to]);
    Slices(b, o, to, |b|);
    assert b[o..] == b[o..|b|] && b[o..][..2] == b[o..o + 2] && b[o..][2..to - o] == b[o + 2..to];
    assert TurnedBytes(b[o..]) == b[o..o + 2] + data + TurnedBytes(b[to..]);
    var front := b[..o + 2] + data;
    assert TurnedAt(b, Span(b[o + 1], o + 2, to)) == front + b[to..] && |front| == to;
    assert b[..o] + b[o..o + 2] == b[..o + 2];
    Regroup(b[..o], b[o..o + 2], data);
    Regroup(b[..o], b[o..o + 2] + data, TurnedBytes(b[to..]));
  }

  /** The spans from offset `o` on, all turned. */
  function TurnedRest(b: seq<byte>, o: nat): seq<byte> {
    TurnedAll(b, Scan(b, o), |Scan(b, o)|)
  }

  lemma RestAfterField(b: seq<byte>, o: nat)
    requires o + 2 <= |b| && b[o] != 0
    ensures var to := Min(o + 1 + b[o] as nat, |b|);
      to >= o + 2 && TurnedRest(b, o) == TurnedRest(TurnedAt(b, Span(b[o + 1], o + 2, to)), to)
  {
    var to := Min(o + 1 + b[o] as nat, |b|);
    var s := Span(b[o + 1], o + 2, to);
    FieldTurned(b, o);
    ScanPastEnd(b, o);
    ScanBehind(b, TurnedAt(b, s), to);
    TurnedFirst(b, s, Scan(b, to), |Scan(b, to)|);
  }

  lemma RestAfterZero(b: seq<byte>, o: nat)
    requires o + 2 <= |b| && b[o] == 0
    ensures b[..o] + TurnedBytes(b[o..]) == b[..o + 1] + TurnedBytes(b[o + 1..])
  {
    assert b[o..][1..] == b[o + 1..] && b[..o + 1] == b[..o] + [b[o]];
    Regroup(b[..o], [b[o]], TurnedBytes(b[o + 1..]));
  }

  lemma {:induction false} TurnedFrom(b: seq<byte>, o: nat)
    requires o <= |b|
    ensures TurnedRest(b, o) == b[..o] + TurnedBytes(b[o..])
    decreases |b| - o
  {
    if o + 2 > |b| {
      assert b[..o] + b[o..] == b;
    } else if b[o] == 0 {
      TurnedFrom(b, o + 1);
      RestAfterZero(b, o);
    } else {
      var to := Min(o + 1 + b[o] as nat, |b|);
      var c := TurnedAt(b, Span(b[o + 1], o + 2, to));
      RestAfterField(b, o);
      FieldTurned(b, o);
      TurnedFrom(c, to);
    }
  }

  function TurnedFields(fields: seq<Field>): (r: seq<Field>)
    ensures |r| == |fields|
    ensures forall i :: 0 <= i < |fields| ==> r[i] == Field(fields[i].kind, Turned(fields[i].kind, fields[i].data))
  {
    seq(|fields|, i requires 0 <= i < |fields| => Field(fields[i].kind, Turned(fields[i].kind, fields[i].data)))
  }

  lemma SplitOne(b: seq<byte>)
    requires |b| >= 2 && b[0] != 0
    ensures Split(b) == [Field(b[1], b[2..FieldEnd(b)])] + Split(b[FieldEnd(b)..])
  {
  }

  lemma TurnedNext(f: Field, rest: seq<Field>)
    ensures TurnedFields([f] + rest) == [Field(f.kind, Turned(f.kind, f.data))] + TurnedFields(rest)
  {
  }

  /** Parsing leaves the fields where they were, each with its UUIDs turned round. */
  lemma {:induction false} SplitTurned(b: seq<byte>)
    ensures Split(TurnedBytes(b)) == TurnedFields(Split(b))
    decreases |b|
  {
    if |b| < 2 {
    } else if b[0] == 0 {
      SplitTurned(b[1..]);
      assert TurnedBytes(b)[1..] == TurnedBytes(b[1..]);
    } else {
      var end := FieldEnd(b);
      var t := TurnedBytes(b);
      var data := Turned(b[1], b[2..end]);
      assert t[0] == b[0] && t[1] == b[1] && t[2..end] == data && t[end..] == TurnedBytes(b[end..]);
      SplitOne(b);
      SplitOne(t);
      TurnedNext(Field(b[1], b[2..end]), Split(b[end..]));
      SplitTurned(b[end..]);
    }
  }

  lemma {:induction false} SameBytes(b: seq<byte>)
    ensures TurnedFields(Split(b)) == Split(b) <==> TurnedBytes(b) == b
    decreases |b|
  {
    if |b| < 2 {
    } else if b[0] == 0 {
      SameBytes(b[1..]);
      assert b == [b[0]] + b[1..] && TurnedBytes(b)[1..] == TurnedBytes(b[1..]);
    } else {
      var end := FieldEnd(b);
      var (data, rest) := (b[2..end], Split(b[end..]));
      var f := Field(b[1], data);
      var t := TurnedBytes(b);
      SplitOne(b);
      TurnedNext(f, rest);
      SameBytes(b[end..]);
      assert b == b[..2] + data + b[end..];
      assert t[2..end] == Turned(b[1], data) && t[end..] == TurnedBytes(b[end..]) && b[end..] == b[end..];
      assert ([f] + rest)[1..] == rest && TurnedFields([f] + rest)[1..] == TurnedFields(rest);
    }
  }

  // ----- texts tell the bytes -----

  lemma {:induction false} TextsTell(a: seq<byte>, b: seq<byte>, size: nat)
    requires size > 0 && |a| == |b|
    ensures |UuidTexts(a, size)| == |UuidTexts(b, size)|
    ensures UuidTexts(a, size) == UuidTexts(b, size) ==> a == b
    decreases |a|
  {
    if a != [] {
      var n := Min(size, |a|);
      TextsTell(a[n..], b[n..], size);
      UuidReadBack(a[..n]);
      UuidReadBack(b[..n]);
      var (s, t) := (UuidTexts(a, size), UuidTexts(b, size));
      if s == t {
        assert s[0] == t[0] && s[1..] == t[1..];
        assert a == a[..n] + a[n..] && b == b[..n] + b[n..];
      }
    }
  }

  lemma ServiceTells(t: byte, a: seq<byte>, b: seq<byte>)
    requires |a| == |b| && ServiceOf(t, a) == ServiceOf(t, b)
    ensures a == b
  {
    var n := Min(UuidSize(t), |a|);
    UuidReadBack(a[..n]);
    UuidReadBack(b[..n]);
    assert a == a[..n] + a[n..] && b == b[..n] + b[n..];
  }

  // ----- two parses side by side -----

  predicate Differ<T(==)>(s: seq<T>, t: seq<T>) {
    exists i :: 0 <= i < |s| && i < |t| && s[i] != t[i]
  }

  lemma DifferBefore<T>(s: seq<T>, t: seq<T>, more: seq<T>, other: seq<T>)
    requires Differ(s, t)
    ensures Differ(s + more, t + other)
  {
    var i :| 0 <= i < |s| && i < |t| && s[i] != t[i];
    assert (s + more)[i] != (t + other)[i];
  }

  lemma DifferBehind<T>(s: seq<T>, t: seq<T>, more: seq<T>, other: seq<T>)
    requires |s| == |t| && |more| == |other| && more != other
    ensures Differ(s + more, t + other)
  {
    var i :| 0 <= i < |more| && more[i] != other[i];
    assert (s + more)[|s| + i] != (t + other)[|s| + i];
  }

  /** Both have read as many UUIDs, or service data, of the type. */
  predicate Aligned(t: byte, p: Option<Property>, q: Option<Property>) {
    if IsUuidList(t) then |UuidsOf(p)| == |UuidsOf(q)|
    else if IsServiceData(t) then |ServicesOf(p)| == |ServicesOf(q)|
    else p == q
  }

  /** The two have read different UUIDs, or service data, of the type. */
  predicate Apart(t: byte, p: Option<Property>, q: Option<Property>) {
    if IsUuidList(t) then Differ(UuidsOf(p), UuidsOf(q)) else IsServiceData(t) && Differ(ServicesOf(p), ServicesOf(q))
  }

  ghost predicate AllAligned(a: map<byte, Property>, b: map<byte, Property>) {
    forall t :: Aligned(t, At(a, t), At(b, t))
  }

  ghost predicate Parted(a: map<byte, Property>, b: map<byte, Property>) {
    exists t :: Apart(t, At(a, t), At(b, t))
  }

  /** A field and the same field turned round take two parses in step, and apart for good unless they are the same. */
  lemma FieldBoth(t: byte, data: seq<byte>, p: Option<Property>, q: Option<Property>)
    requires t in ORDER && Aligned(t, p, q)
    ensures Absorb(t, data, p).Thrown? <==> Absorb(t, Turned(t, data), q).Thrown?
    ensures Absorb(t, data, p).Now? ==>
      var (p', q') := (Absorb(t, data, p).property, Absorb(t, Turned(t, data), q).property);
      Aligned(t, p', q') && (Apart(t, p, q) || Turned(t, data) != data ==> Apart(t, p', q'))
  {
    var other := Turned(t, data);
    if IsUuidList(t) {
      var size := UuidSize(t);
      TextsTell(data, other, size);
      if Apart(t, p, q) {
        DifferBefore(UuidsOf(p), UuidsOf(q), UuidTexts(data, size), UuidTexts(other, size));
      } else if other != data {
        DifferBehind(UuidsOf(p), UuidsOf(q), UuidTexts(data, size), UuidTexts(other, size));
      }
    } else if IsServiceData(t) {
      var (more, less) := ([ServiceOf(t, data)], [ServiceOf(t, other)]);
      if Apart(t, p, q) {
        DifferBefore(ServicesOf(p), ServicesOf(q), more, less);
      } else if other != data {
        if ServiceOf(t, data) == ServiceOf(t, other) {
          ServiceTells(t, data, other);
        }
        DifferBehind(ServicesOf(p), ServicesOf(q), more, less);
      }
    }
  }

  lemma WithOther(known: map<byte, Property>, t: byte, p: Option<Property>, k: byte)
    ensures At(With(known, t, p), k) == if k == t then p else At(known, k)
  {
  }

  lemma AbsorbedBoth(a: AdvData, b: AdvData, f: Field)
    requires AllAligned(a.known, b.known)
    ensures Absorbed(a, f).None? <==> Absorbed(b, Field(f.kind, Turned(f.kind, f.data))).None?
    ensures Absorbed(a, f).Some? ==>
      var (a', b') := (Absorbed(a, f).value, Absorbed(b, Field(f.kind, Turned(f.kind, f.data))).value);
      AllAligned(a'.known, b'.known) &&
        (Parted(a.known, b.known) || Turned(f.kind, f.data) != f.data ==> Parted(a'.known, b'.known))
  {
    var (t, other) := (f.kind, Turned(f.kind, f.data));
    HoldsIsOrdered(t);
    if t in ORDER {
      var (p, q) := (At(a.known, t), At(b.known, t));
      assert Aligned(t, p, q);
      FieldBoth(t, f.data, p, q);
      if Absorb(t, f.data, p).Now? {
        var (p', q') := (Absorb(t, f.data, p).property, Absorb(t, other, q).property);
        BothWith(a.known, b.known, t, p', q');
      }
    }
  }

  lemma BothWith(a: map<byte, Property>, b: map<byte, Property>, t: byte, p: Option<Property>, q: Option<Property>)
    requires AllAligned(a, b) && Aligned(t, p, q) && (Apart(t, At(a, t), At(b, t)) ==> Apart(t, p, q))
    ensures AllAligned(With(a, t, p), With(b, t, q))
    ensures Parted(a, b) || Apart(t, p, q) ==> Parted(With(a, t, p), With(b, t, q))
  {
    forall k ensures At(With(a, t, p), k) == (if k == t then p else At(a, k)) &&
      At(With(b, t, q), k) == (if k == t then q else At(b, k)) {
      WithOther(a, t, p, k);
      WithOther(b, t, q, k);
    }
    if Parted(a, b) {
      var k :| Apart(k, At(a, k), At(b, k));
      assert Apart(k, At(With(a, t, p), k), At(With(b, t, q), k));
    }
    if Apart(t, p, q) {
      assert Apart(t, At(With(a, t, p), t), At(With(b, t, q), t));
    }
  }

  lemma PartedDiffer(a: map<byte, Property>, b: map<byte, Property>)
    requires Parted(a, b)
    ensures a != b
  {
  }

  lemma {:induction false} SideBySide(a: AdvData, b: AdvData, fields: seq<Field>)
    requires AllAligned(a.known, b.known)
    ensures AbsorbAll(a, fields).None? <==> AbsorbAll(b, TurnedFields(fields)).None?
    ensures AbsorbAll(a, fields).Some? && (Parted(a.known, b.known) || TurnedFields(fields) != fields) ==>
      AbsorbAll(a, fields) != AbsorbAll(b, TurnedFields(fields))
    decreases |fields|
  {
    if fields == [] {
      if Parted(a.known, b.known) {
        PartedDiffer(a.known, b.known);
      }
    } else {
      var (f, rest) := (fields[0], fields[1..]);
      AbsorbedBoth(a, b, f);
      assert fields == [f] + rest;
      TurnedNext(f, rest);
      assert TurnedFields(fields)[1..] == TurnedFields(rest);
      if Absorbed(a, f).Some? {
        SideBySide(Absorbed(a, f).value, Absorbed(b, TurnedFields(fields)[0]).value, rest);
      }
    }
  }

  /**
    Parsing again the buffer that a parse leaves behind gives the same if and only if no field has
    changed: every UUID in it reads the same from both ends.
   */
  lemma SecondParse(b: seq<byte>)
    requires Parsed(b).Some?
    ensures Parsed(LeftBehind(b)) == Parsed(b) <==> LeftBehind(b) == b
    ensures LeftBehind(b) == b <==> forall f :: f in Split(b) ==> Turned(f.kind, f.data) == f.data
  {
    TurnedFrom(b, 0);
    assert b[0..] == b && b[..0] == [] && [] + TurnedBytes(b) == TurnedBytes(b);
    SplitTurned(b);
    SameBytes(b);
    var fields := Split(b);
    SideBySide(EMPTY, EMPTY, fields);
    if TurnedFields(fields) == fields {
      forall f | f in fields ensures Turned(f.kind, f.data) == f.data {
        var i :| 0 <= i < |fields| && fields[i] == f;
        assert TurnedFields(fields)[i] == f;
      }
    }
    if forall f :: f in fields ==> Turned(f.kind, f.data) == f.data {
      assert forall i :: 0 <= i < |fields| ==> TurnedFields(fields)[i] == fields[i];
    }
  }

  // ----- an input -----

  lemma OneUuid(low: byte, high: byte)
    ensures Parsed([3, 0x02, low, high]) == Some(AdvData(map[0x02 := Uuids([UuidText([low, high])])], None))
  {
    var f := Field(0x02, [low, high]);
    SplitJoined([f], []);
    JoinOne(f);
    assert FieldBytes(f) + [] == [3, 0x02, low, high] && [f] + Split([]) == [f];
    OneText(f.data);
    UuidsAbsorbed(0x02, f.data);
    HoldsIsOrdered(0x02);
    var p := Uuids([UuidText(f.data)]);
    RowAbsorbed(EMPTY, 0x02, [f]);
    RowOfOne(0x02, f);
    assert With(EMPTY.known, 0x02, Some(p)) == map[0x02 := p];
  }

  lemma OneText(data: seq<byte>)
    requires |data| == 2
    ensures UuidTexts(data, 2) == [UuidText(data)] && TurnEach(data, 2) == Reversed(data)
  {
    var n := Min(2, |data|);
    assert data[..n] == data && data[n..] == [];
    assert [UuidText(data)] + [] == [UuidText(data)] && Reversed(data) + [] == Reversed(data);
  }

  lemma TextOfTwo(low: byte, high: byte)
    ensures UuidText([low, high]) == [HexDigit(high / 16), HexDigit(high % 16), HexDigit(low / 16), HexDigit(low % 16)]
  {
    var b := [high, low];
    assert Reversed([low, high]) == b && b[1..] == [low] && [low][1..] == [];
    assert HexText(b) == [HexDigit(high / 16), HexDigit(high % 16)] + HexText([low]);
    assert HexText([low]) == [HexDigit(low / 16), HexDigit(low % 16)] + HexText([]);
  }

  lemma OneTurned(low: byte, high: byte)
    ensures LeftBehind([3, 0x02, low, high]) == [3, 0x02, high, low]
  {
    var b := [3, 0x02, low, high];
    var s := Span(0x02, 2, 4);
    ScanPastEnd(b, 0);
    assert Scan(b, 4) == [] && [s] + [] == [s];
    assert b[2..4] == [low, high];
    OneText(b[2..4]);
    assert TurnedAll(b, [s], 1) == TurnedAt(b, s) == [3, 0x02] + [high, low] + [];
  }

  /** An input for which the second parse reads another UUID. */
  lemma SecondParseDiffers()
    ensures Parsed(HEART_RATE) == Some(AdvData(map[0x02 := Uuids(["180d"])], None))
    ensures Parsed(LeftBehind(HEART_RATE)) == Some(AdvData(map[0x02 := Uuids(["0d18"])], None))
  {
    OneTurned(0x0d, 0x18);
    OneUuid(0x0d, 0x18);
    OneUuid(0x18, 0x0d);
    HeartRateTexts();
  }

  lemma HeartRateTexts()
    ensures UuidText([0x0d, 0x18]) == "180d" && UuidText([0x18, 0x0d]) == "0d18"
  {
    TextOfTwo(0x0d, 0x18);
    TextOfTwo(0x18, 0x0d);
  }
}
