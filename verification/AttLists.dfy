/**
  The four ATT messages that carry a list: each is an opcode byte (and, for Find Information, a
  format byte) followed by the entries back to back.
 */
module AttLists {
  import opened Bytes
  import opened Buffers

  const FIND_INFORMATION_RSP: byte := 0x05
  const FIND_BY_TYPE_VALUE_RSP: byte := 0x07
  const READ_MULTIPLE_VARIABLE_RSP: byte := 0x21
  const MULTIPLE_HANDLE_VALUE_NTF: byte := 0x23

  /** What `deserialize` may do: return the message, return null, or throw on a read past the end. */
  datatype Parsed<+T> = Message(value: T) | Null | Overrun

  // ----- entries in a row, for any kind of entry -----

  type pos = n: nat | n > 0 witness 1

  /** Reads an entry from the front: the entry and how far the offset moves, or None on an overrun. */
  type Reader<!T> = seq<byte> -> Option<(T, pos)>

  /** What is left at an offset that may lie past the end. */
  function From(b: seq<byte>, o: nat): seq<byte> {
    if o <= |b| then b[o..] else []
  }

  function Encoded<T>(entry: T -> seq<byte>, list: seq<T>): seq<byte> {
    if list == [] then [] else entry(list[0]) + Encoded(entry, list[1..])
  }

  function Prepend<T>(list: seq<T>, rest: Parsed<seq<T>>): Parsed<seq<T>> {
    if rest.Message? then Message(list + rest.value) else rest
  }

  function Entries<T>(read: Reader<T>, b: seq<byte>): (r: Parsed<seq<T>>)
    ensures !r.Null?
    decreases |b|
  {
    if b == [] then Message([]) else
      match read(b)
      case None => Overrun
      case Some((e, n)) => Prepend([e], Entries(read, From(b, n)))
  }

  /** `read` takes exactly what `entry` wrote, whatever follows. */
  ghost predicate Takes<T>(read: Reader<T>, entry: T -> seq<byte>, e: T, rest: seq<byte>) {
    |entry(e)| > 0 && read(entry(e) + rest) == Some((e, |entry(e)|))
  }

  /** Entries that read back one at a time read back as a list, at any length. */
  lemma {:induction false} EntriesReadBack<T>(read: Reader<T>, entry: T -> seq<byte>, list: seq<T>)
    requires forall i, rest :: 0 <= i < |list| ==> Takes(read, entry, list[i], rest)
    ensures Entries(read, Encoded(entry, list)) == Message(list)
  {
    if list == [] {
    } else {
      var rest := Encoded(entry, list[1..]);
      assert Takes(read, entry, list[0], rest);
      assert From(entry(list[0]) + rest, |entry(list[0])|) == rest;
      EntriesReadBack(read, entry, list[1..]);
      assert [list[0]] + list[1..] == list;
    }
  }

  /** No entry is cut short by the end of the bytes. */
  predicate Whole<T>(read: Reader<T>, b: seq<byte>)
    decreases |b|
  {
    b == [] || (read(b).Some? && read(b).value.1 <= |b| && Whole(read, b[read(b).value.1..]))
  }

  /** An entry read whole is written as the bytes it came from. */
  ghost predicate Restores<T>(read: Reader<T>, entry: T -> seq<byte>, b: seq<byte>) {
    read(b).Some? && read(b).value.1 <= |b| ==> entry(read(b).value.0) == b[..read(b).value.1]
  }

  /** An entry cut short is not written as the bytes it came from. */
  ghost predicate Repairs<T>(read: Reader<T>, entry: T -> seq<byte>, b: seq<byte>) {
    read(b).Some? && read(b).value.1 > |b| ==> entry(read(b).value.0) != b
  }

  lemma {:induction false} WholeRestored<T>(read: Reader<T>, entry: T -> seq<byte>, b: seq<byte>)
    requires Whole(read, b) && forall s :: Restores(read, entry, s)
    ensures Entries(read, b).Message? && Encoded(entry, Entries(read, b).value) == b
    decreases |b|
  {
    if b == [] {
    } else {
      var (e, n) := read(b).value;
      assert Restores(read, entry, b);
      WholeRestored(read, entry, b[n..]);
      var rest := Entries(read, b[n..]).value;
      assert ([e] + rest)[1..] == rest;
    }
  }

  lemma {:induction false} CutShortChanged<T>(read: Reader<T>, entry: T -> seq<byte>, b: seq<byte>)
    requires !Whole(read, b) && Entries(read, b).Message?
    requires forall s :: Restores(read, entry, s) && Repairs(read, entry, s)
    ensures Encoded(entry, Entries(read, b).value) != b
    decreases |b|
  {
    var (e, n) := read(b).value;
    assert Restores(read, entry, b) && Repairs(read, entry, b);
    var rest := Entries(read, From(b, n)).value;
    assert ([e] + rest)[1..] == rest;
    if n <= |b| {
      CutShortChanged(read, entry, b[n..]);
      var out := b[..n] + Encoded(entry, rest);
      assert out[n..] == Encoded(entry, rest);
    } else {
      assert Encoded(entry, rest) == [];
    }
  }

  lemma {:induction false} EncodedPush<T>(entry: T -> seq<byte>, list: seq<T>, e: T)
    ensures Encoded(entry, list + [e]) == Encoded(entry, list) + entry(e)
  {
    if list == [] {
      assert Encoded(entry, [e]) == entry(e) + Encoded(entry, []);
    } else {
      assert (list + [e])[1..] == list[1..] + [e];
      EncodedPush(entry, list[1..], e);
      Regroup(entry(list[0]), Encoded(entry, list[1..]), entry(e));
    }
  }

  /** One turn of a serializing loop. */
  lemma EntryWritten<T>(entry: T -> seq<byte>, list: seq<T>, i: nat)
    requires i < |list|
    ensures Encoded(entry, list[..i + 1]) == Encoded(entry, list[..i]) + entry(list[i])
  {
    assert list[..i + 1] == list[..i] + [list[i]];
    EncodedPush(entry, list[..i], list[i]);
  }

  /** What a deserializing loop returns when it stands at offset `o` with `list` read. */
  ghost function Ahead<T>(read: Reader<T>, b: seq<byte>, list: seq<T>, o: nat): Parsed<seq<T>> {
    Prepend(list, Entries(read, From(b, o)))
  }

  /** One turn of a deserializing loop at offset `o`. */
  lemma EntryPushed<T>(read: Reader<T>, b: seq<byte>, list: seq<T>, o: nat, e: T, n: pos)
    requires o < |b| && read(b[o..]) == Some((e, n))
    ensures Ahead(read, b, list, o) == Ahead(read, b, list + [e], o + n)
  {
    assert From(From(b, o), n) == From(b, o + n);
    var rest := Entries(read, From(b, o + n));
    if rest.Message? {
      Regroup(list, [e], rest.value);
    }
  }

  function Word(b: seq<byte>): Option<uint16> {
    if |b| < 2 then None else Some(ReadLe16(b, 0))
  }

  /** `buffer.subarray(o, o + n)` stops at the end of the buffer. */
  function Subarray(b: seq<byte>, o: nat, n: nat): (r: seq<byte>)
    requires o <= |b|
    ensures |r| <= n
  {
    if o + n <= |b| then b[o..o + n] else b[o..]
  }

  lemma WordAhead(b: seq<byte>, o: nat)
    requires o <= |b|
    ensures Word(b[o..]) == if o + 2 <= |b| then Some(ReadLe16(b, o)) else None
  {
  }

  lemma SubarrayAhead(b: seq<byte>, o: nat, k: nat, n: nat)
    requires o + k <= |b|
    ensures Subarray(b[o..], k, n) == Subarray(b, o + k, n)
  {
    assert b[o..][k..] == b[o + k..];
    if o + k + n <= |b| {
      assert b[o..][k..k + n] == b[o + k..o + k + n];
    }
  }

  lemma NothingPushed<T>(read: Reader<T>, b: seq<byte>, o: nat)
    requires o <= |b|
    ensures Ahead(read, b, [], o) == Entries(read, b[o..])
  {
    var rest := Entries(read, b[o..]);
    if rest.Message? {
      assert [] + rest.value == rest.value;
    }
  }

  lemma NothingLeft<T>(read: Reader<T>, b: seq<byte>, list: seq<T>, o: nat)
    requires o >= |b|
    ensures Ahead(read, b, list, o) == Message(list)
  {
    assert From(b, o) == [] && list + [] == list;
  }

  lemma CutShort<T>(read: Reader<T>, b: seq<byte>, list: seq<T>, o: nat)
    requires o < |b| && read(b[o..]).None?
    ensures Ahead(read, b, list, o) == Overrun
  {
  }

  // ----- ATT_FIND_INFORMATION_RSP -----

  datatype Info = Info(handle: uint16, uuid: seq<byte>)

  function InfoBytes(e: Info): seq<byte> {
    Le16(e.handle) + e.uuid
  }

  function InfoReader(size: nat): Reader<Info> {
    b =>
      if Word(b).None? then None else
        Some((Info(Word(b).value, Subarray(b, 2, size)), 2 + size))
  }

  /** The one UUID size of a list, 2 or 16; the lists without one cannot be sent. */
  function UuidSize(list: seq<Info>): Option<nat> {
    if list != [] && |list[0].uuid| in {2, 16} && forall e :: e in list ==> |e.uuid| == |list[0].uuid| then
      Some(|list[0].uuid|)
    else
      None
  }

  function FormatOf(size: nat): byte {
    if size == 2 then 1 else 2
  }

  function SizeOf(format: byte): Option<nat> {
    if format == 1 then Some(2) else if format == 2 then Some(16) else None
  }

  function FindInformationBytes(list: seq<Info>): Option<seq<byte>> {
    match UuidSize(list)
    case None => None
    case Some(size) => Some([FIND_INFORMATION_RSP, FormatOf(size)] + Encoded(InfoBytes, list))
  }

  function FindInformationFrom(b: seq<byte>): Parsed<seq<Info>> {
    if |b| < 6 || b[0] != FIND_INFORMATION_RSP then Null else
      match SizeOf(b[1])
      case None => Null
      case Some(size) =>
        if (|b| - 2) % (size + 2) != 0 then Null else Entries(InfoReader(size), b[2..])
  }

  method GetUuidSize(list: seq<Info>) returns (r: Option<nat>)
    ensures r == UuidSize(list)
  {
    r := None;
    for i := 0 to |list|
      invariant r.None? <==> i == 0
      invariant r.Some? ==> r.value == |list[0].uuid| && r.value in {2, 16}
      invariant forall k :: 0 <= k < i ==> |list[k].uuid| == |list[0].uuid|
    {
      var length := |list[i].uuid|;
      if r.None? {
        r := Some(length);
        if length != 2 && length != 16 {
          return None;
        }
      }
      if r.value != length {
        return None;
      }
    }
  }

  lemma NextRow(width: nat, i: nat, n: nat)
    requires i < n
    ensures width * i + width == width * (i + 1) <= width * n
  {
    var rows := n - i - 1;
    assert width * n == width * (i + 1) + width * rows;
  }

  /** `AttFindInformationRsp.serialize`. */
  method SerializeFindInformation(list: seq<Info>) returns (r: Option<seq<byte>>)
    ensures r == FindInformationBytes(list)
  {
    var uuidSize := GetUuidSize(list);
    if uuidSize.None? {
      return None;
    }
    var width := 2 + uuidSize.value;
    var buffer := new byte[2 + width * |list|];
    var o := WriteByte(buffer, FIND_INFORMATION_RSP, 0);
    o := WriteByte(buffer, FormatOf(uuidSize.value), o);
    ghost var header := [FIND_INFORMATION_RSP, FormatOf(uuidSize.value)];
    assert buffer[..o] == header + Encoded(InfoBytes, list[..0]);
    for i := 0 to |list|
      invariant o == 2 + width * i
      invariant o <= buffer.Length && buffer[..o] == header + Encoded(InfoBytes, list[..i])
    {
      assert list[i] in list;
      NextRow(width, i, |list|);
      EntryWritten(InfoBytes, list, i);
      o := WriteWord(buffer, list[i].handle, o);
      var copied := Copy(list[i].uuid, buffer, o);
      o := o + copied;
      Regroup(header + Encoded(InfoBytes, list[..i]), Le16(list[i].handle), list[i].uuid);
      Regroup(header, Encoded(InfoBytes, list[..i]), InfoBytes(list[i]));
    }
    assert list[..|list|] == list && buffer[..o] == buffer[..];
    return Some(buffer[..]);
  }

  /** `AttFindInformationRsp.deserialize`. */
  method DeserializeFindInformation(buffer: seq<byte>) returns (r: Parsed<seq<Info>>)
    ensures r == FindInformationFrom(buffer)
  {
    hide Ahead, Entries;
    if |buffer| < 6 || buffer[0] != FIND_INFORMATION_RSP {
      return Null;
    }
    var uuidSize := SizeOf(buffer[1]);
    if uuidSize.None? || (|buffer| - 2) % (uuidSize.value + 2) != 0 {
      return Null;
    }
    ghost var read := InfoReader(uuidSize.value);
    var list := [];
    var o := 2;
    NothingPushed(read, buffer, o);
    ghost var all := Entries(read, buffer[o..]);
    while o < |buffer|
      invariant all == Ahead(read, buffer, list, o)
      decreases |buffer| - o
    {
      WordAhead(buffer, o);
      if o + 2 > |buffer| {
        CutShort(read, buffer, list, o);
        return Overrun;
      }
      var handle := ReadLe16(buffer, o);
      var uuid := Subarray(buffer, o + 2, uuidSize.value);
      SubarrayAhead(buffer, o, 2, uuidSize.value);
      assert read(buffer[o..]) == Some((Info(handle, uuid), 2 + uuidSize.value));
      EntryPushed(read, buffer, list, o, Info(handle, uuid), 2 + uuidSize.value);
      list := list + [Info(handle, uuid)];
      o := o + 2 + uuidSize.value;
    }
    NothingLeft(read, buffer, list, o);
    return Message(list);
  }

  lemma InfoTaken(e: Info, rest: seq<byte>)
    ensures Takes(InfoReader(|e.uuid|), InfoBytes, e, rest)
  {
    var b := InfoBytes(e) + rest;
    assert b == [] + Le16(e.handle) + (e.uuid + rest);
    ReadWriteLe16(e.handle, [], e.uuid + rest);
    assert Subarray(b, 2, |e.uuid|) == e.uuid;
  }

  lemma InfoRestored(size: nat, b: seq<byte>)
    ensures Restores(InfoReader(size), InfoBytes, b)
  {
    if |b| >= 2 + size {
      WriteReadLe16(b, 0);
      assert b[..2 + size] == b[0..2] + b[2..2 + size];
    }
  }

  lemma RowOff(size: nat, k: nat)
    requires size in {2, 16} && k > 0 && k % (size + 2) == 0
    ensures k >= size + 2 && (k - (size + 2)) % (size + 2) == 0
  {
    if size == 2 {
      assert k % 4 == 0;
    } else {
      assert k % 18 == 0;
    }
  }

  lemma RowsExact(size: nat, n: nat)
    requires size in {2, 16} && n > 0
    ensures (size + 2) * n >= 4 && ((size + 2) * n) % (size + 2) == 0
  {
    if size == 2 {
      assert (4 * n) % 4 == 0;
    } else {
      assert (18 * n) % 18 == 0;
    }
  }

  lemma {:induction false} InfosWhole(size: nat, b: seq<byte>)
    requires size in {2, 16} && |b| % (size + 2) == 0
    ensures Whole(InfoReader(size), b)
    decreases |b|
  {
    if b == [] {
    } else {
      var n := size + 2;
      RowOff(size, |b|);
      InfosWhole(size, b[n..]);
    }
  }

  lemma {:induction false} InfosSized(size: nat, b: seq<byte>)
    requires size in {2, 16} && |b| % (size + 2) == 0
    ensures Entries(InfoReader(size), b).Message?
    ensures forall e :: e in Entries(InfoReader(size), b).value ==> |e.uuid| == size
    ensures (size + 2) * |Entries(InfoReader(size), b).value| == |b|
    decreases |b|
  {
    if b == [] {
    } else {
      var n := size + 2;
      RowOff(size, |b|);
      InfosSized(size, b[n..]);
      assert From(b, n) == b[n..];
      var rest := Entries(InfoReader(size), b[n..]).value;
      assert n * (1 + |rest|) == n + n * |rest|;
    }
  }

  lemma {:induction false} InfosLength(size: nat, list: seq<Info>)
    requires forall e :: e in list ==> |e.uuid| == size
    ensures |Encoded(InfoBytes, list)| == (size + 2) * |list|
  {
    if list == [] {
    } else {
      assert list[0] in list;
      InfosLength(size, list[1..]);
      NextRow(size + 2, |list[1..]|, |list|);
    }
  }

  /** A list is read from exactly the bytes it is written as: no other buffer is accepted as it, and none is lost. */
  lemma FindInformationExact(list: seq<Info>, b: seq<byte>)
    ensures FindInformationBytes(list) == Some(b) <==> FindInformationFrom(b) == Message(list)
  {
    if FindInformationBytes(list) == Some(b) {
      FindInformationReadBack(list);
    }
    if FindInformationFrom(b) == Message(list) {
      FindInformationRestored(b);
    }
  }

  lemma FindInformationReadBack(list: seq<Info>)
    requires UuidSize(list).Some?
    ensures FindInformationFrom(FindInformationBytes(list).value) == Message(list)
  {
    var size := UuidSize(list).value;
    var b := FindInformationBytes(list).value;
    InfosLength(size, list);
    RowsExact(size, |list|);
    forall i, rest | 0 <= i < |list| ensures Takes(InfoReader(size), InfoBytes, list[i], rest) {
      assert list[i] in list;
      InfoTaken(list[i], rest);
    }
    EntriesReadBack(InfoReader(size), InfoBytes, list);
    assert b[2..] == Encoded(InfoBytes, list);
  }

  lemma FindInformationRestored(b: seq<byte>)
    requires FindInformationFrom(b).Message?
    ensures FindInformationBytes(FindInformationFrom(b).value) == Some(b)
  {
    var size := SizeOf(b[1]).value;
    var list := FindInformationFrom(b).value;
    InfosWhole(size, b[2..]);
    InfosSized(size, b[2..]);
    forall s ensures Restores(InfoReader(size), InfoBytes, s) {
      InfoRestored(size, s);
    }
    WholeRestored(InfoReader(size), InfoBytes, b[2..]);
    assert list != [] by {
      assert Encoded(InfoBytes, list) == b[2..];
    }
    assert list[0] in list && UuidSize(list) == Some(size);
    assert [FIND_INFORMATION_RSP, FormatOf(size)] == b[..2];
    assert b == b[..2] + b[2..];
  }

  lemma FindInformationNeverOverruns(b: seq<byte>)
    ensures !FindInformationFrom(b).Overrun?
  {
    if |b| >= 6 && SizeOf(b[1]).Some? && (|b| - 2) % (SizeOf(b[1]).value + 2) == 0 {
      InfosSized(SizeOf(b[1]).value, b[2..]);
    }
  }

  // ----- ATT_FIND_BY_TYPE_VALUE_RSP -----

  datatype HandlesInformation = HandlesInformation(foundAttributeHandle: uint16, groupEndHandle: uint16)

  function HandlesBytes(e: HandlesInformation): seq<byte> {
    Le16(e.foundAttributeHandle) + Le16(e.groupEndHandle)
  }

  function ReadHandles(b: seq<byte>): Option<(HandlesInformation, pos)> {
    if |b| < 4 then None else Some((HandlesInformation(ReadLe16(b, 0), ReadLe16(b, 2)), 4))
  }

  function FindByTypeValueBytes(list: seq<HandlesInformation>): seq<byte> {
    [FIND_BY_TYPE_VALUE_RSP] + Encoded(HandlesBytes, list)
  }

  function FindByTypeValueFrom(b: seq<byte>): Parsed<seq<HandlesInformation>> {
    if |b| < 1 || b[0] != FIND_BY_TYPE_VALUE_RSP then Null else Entries(ReadHandles, b[1..])
  }

  /** `AttFindByTypeValueRsp.serialize`. */
  method SerializeFindByTypeValue(list: seq<HandlesInformation>) returns (r: seq<byte>)
    ensures r == FindByTypeValueBytes(list)
  {
    var buffer := new byte[1 + |list| * 4];
    var o := WriteByte(buffer, FIND_BY_TYPE_VALUE_RSP, 0);
    ghost var header := [FIND_BY_TYPE_VALUE_RSP];
    assert buffer[..o] == header + Encoded(HandlesBytes, list[..0]);
    for i := 0 to |list|
      invariant o == 1 + i * 4 && buffer[..o] == header + Encoded(HandlesBytes, list[..i])
    {
      EntryWritten(HandlesBytes, list, i);
      o := WriteWord(buffer, list[i].foundAttributeHandle, o);
      o := WriteWord(buffer, list[i].groupEndHandle, o);
      Regroup(header + Encoded(HandlesBytes, list[..i]), Le16(list[i].foundAttributeHandle),
        Le16(list[i].groupEndHandle));
      Regroup(header, Encoded(HandlesBytes, list[..i]), HandlesBytes(list[i]));
    }
    assert list[..|list|] == list && buffer[..o] == buffer[..];
    return buffer[..];
  }

  /** `AttFindByTypeValueRsp.deserialize`. */
  method DeserializeFindByTypeValue(buffer: seq<byte>) returns (r: Parsed<seq<HandlesInformation>>)
    ensures r == FindByTypeValueFrom(buffer)
  {
    hide Ahead, Entries;
    if |buffer| < 1 || buffer[0] != FIND_BY_TYPE_VALUE_RSP {
      return Null;
    }
    var list := [];
    var o := 1;
    NothingPushed(ReadHandles, buffer, o);
    ghost var all := Entries(ReadHandles, buffer[o..]);
    while o < |buffer|
      invariant all == Ahead(ReadHandles, buffer, list, o)
      decreases |buffer| - o
    {
      if o + 4 > |buffer| {
        CutShort(ReadHandles, buffer, list, o);
        return Overrun;
      }
      var e := HandlesInformation(ReadLe16(buffer, o), ReadLe16(buffer, o + 2));
      assert ReadHandles(buffer[o..]) == Some((e, 4));
      EntryPushed(ReadHandles, buffer, list, o, e, 4);
      list := list + [e];
      o := o + 4;
    }
    NothingLeft(ReadHandles, buffer, list, o);
    return Message(list);
  }

  lemma HandlesTaken(e: HandlesInformation, rest: seq<byte>)
    ensures Takes(ReadHandles, HandlesBytes, e, rest)
  {
    var (found, end) := (Le16(e.foundAttributeHandle), Le16(e.groupEndHandle));
    var b := HandlesBytes(e) + rest;
    assert b == [] + found + (end + rest) && b == found + end + rest;
    ReadWriteLe16(e.foundAttributeHandle, [], end + rest);
    ReadWriteLe16(e.groupEndHandle, found, rest);
  }

  lemma HandlesRestored(b: seq<byte>)
    ensures Restores(ReadHandles, HandlesBytes, b)
  {
    if |b| >= 4 {
      WriteReadLe16(b, 0);
      WriteReadLe16(b, 2);
      assert b[..4] == b[0..2] + b[2..4];
    }
  }

  lemma {:induction false} HandlesWhole(b: seq<byte>)
    ensures |b| % 4 == 0 <==> Entries(ReadHandles, b).Message?
    ensures |b| % 4 == 0 <==> Whole(ReadHandles, b)
    decreases |b|
  {
    if |b| >= 4 {
      HandlesWhole(b[4..]);
    }
  }

  /** Written and read lists match exactly, and a read runs past the end exactly when an entry is incomplete. */
  lemma FindByTypeValueExact(list: seq<HandlesInformation>, b: seq<byte>)
    ensures FindByTypeValueBytes(list) == b <==> FindByTypeValueFrom(b) == Message(list)
    ensures FindByTypeValueFrom(b) == Overrun <==> b != [] && b[0] == FIND_BY_TYPE_VALUE_RSP && (|b| - 1) % 4 != 0
  {
    if FindByTypeValueBytes(list) == b {
      forall i, rest | 0 <= i < |list| ensures Takes(ReadHandles, HandlesBytes, list[i], rest) {
        HandlesTaken(list[i], rest);
      }
      EntriesReadBack(ReadHandles, HandlesBytes, list);
      assert b[1..] == Encoded(HandlesBytes, list);
    }
    if b != [] && b[0] == FIND_BY_TYPE_VALUE_RSP {
      HandlesWhole(b[1..]);
      if FindByTypeValueFrom(b).Message? {
        forall s ensures Restores(ReadHandles, HandlesBytes, s) {
          HandlesRestored(s);
        }
        WholeRestored(ReadHandles, HandlesBytes, b[1..]);
        assert b == [b[0]] + b[1..];
      }
    }
  }

  // ----- ATT_READ_MULTIPLE_VARIABLE_RSP -----

  /** A value behind its length; only values that `Fit` are written. */
  function ValueBytes(v: seq<byte>): seq<byte> {
    Le16(|v| % 0x1_0000) + v
  }

  function ReadValue(b: seq<byte>): Option<(seq<byte>, pos)> {
    if Word(b).None? then None else Some((Subarray(b, 2, Word(b).value), 2 + Word(b).value))
  }

  predicate Fit(values: seq<seq<byte>>) {
    forall i :: 0 <= i < |values| ==> |values[i]| < 0x1_0000
  }

  function ReadMultipleVariableBytes(values: seq<seq<byte>>): Option<seq<byte>> {
    if Fit(values) then Some([READ_MULTIPLE_VARIABLE_RSP] + Encoded(ValueBytes, values)) else None
  }

  function ReadMultipleVariableFrom(b: seq<byte>): Parsed<seq<seq<byte>>> {
    if |b| < 1 || b[0] != READ_MULTIPLE_VARIABLE_RSP then Null else Entries(ReadValue, b[1..])
  }

  /** The `reduce` that sizes the buffer: `header` bytes before each value. */
  function TotalSize(header: nat, values: seq<seq<byte>>): nat {
    if values == [] then 0 else header + |values[0]| + TotalSize(header, values[1..])
  }

  lemma {:induction false} RoomFor(header: nat, values: seq<seq<byte>>, i: nat)
    requires i < |values|
    ensures TotalSize(header, values[i..]) == header + |values[i]| + TotalSize(header, values[i + 1..])
  {
    assert values[i..][1..] == values[i + 1..];
  }

  /** The two writes of a value's turn. */
  method WriteValue(buffer: array<byte>, v: seq<byte>, o: nat) returns (next: nat)
    requires |v| < 0x1_0000 && o + 2 + |v| <= buffer.Length
    modifies buffer
    ensures next == o + 2 + |v| && buffer[..next] == old(buffer[..o]) + ValueBytes(v)
  {
    next := WriteWord(buffer, |v|, o);
    var copied := Copy(v, buffer, next);
    next := next + copied;
    Regroup(old(buffer[..o]), Le16(|v|), v);
  }

  /** `AttReadMultipleVariableRsp.serialize`; a length field too small for its value throws. */
  method SerializeReadMultipleVariable(values: seq<seq<byte>>) returns (r: Option<seq<byte>>)
    ensures r == ReadMultipleVariableBytes(values)
  {
    var buffer := new byte[1 + TotalSize(2, values)];
    var o: nat := WriteByte(buffer, READ_MULTIPLE_VARIABLE_RSP, 0);
    ghost var header := [READ_MULTIPLE_VARIABLE_RSP];
    assert buffer[..o] == header + Encoded(ValueBytes, values[..0]) && values[0..] == values;
    for i := 0 to |values|
      invariant forall k :: 0 <= k < i ==> |values[k]| < 0x1_0000
      invariant o + TotalSize(2, values[i..]) == buffer.Length
      invariant o <= buffer.Length && buffer[..o] == header + Encoded(ValueBytes, values[..i])
    {
      if |values[i]| >= 0x1_0000 {
        return None;
      }
      RoomFor(2, values, i);
      EntryWritten(ValueBytes, values, i);
      o := WriteValue(buffer, values[i], o);
      Regroup(header, Encoded(ValueBytes, values[..i]), ValueBytes(values[i]));
    }
    assert values[..|values|] == values && buffer[..o] == buffer[..];
    return Some(buffer[..]);
  }

  lemma ValueTurn(b: seq<byte>, values: seq<seq<byte>>, o: nat)
    requires o < |b|
    ensures Ahead(ReadValue, b, values, o) ==
      if o + 2 > |b| then Overrun else
        Ahead(ReadValue, b, values + [Subarray(b, o + 2, ReadLe16(b, o))], o + 2 + ReadLe16(b, o))
  {
    WordAhead(b, o);
    if o + 2 <= |b| {
      var len: nat := ReadLe16(b, o);
      SubarrayAhead(b, o, 2, len);
      EntryPushed(ReadValue, b, values, o, Subarray(b, o + 2, len), 2 + len);
    } else {
      CutShort(ReadValue, b, values, o);
    }
  }

  /** `AttReadMultipleVariableRsp.deserialize`. */
  method DeserializeReadMultipleVariable(buffer: seq<byte>) returns (r: Parsed<seq<seq<byte>>>)
    ensures r == ReadMultipleVariableFrom(buffer)
  {
    hide Ahead, Entries;
    if |buffer| < 1 || buffer[0] != READ_MULTIPLE_VARIABLE_RSP {
      return Null;
    }
    var values := [];
    var o := 1;
    NothingPushed(ReadValue, buffer, o);
    ghost var all := Entries(ReadValue, buffer[o..]);
    while o < |buffer|
      invariant all == Ahead(ReadValue, buffer, values, o)
      decreases |buffer| - o
    {
      ValueTurn(buffer, values, o);
      if o + 2 > |buffer| {
        return Overrun;
      }
      var len: nat := ReadLe16(buffer, o);
      var value := Subarray(buffer, o + 2, len);
      values := values + [value];
      o := o + 2 + len;
    }
    NothingLeft(ReadValue, buffer, values, o);
    return Message(values);
  }

  lemma ValueTaken(v: seq<byte>, rest: seq<byte>)
    requires |v| < 0x1_0000
    ensures Takes(ReadValue, ValueBytes, v, rest)
  {
    var b := ValueBytes(v) + rest;
    assert b == [] + Le16(|v|) + (v + rest);
    ReadWriteLe16(|v|, [], v + rest);
    assert Subarray(b, 2, |v|) == v;
  }

  lemma ValueOfLength(v: seq<byte>, len: uint16)
    requires |v| == len
    ensures ValueBytes(v) == Le16(len) + v
  {
  }

  lemma ValueRestored(b: seq<byte>)
    ensures Restores(ReadValue, ValueBytes, b)
  {
    if Word(b).Some? && 2 + Word(b).value <= |b| {
      var len := Word(b).value;
      var v := Subarray(b, 2, len);
      ValueOfLength(v, len);
      WriteReadLe16(b, 0);
      assert b[..2 + len] == b[0..2] + v;
    }
  }

  lemma ValueLength(v: seq<byte>)
    requires |v| < 0x1_0000
    ensures Word(ValueBytes(v)) == Some(|v|)
  {
    ReadWriteLe16(|v|, [], v);
    assert ValueBytes(v) == [] + Le16(|v|) + v;
  }

  lemma ValueRepaired(b: seq<byte>)
    ensures Repairs(ReadValue, ValueBytes, b)
  {
    if Word(b).Some? && 2 + Word(b).value > |b| {
      ValueLength(b[2..]);
      assert Word(ValueBytes(b[2..])) != Word(b);
    }
  }

  lemma {:induction false} ValuesFit(b: seq<byte>)
    requires Entries(ReadValue, b).Message?
    ensures Fit(Entries(ReadValue, b).value)
    decreases |b|
  {
    if b != [] {
      ValuesFit(From(b, ReadValue(b).value.1));
    }
  }

  lemma ValuesTakenAndRestored(values: seq<seq<byte>>)
    requires Fit(values)
    ensures Entries(ReadValue, Encoded(ValueBytes, values)) == Message(values)
    ensures Whole(ReadValue, Encoded(ValueBytes, values))
  {
    var out := Encoded(ValueBytes, values);
    forall i, rest | 0 <= i < |values| ensures Takes(ReadValue, ValueBytes, values[i], rest) {
      ValueTaken(values[i], rest);
    }
    EntriesReadBack(ReadValue, ValueBytes, values);
    if !Whole(ReadValue, out) {
      forall s ensures Restores(ReadValue, ValueBytes, s) && Repairs(ReadValue, ValueBytes, s) {
        ValueRestored(s);
        ValueRepaired(s);
      }
      CutShortChanged(ReadValue, ValueBytes, out);
    }
  }

  /** What is read is what was written, except that a last value cut short reads as the shorter value. */
  lemma ReadMultipleVariableExact(values: seq<seq<byte>>, b: seq<byte>)
    ensures ReadMultipleVariableBytes(values) == Some(b) <==>
      ReadMultipleVariableFrom(b) == Message(values) && Whole(ReadValue, b[1..])
  {
    if ReadMultipleVariableBytes(values) == Some(b) {
      ValuesTakenAndRestored(values);
      assert b[1..] == Encoded(ValueBytes, values);
    }
    if ReadMultipleVariableFrom(b) == Message(values) && Whole(ReadValue, b[1..]) {
      ValuesFit(b[1..]);
      forall s ensures Restores(ReadValue, ValueBytes, s) {
        ValueRestored(s);
      }
      WholeRestored(ReadValue, ValueBytes, b[1..]);
      assert b == [b[0]] + b[1..];
    }
  }

  // ----- ATT_MULTIPLE_HANDLE_VALUE_NTF -----

  datatype HandleValue = HandleValue(attributeHandle: uint16, attributeValue: seq<byte>)

  function NotifiedBytes(e: HandleValue): seq<byte> {
    Le16(e.attributeHandle) + ValueBytes(e.attributeValue)
  }

  function ReadNotified(b: seq<byte>): Option<(HandleValue, pos)> {
    if |b| < 2 || ReadValue(b[2..]).None? then None else
      var (value, n) := ReadValue(b[2..]).value;
      Some((HandleValue(ReadLe16(b, 0), value), 2 + n))
  }

  function Values(list: seq<HandleValue>): (r: seq<seq<byte>>)
    ensures |r| == |list| && forall i :: 0 <= i < |list| ==> r[i] == list[i].attributeValue
  {
    seq(|list|, i requires 0 <= i < |list| => list[i].attributeValue)
  }

  function MultipleHandleValueBytes(list: seq<HandleValue>): Option<seq<byte>> {
    if Fit(Values(list)) then Some([MULTIPLE_HANDLE_VALUE_NTF] + Encoded(NotifiedBytes, list)) else None
  }

  function MultipleHandleValueFrom(b: seq<byte>): Parsed<seq<HandleValue>> {
    if |b| < 1 || b[0] != MULTIPLE_HANDLE_VALUE_NTF then Null else Entries(ReadNotified, b[1..])
  }

  /** The three writes of an entry's turn. */
  method WriteNotified(buffer: array<byte>, e: HandleValue, o: nat) returns (next: nat)
    requires |e.attributeValue| < 0x1_0000 && o + 4 + |e.attributeValue| <= buffer.Length
    modifies buffer
    ensures next == o + 4 + |e.attributeValue| && buffer[..next] == old(buffer[..o]) + NotifiedBytes(e)
  {
    next := WriteWord(buffer, e.attributeHandle, o);
    next := WriteValue(buffer, e.attributeValue, next);
    Regroup(old(buffer[..o]), Le16(e.attributeHandle), ValueBytes(e.attributeValue));
  }

  /** `AttMultipleHandleValueNtf.serialize`. */
  method SerializeMultipleHandleValue(list: seq<HandleValue>) returns (r: Option<seq<byte>>)
    ensures r == MultipleHandleValueBytes(list)
  {
    var values := Values(list);
    var buffer := new byte[1 + TotalSize(4, values)];
    var o: nat := WriteByte(buffer, MULTIPLE_HANDLE_VALUE_NTF, 0);
    ghost var header := [MULTIPLE_HANDLE_VALUE_NTF];
    assert buffer[..o] == header + Encoded(NotifiedBytes, list[..0]) && values[0..] == values;
    for i := 0 to |list|
      invariant forall k :: 0 <= k < i ==> |values[k]| < 0x1_0000
      invariant o + TotalSize(4, values[i..]) == buffer.Length
      invariant o <= buffer.Length && buffer[..o] == header + Encoded(NotifiedBytes, list[..i])
    {
      if |values[i]| >= 0x1_0000 {
        return None;
      }
      RoomFor(4, values, i);
      EntryWritten(NotifiedBytes, list, i);
      o := WriteNotified(buffer, list[i], o);
      Regroup(header, Encoded(NotifiedBytes, list[..i]), NotifiedBytes(list[i]));
    }
    assert list[..|list|] == list && buffer[..o] == buffer[..];
    return Some(buffer[..]);
  }

  lemma NotifiedAhead(b: seq<byte>, o: nat)
    requires o + 4 <= |b|
    ensures ReadNotified(b[o..]) ==
      Some((HandleValue(ReadLe16(b, o), Subarray(b, o + 4, ReadLe16(b, o + 2))), 4 + ReadLe16(b, o + 2)))
  {
    WordAhead(b, o);
    WordAhead(b, o + 2);
    assert b[o..][2..] == b[o + 2..];
    SubarrayAhead(b, o + 2, 2, ReadLe16(b, o + 2));
  }

  /** The entry read at offset `o`. */
  function NotifiedAt(b: seq<byte>, o: nat): HandleValue
    requires o + 4 <= |b|
  {
    HandleValue(ReadLe16(b, o), Subarray(b, o + 4, ReadLe16(b, o + 2)))
  }

  lemma NotifiedTurn(b: seq<byte>, list: seq<HandleValue>, o: nat, e: HandleValue, next: nat)
    requires o + 4 <= |b| && e == NotifiedAt(b, o) && next == o + 4 + ReadLe16(b, o + 2)
    ensures Ahead(ReadNotified, b, list, o) == Ahead(ReadNotified, b, list + [e], next)
  {
    NotifiedAhead(b, o);
    EntryPushed(ReadNotified, b, list, o, NotifiedAt(b, o), 4 + ReadLe16(b, o + 2));
  }

  /** `AttMultipleHandleValueNtf.deserialize`. */
  method DeserializeMultipleHandleValue(buffer: seq<byte>) returns (r: Parsed<seq<HandleValue>>)
    ensures r == MultipleHandleValueFrom(buffer)
  {
    hide Ahead, Entries;
    if |buffer| < 1 || buffer[0] != MULTIPLE_HANDLE_VALUE_NTF {
      return Null;
    }
    var list: seq<HandleValue> := [];
    var o: nat := 1;
    NothingPushed(ReadNotified, buffer, o);
    ghost var all := Entries(ReadNotified, buffer[o..]);
    while o < |buffer|
      invariant all == Ahead(ReadNotified, buffer, list, o)
      decreases |buffer| - o
    {
      if o + 4 > |buffer| {
        CutShort(ReadNotified, buffer, list, o);
        return Overrun;
      }
      var handle := ReadLe16(buffer, o);
      var length: nat := ReadLe16(buffer, o + 2);
      var e := HandleValue(handle, Subarray(buffer, o + 4, length));
      NotifiedTurn(buffer, list, o, e, o + 4 + length);
      list := list + [e];
      o := o + 4 + length;
    }
    NothingLeft(ReadNotified, buffer, list, o);
    return Message(list);
  }

  lemma NotifiedTaken(e: HandleValue, rest: seq<byte>)
    requires |e.attributeValue| < 0x1_0000
    ensures Takes(ReadNotified, NotifiedBytes, e, rest)
  {
    var (handle, value) := (Le16(e.attributeHandle), ValueBytes(e.attributeValue));
    var b := NotifiedBytes(e) + rest;
    assert b == [] + handle + (value + rest);
    ReadWriteLe16(e.attributeHandle, [], value + rest);
    assert b[2..] == value + rest;
    ValueTaken(e.attributeValue, rest);
    assert Takes(ReadValue, ValueBytes, e.attributeValue, rest);
  }

  lemma NotifiedRestored(b: seq<byte>)
    ensures Restores(ReadNotified, NotifiedBytes, b) && Repairs(ReadNotified, NotifiedBytes, b)
  {
    if |b| >= 2 && ReadValue(b[2..]).Some? {
      var (value, n) := ReadValue(b[2..]).value;
      ValueRestored(b[2..]);
      ValueRepaired(b[2..]);
      assert Restores(ReadValue, ValueBytes, b[2..]) && Repairs(ReadValue, ValueBytes, b[2..]);
      WriteReadLe16(b, 0);
      var out := Le16(ReadLe16(b, 0)) + ValueBytes(value);
      if 2 + n <= |b| {
        assert b[..2 + n] == b[0..2] + b[2..][..n];
      } else {
        assert out[2..] == ValueBytes(value);
      }
    }
  }

  lemma {:induction false} NotifiedFit(b: seq<byte>)
    requires Entries(ReadNotified, b).Message?
    ensures Fit(Values(Entries(ReadNotified, b).value))
    decreases |b|
  {
    if b != [] {
      var (e, n) := ReadNotified(b).value;
      NotifiedFit(From(b, n));
      var rest := Entries(ReadNotified, From(b, n)).value;
      assert Values([e] + rest) == [e.attributeValue] + Values(rest);
    }
  }

  lemma NotifiedTakenAndRestored(list: seq<HandleValue>)
    requires Fit(Values(list))
    ensures Entries(ReadNotified, Encoded(NotifiedBytes, list)) == Message(list)
    ensures Whole(ReadNotified, Encoded(NotifiedBytes, list))
  {
    var out := Encoded(NotifiedBytes, list);
    forall i, rest | 0 <= i < |list| ensures Takes(ReadNotified, NotifiedBytes, list[i], rest) {
      assert |Values(list)[i]| < 0x1_0000;
      NotifiedTaken(list[i], rest);
    }
    EntriesReadBack(ReadNotified, NotifiedBytes, list);
    if !Whole(ReadNotified, out) {
      forall s ensures Restores(ReadNotified, NotifiedBytes, s) && Repairs(ReadNotified, NotifiedBytes, s) {
        NotifiedRestored(s);
      }
      CutShortChanged(ReadNotified, NotifiedBytes, out);
    }
  }

  /** As for the variable-length values, with a handle before each. */
  lemma MultipleHandleValueExact(list: seq<HandleValue>, b: seq<byte>)
    ensures MultipleHandleValueBytes(list) == Some(b) <==>
      MultipleHandleValueFrom(b) == Message(list) && Whole(ReadNotified, b[1..])
  {
    if MultipleHandleValueBytes(list) == Some(b) {
      NotifiedTakenAndRestored(list);
      assert b[1..] == Encoded(NotifiedBytes, list);
    }
    if MultipleHandleValueFrom(b) == Message(list) && Whole(ReadNotified, b[1..]) {
      NotifiedFit(b[1..]);
      forall s ensures Restores(ReadNotified, NotifiedBytes, s) {
        NotifiedRestored(s);
      }
      WholeRestored(ReadNotified, NotifiedBytes, b[1..]);
      assert b == [b[0]] + b[1..];
    }
  }

  // ----- the messages on the wire, byte by byte -----

  /** `raw` is how an entry is spelled: the entries of a list one after the other. */
  function Spelled<T>(raw: T -> seq<byte>, list: seq<T>): seq<byte> {
    Flatten(seq(|list|, i requires 0 <= i < |list| => raw(list[i])))
  }

  lemma {:induction false} EncodedIsSpelled<T>(entry: T -> seq<byte>, raw: T -> seq<byte>, list: seq<T>)
    requires forall i :: 0 <= i < |list| ==> entry(list[i]) == raw(list[i])
    ensures Encoded(entry, list) == Spelled(raw, list)
  {
    var parts := seq(|list|, i requires 0 <= i < |list| => raw(list[i]));
    if list == [] {
      assert parts == [];
    } else {
      var rest := list[1..];
      forall i | 0 <= i < |rest| ensures entry(rest[i]) == raw(rest[i]) {
        assert rest[i] == list[i + 1];
      }
      EncodedIsSpelled(entry, raw, rest);
      assert parts[0] == raw(list[0]);
      assert parts[1..] == seq(|rest|, i requires 0 <= i < |rest| => raw(rest[i]));
    }
  }

  /** Entries that read back are read before whatever follows them. */
  lemma {:induction false} EntriesThen<T>(read: Reader<T>, entry: T -> seq<byte>, list: seq<T>, rest: seq<byte>)
    requires forall i, more :: 0 <= i < |list| ==> Takes(read, entry, list[i], more)
    ensures Entries(read, Encoded(entry, list) + rest) == Prepend(list, Entries(read, rest))
  {
    if list == [] {
      assert [] + rest == rest;
      PrependNothing(Entries(read, rest));
    } else {
      var more := Encoded(entry, list[1..]) + rest;
      Regroup(entry(list[0]), Encoded(entry, list[1..]), rest);
      assert Takes(read, entry, list[0], more);
      OneEntryThen(read, entry, list[0], more);
      forall i, after | 0 <= i < |list[1..]| ensures Takes(read, entry, list[1..][i], after) {
        assert Takes(read, entry, list[i + 1], after);
      }
      hide Entries, Takes;
      EntriesThen(read, entry, list[1..], rest);
      PrependTwice(list, Entries(read, rest));
    }
  }

  lemma PrependNothing<T>(r: Parsed<seq<T>>)
    ensures Prepend([], r) == r
  {
    if r.Message? {
      assert [] + r.value == r.value;
    }
  }

  lemma PrependTwice<T>(list: seq<T>, r: Parsed<seq<T>>)
    requires list != []
    ensures Prepend([list[0]], Prepend(list[1..], r)) == Prepend(list, r)
  {
    if r.Message? {
      assert [list[0]] + (list[1..] + r.value) == list + r.value;
    }
  }

  lemma OneEntryThen<T>(read: Reader<T>, entry: T -> seq<byte>, e: T, more: seq<byte>)
    requires Takes(read, entry, e, more)
    ensures Entries(read, entry(e) + more) == Prepend([e], Entries(read, more))
  {
    assert From(entry(e) + more, |entry(e)|) == more;
  }

  function InfoSpelled(e: Info): seq<byte> {
    [e.handle % 0x100, e.handle / 0x100] + e.uuid
  }

  /** Find Information: 0x05, the format, and each handle with its UUID. */
  predicate LooksAs(b: seq<byte>, list: seq<Info>, format: byte, size: nat) {
    && list != []
    && (forall i :: 0 <= i < |list| ==> |list[i].uuid| == size)
    && b == [0x05, format] + Spelled(InfoSpelled, list)
  }

  /** A message is read as a list exactly when it is that list in format 1, of two bytes, or 2, of sixteen. */
  lemma FindInformationLayout(list: seq<Info>, b: seq<byte>)
    ensures FindInformationFrom(b) == Message(list) <==> LooksAs(b, list, 1, 2) || LooksAs(b, list, 2, 16)
    ensures FindInformationFrom(b).Message? || FindInformationFrom(b).Null?
  {
    FindInformationExact(list, b);
    FindInformationNeverOverruns(b);
    EncodedIsSpelled(InfoBytes, InfoSpelled, list);
    hide FindInformationFrom, Encoded, Spelled;
  }

  function HandlesSpelled(e: HandlesInformation): seq<byte> {
    [e.foundAttributeHandle % 0x100, e.foundAttributeHandle / 0x100] +
    [e.groupEndHandle % 0x100, e.groupEndHandle / 0x100]
  }

  /** Find By Type Value: 0x07 and, for each handle found, that handle and the end of its group. */
  lemma FindByTypeValueLayout(list: seq<HandlesInformation>, b: seq<byte>)
    ensures FindByTypeValueFrom(b) == Message(list) <==> b == [0x07] + Spelled(HandlesSpelled, list)
    ensures FindByTypeValueFrom(b).Null? <==> b == [] || b[0] != 0x07
  {
    FindByTypeValueExact(list, b);
    EncodedIsSpelled(HandlesBytes, HandlesSpelled, list);
  }

  function ValueSpelled(v: seq<byte>): seq<byte> {
    [|v| % 0x100, |v| / 0x100 % 0x100] + v
  }

  lemma ValuesThen(values: seq<seq<byte>>, rest: seq<byte>)
    requires Fit(values)
    ensures Encoded(ValueBytes, values) == Spelled(ValueSpelled, values)
    ensures ReadMultipleVariableFrom([0x21] + Spelled(ValueSpelled, values) + rest)
         == Prepend(values, Entries(ReadValue, rest))
  {
    EncodedIsSpelled(ValueBytes, ValueSpelled, values);
    forall i, rest | 0 <= i < |values| ensures Takes(ReadValue, ValueBytes, values[i], rest) {
      ValueTaken(values[i], rest);
    }
    hide Takes, Encoded, Spelled, ValueBytes;
    EntriesThen(ReadValue, ValueBytes, values, rest);
    Regroup([0x21], Spelled(ValueSpelled, values), rest);
  }

  /**
    Read Multiple Variable: 0x21 and each value behind its length. Values that are whole are read as they
    are; one byte more is read past the end; and a last value shorter than its length says is read as it is, too.
   */
  lemma ReadMultipleVariableLayout(values: seq<seq<byte>>, x: byte, n: uint16, v: seq<byte>)
    requires Fit(values) && |v| < n
    ensures var b := [0x21] + Spelled(ValueSpelled, values);
      && ReadMultipleVariableBytes(values) == Some(b)
      && ReadMultipleVariableFrom(b) == Message(values)
      && ReadMultipleVariableFrom(b + [x]) == Overrun
      && ReadMultipleVariableFrom(b + (Le16(n) + v)) == Message(values + [v])
  {
    CutValue(n, v);
    ValuesThen(values, [x]);
    ReadMultipleVariableExact(values, [0x21] + Spelled(ValueSpelled, values));
    hide ReadMultipleVariableFrom, Spelled, Encoded;
    ValuesThen(values, Le16(n) + v);
  }

  lemma LastEntry<T>(read: Reader<T>, b: seq<byte>, e: T, n: pos)
    requires b != [] && read(b) == Some((e, n)) && n >= |b|
    ensures Entries(read, b) == Message([e])
  {
    assert From(b, n) == [] && Entries(read, []) == Message([]);
    assert [e] + [] == [e];
  }

  lemma CutValue(n: uint16, v: seq<byte>)
    requires |v| < n
    ensures ReadValue(Le16(n) + v) == Some((v, 2 + n))
    ensures Entries(ReadValue, Le16(n) + v) == Message([v])
  {
    var cut := Le16(n) + v;
    assert cut == [] + Le16(n) + v && cut[2..] == v;
    ReadWriteLe16(n, [], v);
    assert ReadValue(cut) == Some((v, 2 + n));
    hide ReadValue, Entries;
    LastEntry(ReadValue, cut, v, 2 + n);
  }

  function NotifiedSpelled(e: HandleValue): seq<byte> {
    [e.attributeHandle % 0x100, e.attributeHandle / 0x100] + ValueSpelled(e.attributeValue)
  }

  lemma HandleThen(h: uint16, rest: seq<byte>, v: seq<byte>, n: pos)
    requires ReadValue(rest) == Some((v, n))
    ensures ReadNotified(Le16(h) + rest) == Some((HandleValue(h, v), 2 + n))
  {
    hide ReadValue;
    var b := Le16(h) + rest;
    assert b == [] + Le16(h) + rest && b[2..] == rest;
    ReadWriteLe16(h, [], rest);
  }

  lemma CutNotified(h: uint16, n: uint16, v: seq<byte>)
    requires |v| < n
    ensures Entries(ReadNotified, Le16(h) + (Le16(n) + v)) == Message([HandleValue(h, v)])
  {
    hide ReadNotified, ReadValue, Entries;
    CutValue(n, v);
    HandleThen(h, Le16(n) + v, v, 2 + n);
    LastEntry(ReadNotified, Le16(h) + (Le16(n) + v), HandleValue(h, v), 4 + n);
  }

  lemma NotifiedThen(list: seq<HandleValue>, rest: seq<byte>)
    requires Fit(Values(list))
    ensures Encoded(NotifiedBytes, list) == Spelled(NotifiedSpelled, list)
    ensures MultipleHandleValueFrom([0x23] + Spelled(NotifiedSpelled, list) + rest)
         == Prepend(list, Entries(ReadNotified, rest))
  {
    forall i | 0 <= i < |list| ensures |list[i].attributeValue| < 0x1_0000 {
      assert |Values(list)[i]| < 0x1_0000;
    }
    EncodedIsSpelled(NotifiedBytes, NotifiedSpelled, list);
    forall i, rest | 0 <= i < |list| ensures Takes(ReadNotified, NotifiedBytes, list[i], rest) {
      NotifiedTaken(list[i], rest);
    }
    hide Takes, Encoded, Spelled, NotifiedBytes;
    EntriesThen(ReadNotified, NotifiedBytes, list, rest);
    Regroup([0x23], Spelled(NotifiedSpelled, list), rest);
  }

  /** Multiple Handle Value: 0x23 and, for each value, its handle, its length and itself. */
  lemma MultipleHandleValueLayout(list: seq<HandleValue>, some: seq<byte>, h: uint16, n: uint16, v: seq<byte>)
    requires Fit(Values(list)) && 1 <= |some| <= 3 && |v| < n
    ensures var b := [0x23] + Spelled(NotifiedSpelled, list);
      && MultipleHandleValueBytes(list) == Some(b)
      && MultipleHandleValueFrom(b) == Message(list)
      && MultipleHandleValueFrom(b + some) == Overrun
      && MultipleHandleValueFrom(b + (Le16(h) + (Le16(n) + v))) == Message(list + [HandleValue(h, v)])
  {
    CutNotified(h, n, v);
    NotifiedThen(list, some);
    MultipleHandleValueExact(list, [0x23] + Spelled(NotifiedSpelled, list));
    hide MultipleHandleValueFrom, Spelled, Encoded;
    NotifiedThen(list, Le16(h) + (Le16(n) + v));
  }

  /** No other bytes are read as values. */
  lemma OtherOpcodes(b: seq<byte>)
    ensures ReadMultipleVariableFrom(b).Null? <==> b == [] || b[0] != 0x21
    ensures MultipleHandleValueFrom(b).Null? <==> b == [] || b[0] != 0x23
  {
  }
}
