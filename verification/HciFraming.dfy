/**
  What the host puts on the wire: command packets (`HciCmd.buildCommand`), ACL packets
  (`Hci.writeAclData`), and the adapter's framing of both. `HciFraming.ParseAcl` is `Hci.onAclData`.
 */
module HciFraming {
  import opened Bytes

  const H4_CMD: byte := 1
  const H4_ACL: byte := 2

  /** A packet the host sends; `hdr` is the handle, boundary and broadcast word of an ACL packet. */
  datatype HostPacket =
    | Command(opcode: uint16, payload: seq<byte>)
    | Acl(hdr: uint16, data: seq<byte>)

  predicate Sendable(p: HostPacket) {
    match p
    case Command(_, payload) => |payload| < 0x100
    case Acl(_, data) => |data| < 0x1_0000
  }

  function TypeOf(p: HostPacket): byte {
    if p.Command? then H4_CMD else H4_ACL
  }

  function HeaderOf(p: HostPacket): seq<byte>
    requires Sendable(p)
  {
    match p
    case Command(opcode, payload) => Le16(opcode) + [|payload|]
    case Acl(hdr, data) => Le16(hdr) + Le16(|data|)
  }

  function BodyOf(p: HostPacket): seq<byte> {
    match p
    case Command(_, payload) => payload
    case Acl(_, data) => data
  }

  function PacketOf(p: HostPacket): seq<byte>
    requires Sendable(p)
  {
    HeaderOf(p) + BodyOf(p)
  }

  /** The bytes the adapter writes: the type, the packet, and a zero. */
  function FrameOf(p: HostPacket): seq<byte>
    requires Sendable(p)
  {
    [TypeOf(p)] + PacketOf(p) + [0]
  }

  method BuildCommand(opcode: nat, payload: seq<byte>) returns (r: Option<seq<byte>>)
    ensures r.Some? <==> opcode < 0x1_0000 && |payload| < 0x100
    ensures r.Some? ==> r.value == PacketOf(Command(opcode, payload))
    ensures r.Some? ==> r.value == [opcode % 0x100, opcode / 0x100, |payload|] + payload
  {
    // writeUIntLE throws when a value does not fit its field
    if opcode >= 0x1_0000 || |payload| >= 0x100 {
      return None;
    }
    var buffer := Le16(opcode);
    buffer := buffer + [|payload|];
    if |payload| > 0 {
      buffer := buffer + payload;
    } else {
      assert buffer == buffer + payload;
    }
    return Some(buffer);
  }

  const WORD := 0x1_0000_0000

  /** The header word as the shifts and ors make it, of numbers of any size: 32 bits, without their sign. */
  function AclWord(handle: nat, boundary: nat, broadcast: nat): nat {
    Or(Or(handle % WORD, (boundary * 0x1000) % WORD), (broadcast * 0x4000) % WORD)
  }

  /** A throw when the word or the length does not fit its field. */
  method WriteAcl(handle: nat, boundary: nat, broadcast: nat, data: seq<byte>) returns (r: Option<seq<byte>>)
    ensures r.Some? <==> AclWord(handle, boundary, broadcast) < 0x1_0000 && |data| < 0x1_0000
    ensures r.Some? ==> r.value == PacketOf(Acl(AclWord(handle, boundary, broadcast), data))
    ensures r.Some? ==> var w: uint16 := AclWord(handle, boundary, broadcast);
      r.value == [w % 0x100, w / 0x100, |data| % 0x100, |data| / 0x100] + data
  {
    var hdr := AclWord(handle, boundary, broadcast);
    if hdr >= 0x1_0000 || |data| >= 0x1_0000 {
      return None;
    }
    var buffer := Le16(hdr);
    buffer := buffer + Le16(|data|);
    return Some(buffer + data);
  }

  /** The bits of the word: those of the three numbers at 0, 12 and 14, together where they meet, below 32. */
  lemma AclWordBits(handle: nat, boundary: nat, broadcast: nat, k: nat)
    ensures BitSet(AclWord(handle, boundary, broadcast), k) <==>
      k < 32 && (BitSet(handle, k) || (k >= 12 && BitSet(boundary, k - 12)) || (k >= 14 && BitSet(broadcast, k - 14)))
  {
    hide Or, TwoTo, BitSet;
    PowersOfTwo();
    var (a, b, c) := (handle % WORD, boundary * 0x1000 % WORD, broadcast * 0x4000 % WORD);
    OrBit(Or(a, b), c, k);
    OrBit(a, b, k);
    MaskBit(handle, 32, k);
    MaskBit(boundary * 0x1000, 32, k);
    ShiftBit(boundary, 12, k);
    MaskBit(broadcast * 0x4000, 32, k);
    ShiftBit(broadcast, 14, k);
  }

  datatype AclPacket = AclPacket(handle: nat, boundary: nat, broadcast: nat, data: seq<byte>)

  /** `Hci.onAclData`: too short a packet throws; a wrong length field is only logged. */
  function ParseAcl(bytes: seq<byte>): Option<AclPacket> {
    if |bytes| < 4 then None else
      var hdr := ReadLe16(bytes, 0);
      Some(AclPacket(hdr % 0x1000, hdr / 0x1000 % 4, hdr / 0x4000 % 4, bytes[4..]))
  }

  predicate FieldsFit(handle: nat, boundary: nat, broadcast: nat) {
    handle < 0x1000 && boundary < 4 && broadcast < 4
  }

  lemma AclWordAdds(handle: nat, boundary: nat, broadcast: nat)
    requires FieldsFit(handle, boundary, broadcast)
    ensures AclWord(handle, boundary, broadcast) == handle + boundary * 0x1000 + broadcast * 0x4000 < 0x1_0000
  {
    hide Or, TwoTo;
    PowersOfTwo();
    OrAdds(handle, boundary, 12);
    OrAdds(handle + boundary * 0x1000, broadcast, 14);
  }

  lemma SumFields(handle: nat, boundary: nat, broadcast: nat)
    requires FieldsFit(handle, boundary, broadcast)
    ensures var w := handle + boundary * 0x1000 + broadcast * 0x4000;
      w % 0x1000 == handle && w / 0x1000 % 4 == boundary && w / 0x4000 % 4 == broadcast
  {
  }

  /** The packet that is read back, if one is written. */
  function ReadBack(handle: nat, boundary: nat, broadcast: nat, data: seq<byte>): Option<AclPacket> {
    var w := AclWord(handle, boundary, broadcast);
    if w < 0x1_0000 && |data| < 0x1_0000 then ParseAcl(PacketOf(Acl(w, data))) else None
  }

  /** A packet is written and reads back with the same handle, flags and data exactly when each fits its field. */
  lemma AclRoundTrip(handle: nat, boundary: nat, broadcast: nat, data: seq<byte>)
    ensures ReadBack(handle, boundary, broadcast, data) == Some(AclPacket(handle, boundary, broadcast, data))
       <==> FieldsFit(handle, boundary, broadcast) && |data| < 0x1_0000
  {
    var w := AclWord(handle, boundary, broadcast);
    if w < 0x1_0000 && |data| < 0x1_0000 {
      AclBytes(w, data);
    }
    if FieldsFit(handle, boundary, broadcast) {
      AclWordAdds(handle, boundary, broadcast);
      SumFields(handle, boundary, broadcast);
    }
  }

  lemma AclBytes(w: uint16, data: seq<byte>)
    requires |data| < 0x1_0000
    ensures var bytes := PacketOf(Acl(w, data)); |bytes| >= 4 && ReadLe16(bytes, 0) == w && bytes[4..] == data
  {
    var bytes := PacketOf(Acl(w, data));
    assert bytes == [] + Le16(w) + (Le16(|data|) + data);
    ReadWriteLe16(w, [], Le16(|data|) + data);
    assert bytes[4..] == data;
  }

  /** Where the fields lie in a packet that is read: what its length bytes say does not matter. */
  lemma AclRead(handle: nat, boundary: nat, broadcast: nat, length: seq<byte>, data: seq<byte>)
    requires FieldsFit(handle, boundary, broadcast) && |length| == 2
    ensures ParseAcl([handle % 0x100, handle / 0x100 + 0x10 * boundary + 0x40 * broadcast] + length + data)
         == Some(AclPacket(handle, boundary, broadcast, data))
  {
    var high := handle / 0x100 + 0x10 * boundary + 0x40 * broadcast;
    var bytes: seq<byte> := [handle % 0x100, high] + length + data;
    assert bytes[4..] == data;
    SumFields(handle, boundary, broadcast);
    assert ReadLe16(bytes, 0) == handle + boundary * 0x1000 + broadcast * 0x4000;
  }
}
