/** Writing into a Node.js `Buffer` at a running offset: what the serializers share. */
module Buffers {
  import opened Bytes

  /** `buffer[o] = n`, or `writeUIntLE(n, o, 1)`. */
  method WriteByte(buffer: array<byte>, n: byte, o: nat) returns (next: nat)
    requires o < buffer.Length
    modifies buffer
    ensures next == o + 1 && buffer[..next] == old(buffer[..o]) + [n]
  {
    buffer[o] := n;
    next := o + 1;
  }

  /** `writeUIntLE(n, o, 2)`. */
  method WriteWord(buffer: array<byte>, n: uint16, o: nat) returns (next: nat)
    requires o + 2 <= buffer.Length
    modifies buffer
    ensures next == o + 2 && buffer[..next] == old(buffer[..o]) + Le16(n)
  {
    buffer[o], buffer[o + 1] := n % 0x100, n / 0x100;
    next := o + 2;
  }

  /** `source.copy(buffer, o)` with room for all of `source`. */
  method Copy(source: seq<byte>, buffer: array<byte>, o: nat) returns (count: nat)
    requires o + |source| <= buffer.Length
    modifies buffer
    ensures count == |source| && buffer[..o + count] == old(buffer[..o]) + source
  {
    forall k | 0 <= k < |source| {
      buffer[o + k] := source[k];
    }
    count := |source|;
  }

  /** `b` with `source` written over it from `o`, as far as there is room. */
  function Overlay(b: seq<byte>, o: nat, source: seq<byte>): (r: seq<byte>)
    ensures |r| == |b|
  {
    if o >= |b| then b
    else if o + |source| <= |b| then b[..o] + source + b[o + |source|..]
    else b[..o] + source[..|b| - o]
  }

  function Zeros(n: nat): seq<byte> {
    seq(n, _ => 0)
  }

  /** `source.copy(buffer, o)` wherever it lands. */
  method CopyOver(source: seq<byte>, buffer: array<byte>, o: nat)
    modifies buffer
    ensures buffer[..] == Overlay(old(buffer[..]), o, source)
  {
    forall k | 0 <= k < |source| && o + k < buffer.Length {
      buffer[o + k] := source[k];
    }
  }
}
