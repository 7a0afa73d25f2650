/**
  SLIP framing of a byte stream (`Slip`), with the delimiter and escape bytes of the code.
 */
module Slip {
  import opened Bytes

  const END: byte := 0x0c
  const ESC: byte := 0xdb
  const ESC_END: byte := 0xdc
  const ESC_ESC: byte := 0xdd

  datatype State = WaitBeg | WaitEnd | WaitEndEsc

  /** The decoder between two bytes. */
  datatype Decoder = Decoder(state: State, data: seq<byte>)

  function Escaped(b: byte): seq<byte> {
    if b == END then [ESC, ESC_END] else if b == ESC then [ESC, ESC_ESC] else [b]
  }

  function Body(data: seq<byte>): seq<byte> {
    if data == [] then [] else Escaped(data[0]) + Body(data[1..])
  }

  function Encoded(data: seq<byte>): seq<byte> {
    [END] + Body(data) + [END]
  }

  /** One byte through the decoder, with the frames it completes. */
  function Step(d: Decoder, b: byte): (Decoder, seq<seq<byte>>) {
    match d.state
    case WaitBeg =>
      if b == END then (Decoder(WaitEnd, []), []) else (d, [])
    case WaitEnd =>
      if b == ESC then (d.(state := WaitEndEsc), [])
      else if b == END then (if d.data != [] then (Decoder(WaitEnd, []), [d.data]) else (d, []))
      else (d.(data := d.data + [b]), [])
    case WaitEndEsc =>
      (Decoder(WaitEnd, d.data + (if b == ESC_END then [END] else if b == ESC_ESC then [ESC] else [])), [])
  }

  function Frames(d: Decoder, bytes: seq<byte>): seq<seq<byte>>
    decreases |bytes|
  {
    if bytes == [] then [] else Step(d, bytes[0]).1 + Frames(Step(d, bytes[0]).0, bytes[1..])
  }

  function After(d: Decoder, bytes: seq<byte>): Decoder
    decreases |bytes|
  {
    if bytes == [] then d else After(Step(d, bytes[0]).0, bytes[1..])
  }

  /** Chunking does not matter: decoding in two calls is decoding in one. */
  lemma {:induction false} DecodeAppend(d: Decoder, a: seq<byte>, b: seq<byte>)
    ensures Frames(d, a + b) == Frames(d, a) + Frames(After(d, a), b)
    ensures After(d, a + b) == After(After(d, a), b)
    decreases |a|
  {
    if a == [] {
      assert a + b == b;
    } else {
      assert (a + b)[1..] == a[1..] + b;
      DecodeAppend(Step(d, a[0]).0, a[1..], b);
    }
  }

  lemma DecodeOne(d: Decoder, b: byte)
    ensures Frames(d, [b]) == Step(d, b).1 && After(d, [b]) == Step(d, b).0
  {
    assert [b][1..] == [];
    assert Frames(Step(d, b).0, []) == [];
  }

  /** The decoder that `decode` calls leave behind, and all they return. */
  function FramesOfChunks(d: Decoder, chunks: seq<seq<byte>>): seq<seq<byte>>
    decreases |chunks|
  {
    if chunks == [] then [] else Frames(d, chunks[0]) + FramesOfChunks(After(d, chunks[0]), chunks[1..])
  }

  lemma {:induction false} ChunksDecodeAsOne(d: Decoder, chunks: seq<seq<byte>>)
    ensures FramesOfChunks(d, chunks) == Frames(d, Flatten(chunks))
    decreases |chunks|
  {
    if chunks != [] {
      ChunksDecodeAsOne(After(d, chunks[0]), chunks[1..]);
      DecodeAppend(d, chunks[0], Flatten(chunks[1..]));
    }
  }

  lemma DecodeEscaped(held: seq<byte>, b: byte)
    ensures Frames(Decoder(WaitEnd, held), Escaped(b)) == []
    ensures After(Decoder(WaitEnd, held), Escaped(b)) == Decoder(WaitEnd, held + [b])
  {
    var d := Decoder(WaitEnd, held);
    var e := Escaped(b);
    if |e| == 2 {
      assert e == [ESC] + [e[1]];
      DecodeAppend(d, [ESC], [e[1]]);
      DecodeOne(d, ESC);
      DecodeOne(d.(state := WaitEndEsc), e[1]);
    } else {
      DecodeOne(d, b);
    }
  }

  lemma {:induction false} DecodeBody(held: seq<byte>, data: seq<byte>)
    ensures Frames(Decoder(WaitEnd, held), Body(data)) == []
    ensures After(Decoder(WaitEnd, held), Body(data)) == Decoder(WaitEnd, held + data)
    decreases |data|
  {
    if data == [] {
      assert held + data == held;
    } else {
      DecodeEscaped(held, data[0]);
      DecodeAppend(Decoder(WaitEnd, held), Escaped(data[0]), Body(data[1..]));
      DecodeBody(held + [data[0]], data[1..]);
      Regroup(held, [data[0]], data[1..]);
      assert [data[0]] + data[1..] == data;
    }
  }

  function NonEmpty(f: seq<byte>): seq<seq<byte>> {
    if f == [] then [] else [f]
  }

  /**
    One encoded frame from any decoder state whatsoever: exactly what comes out, and that the decoder is
    in step afterwards. Only a frame that arrives in the middle of an escape is not returned as it is:
    its opening delimiter is taken for the escaped byte, and it is joined to what was held.
   */
  lemma DecodeFrame(d: Decoder, data: seq<byte>)
    ensures After(d, Encoded(data)) == Decoder(WaitEnd, [])
    ensures Frames(d, Encoded(data)) ==
      match d.state
      case WaitBeg => NonEmpty(data)
      case WaitEnd => NonEmpty(d.data) + NonEmpty(data)
      case WaitEndEsc => NonEmpty(d.data + data)
  {
    assert Encoded(data) == [END] + (Body(data) + [END]);
    DecodeAppend(d, [END], Body(data) + [END]);
    DecodeOne(d, END);
    var begun := Step(d, END).0;
    var held := if d.state == WaitEndEsc then d.data else [];
    assert begun == Decoder(WaitEnd, held);
    DecodeAppend(begun, Body(data), [END]);
    DecodeBody(held, data);
    assert [] + data == data;
    DecodeOne(Decoder(WaitEnd, held + data), END);
  }

  function EncodedAll(frames: seq<seq<byte>>): seq<byte> {
    if frames == [] then [] else Encoded(frames[0]) + EncodedAll(frames[1..])
  }

  /** The frames of a list that hold anything. */
  function Filled(frames: seq<seq<byte>>): (r: seq<seq<byte>>)
    ensures |r| <= |frames|
  {
    if frames == [] then [] else NonEmpty(frames[0]) + Filled(frames[1..])
  }

  lemma {:induction false} FilledIsAll(frames: seq<seq<byte>>)
    ensures Filled(frames) == frames <==> forall f :: f in frames ==> f != []
  {
    if frames != [] {
      FilledIsAll(frames[1..]);
      assert frames == [frames[0]] + frames[1..] && frames[0] in frames;
      assert forall f :: f in frames <==> f == frames[0] || f in frames[1..];
      if frames[0] != [] {
        assert Filled(frames)[1..] == Filled(frames[1..]);
      }
    }
  }

  lemma {:induction false} DecodeInStep(d: Decoder, frames: seq<seq<byte>>)
    requires d == Decoder(WaitEnd, []) || d.state == WaitBeg
    ensures Frames(d, EncodedAll(frames)) == Filled(frames)
    decreases |frames|
  {
    if frames != [] {
      DecodeFrame(d, frames[0]);
      DecodeAppend(d, Encoded(frames[0]), EncodedAll(frames[1..]));
      DecodeInStep(Decoder(WaitEnd, []), frames[1..]);
      assert [] + NonEmpty(frames[0]) == NonEmpty(frames[0]);
    }
  }

  /**
    Frames encoded one after the other and cut into any chunks decode to those that hold anything, so to
    themselves if and only if none is empty.
   */
  lemma StreamRoundTrip(frames: seq<seq<byte>>, chunks: seq<seq<byte>>, junk: seq<byte>)
    requires Flatten(chunks) == EncodedAll(frames)
    ensures FramesOfChunks(Decoder(WaitBeg, junk), chunks) == Filled(frames)
    ensures FramesOfChunks(Decoder(WaitBeg, junk), chunks) == frames <==> forall f :: f in frames ==> f != []
  {
    ChunksDecodeAsOne(Decoder(WaitBeg, junk), chunks);
    DecodeInStep(Decoder(WaitBeg, junk), frames);
    FilledIsAll(frames);
  }

  /**
    Resynchronisation: from any decoder state, however the bytes are cut, everything after the first
    encoded frame decodes exactly, empty frames apart, and the first one itself does unless an escape was left open.
   */
  lemma Resynchronises(d: Decoder, first: seq<byte>, frames: seq<seq<byte>>, chunks: seq<seq<byte>>)
    requires Flatten(chunks) == Encoded(first) + EncodedAll(frames)
    ensures FramesOfChunks(d, chunks) == Frames(d, Encoded(first)) + Filled(frames)
    ensures first != [] ==>
      var out := Frames(d, Encoded(first));
      out != [] && (out[|out| - 1] == first <==> d.state != WaitEndEsc || d.data == [])
  {
    ChunksDecodeAsOne(d, chunks);
    DecodeAppend(d, Encoded(first), EncodedAll(frames));
    DecodeFrame(d, first);
    DecodeInStep(Decoder(WaitEnd, []), frames);
    assert |d.data + first| == |d.data| + |first|;
    assert [] + first == first;
  }

  // ---------------------------------------------------------------- on the wire, byte by byte

  /** What a frame looks like: 0x0c around it, and the two bytes 0x0c and 0xdb replaced by pairs. */
  lemma {:induction false} EncodedIs(data: seq<byte>)
    ensures Encoded(data) == [0x0c] + Flatten(seq(|data|, i requires 0 <= i < |data| =>
      if data[i] == 0x0c then [0xdb, 0xdc] else if data[i] == 0xdb then [0xdb, 0xdd] else [data[i]])) + [0x0c]
  {
    BodyIs(data);
  }

  lemma {:induction false} BodyIs(data: seq<byte>)
    ensures Body(data) == Flatten(seq(|data|, i requires 0 <= i < |data| =>
      if data[i] == 0x0c then [0xdb, 0xdc] else if data[i] == 0xdb then [0xdb, 0xdd] else [data[i]]))
  {
    var pairs: seq<seq<byte>> := seq(|data|, i requires 0 <= i < |data| =>
      if data[i] == 0x0c then [0xdb, 0xdc] else if data[i] == 0xdb then [0xdb, 0xdd] else [data[i]]);
    if data == [] {
      assert pairs == [];
    } else {
      BodyIs(data[1..]);
      var rest: seq<seq<byte>> := seq(|data[1..]|, i requires 0 <= i < |data[1..]| =>
        if data[1..][i] == 0x0c then [0xdb, 0xdc] else if data[1..][i] == 0xdb then [0xdb, 0xdd] else [data[1..][i]]);
      assert pairs[1..] == rest && pairs[0] == Escaped(data[0]);
    }
  }

  /** Between delimiters nothing looks like one. */
  lemma {:induction false} NoDelimiterInside(data: seq<byte>)
    ensures 0x0c !in Body(data)
  {
    if data != [] {
      NoDelimiterInside(data[1..]);
    }
  }

  /** Bytes that no encoder writes: those before the first delimiter are skipped, and so is a byte wrongly escaped. */
  lemma {:induction false} NoiseIsSkipped(junk: seq<byte>, noise: seq<byte>, rest: seq<byte>)
    requires 0x0c !in noise
    ensures Frames(Decoder(WaitBeg, junk), noise + rest) == Frames(Decoder(WaitBeg, junk), rest)
    decreases |noise|
  {
    if noise == [] {
      assert noise + rest == rest;
    } else {
      assert (noise + rest)[1..] == noise[1..] + rest;
      NoiseIsSkipped(junk, noise[1..], rest);
    }
  }

  lemma BadEscapeIsDropped(held: seq<byte>, b: byte, rest: seq<byte>)
    requires b != 0xdc && b != 0xdd
    ensures Frames(Decoder(WaitEnd, held), [0xdb, b] + rest) == Frames(Decoder(WaitEnd, held), rest)
  {
    assert [0xdb, b] == [0xdb] + [b];
    DecodeAppend(Decoder(WaitEnd, held), [0xdb, b], rest);
    DecodeAppend(Decoder(WaitEnd, held), [0xdb], [b]);
    DecodeOne(Decoder(WaitEnd, held), 0xdb);
    DecodeOne(Decoder(WaitEndEsc, held), b);
    assert held + [] == held;
  }

  /** The decoder object. */
  class SlipCodec {
    var decoderState: State
    var decoderData: seq<byte>

    function Now(): Decoder
      reads this
    {
      Decoder(decoderState, decoderData)
    }

    constructor ()
      ensures Now() == Decoder(WaitBeg, [])
    {
      decoderState, decoderData := WaitBeg, [];
    }

    method ResetDecoder()
      modifies this
      ensures Now() == Decoder(WaitBeg, [])
    {
      decoderState, decoderData := WaitBeg, [];
    }

    method Encode(data: seq<byte>) returns (encoded: seq<byte>)
      ensures encoded == Encoded(data)
    {
      encoded := [END];
      for i := 0 to |data|
        invariant encoded + Body(data[i..]) == [END] + Body(data)
      {
        assert data[i..][0] == data[i] && data[i..][1..] == data[i + 1..];
        ghost var before := encoded;
        if data[i] == END {
          encoded := encoded + [ESC];
          encoded := encoded + [ESC_END];
        } else if data[i] == ESC {
          encoded := encoded + [ESC];
          encoded := encoded + [ESC_ESC];
        } else {
          encoded := encoded + [data[i]];
        }
        assert encoded == before + Escaped(data[i]);
        Regroup(before, Escaped(data[i]), Body(data[i + 1..]));
      }
      encoded := encoded + [END];
    }

    method Decode(data: seq<byte>) returns (result: seq<seq<byte>>)
      modifies this
      ensures result == Frames(old(Now()), data)
      ensures Now() == After(old(Now()), data)
    {
      result := [];
      ghost var start := Now();
      for i := 0 to |data|
        invariant result == Frames(start, data[..i]) && Now() == After(start, data[..i])
      {
        ghost var (before, out) := (Now(), result);
        var byte := data[i];
        match decoderState {
          case WaitBeg =>
            if byte == END {
              decoderState := WaitEnd;
              decoderData := [];
            }
          case WaitEnd =>
            if byte == ESC {
              decoderState := WaitEndEsc;
            } else if byte == END {
              if |decoderData| > 0 {
                result := result + [decoderData];
                decoderData := [];
              }
            } else {
              decoderData := decoderData + [byte];
            }
          case WaitEndEsc =>
            if byte == ESC_END {
              decoderData := decoderData + [END];
            } else if byte == ESC_ESC {
              decoderData := decoderData + [ESC];
            }
            decoderState := WaitEnd;
        }
        assert data[..i + 1] == data[..i] + [byte];
        DecodeAppend(start, data[..i], [byte]);
        DecodeOne(before, byte);
        assert Now() == Step(before, byte).0;
        assert result == out + Step(before, byte).1;
      }
      assert data[..|data|] == data;
    }
  }
}
