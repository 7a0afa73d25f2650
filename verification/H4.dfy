/**
  The UART transport on the host (section 2 of Core 5.2 Vol 4 Part A): the `H4` parser, fed in chunks,
  and the loop in `HciAdapter` that drains it.

  `getPayloadSize` counts its offsets from the start of the underlying buffer. When the type byte and
  the header are consumed in one call, that buffer still begins with the type byte, so the length is
  read one byte early. The parser is modelled with both readings.
 */
module H4 {
  import opened Bytes

  datatype Phase = Type | Header | Payload

  /** Where the offsets of `getPayloadSize` start: at the buffer, as written, or at the header, as meant. */
  datatype Reading = AsWritten | AsMeant

  datatype Parser = Parser(phase: Phase, packetType: byte, data: seq<byte>, headerSize: nat, packetSize: nat)

  datatype H4Packet = H4Packet(packetType: byte, packet: seq<byte>)

  const COMMAND: byte := 1
  const ACL: byte := 2
  const SYNC: byte := 3
  const EVENT: byte := 4
  const ISO: byte := 5

  function HeaderSize(t: byte): nat {
    if t == COMMAND then 3 else if t == ACL then 4 else if t == SYNC then 3
    else if t == EVENT then 2 else if t == ISO then 4 else 0
  }

  /** The length field of a header that starts at `at`; isochronous packets and unknown types have none. */
  function PayloadSize(t: byte, buffer: seq<byte>, at: nat): nat
    requires at + HeaderSize(t) <= |buffer|
  {
    if t == COMMAND || t == SYNC then buffer[at + 2]
    else if t == ACL then ReadLe16(buffer, at + 2)
    else if t == EVENT then buffer[at + 1]
    else 0
  }

  // ---------------------------------------------------------------- one call of parse

  /** The three steps of `parse`; `base` is where `data` starts in `buffer`. */
  function TakeType(p: Parser, buffer: seq<byte>): (Parser, nat) {
    if p.phase.Type? && buffer != []
    then (Parser(Header, buffer[0], buffer[1..], HeaderSize(buffer[0]), p.packetSize), 1)
    else (p.(data := buffer), 0)
  }

  function TakeHeader(reading: Reading, p: Parser, buffer: seq<byte>, base: nat): Parser
    requires base + |p.data| == |buffer|
    requires p.phase.Header? ==> p.headerSize == HeaderSize(p.packetType)
  {
    if p.phase.Header? && |p.data| >= p.headerSize
    then p.(packetSize := p.headerSize + PayloadSize(p.packetType, buffer, if reading.AsMeant? then base else 0),
      phase := Payload)
    else p
  }

  function TakePayload(p: Parser): (Parser, Option<H4Packet>) {
    if p.phase.Payload? && |p.data| >= p.packetSize
    then (p.(data := p.data[p.packetSize..], phase := Type), Some(H4Packet(p.packetType, p.data[..p.packetSize])))
    else (p, None)
  }

  /** Between calls a header is expected at its type's size. */
  predicate Sound(p: Parser) {
    !p.phase.Type? ==> p.headerSize == HeaderSize(p.packetType)
  }

  function Parse(reading: Reading, p: Parser, chunk: seq<byte>): (r: (Parser, Option<H4Packet>))
    requires Sound(p)
    ensures Sound(r.0)
  {
    var buffer := p.data + chunk;
    var (q, base) := TakeType(p, buffer);
    TakePayload(TakeHeader(reading, q, buffer, base))
  }

  /** The bytes the parser holds back, the consumed type byte included. */
  function Held(p: Parser): seq<byte> {
    if p.phase.Type? then p.data else [p.packetType] + p.data
  }

  function Wire(packets: seq<H4Packet>): seq<byte> {
    if packets == [] then [] else [packets[0].packetType] + packets[0].packet + Wire(packets[1..])
  }

  function Listed(o: Option<H4Packet>): seq<H4Packet> {
    if o.Some? then [o.value] else []
  }

  lemma TypeConserves(p: Parser, chunk: seq<byte>)
    ensures Held(TakeType(p, p.data + chunk).0) == Held(p) + chunk
  {
    var buffer := p.data + chunk;
    if p.phase.Type? && buffer != [] {
      assert [buffer[0]] + buffer[1..] == buffer;
    }
  }

  lemma PayloadConserves(h: Parser)
    ensures var (q, out) := TakePayload(h);
      && Held(h) == Wire(Listed(out)) + Held(q)
      && (out.Some? ==> |Held(q)| < |Held(h)|)
  {
    var (q, out) := TakePayload(h);
    if out.Some? {
      var packet := out.value.packet;
      assert Wire([out.value]) == [h.packetType] + packet + Wire([]);
      assert h.data == packet + q.data;
      assert [h.packetType] + (packet + q.data) == ([h.packetType] + packet + []) + q.data;
    } else {
      assert [] + Held(q) == Held(q);
    }
  }

  /** With either reading, a call loses and invents no byte, and each packet uses up at least its type byte. */
  lemma ParseConserves(reading: Reading, p: Parser, chunk: seq<byte>)
    requires Sound(p)
    ensures var (q, out) := Parse(reading, p, chunk);
      && Held(p) + chunk == Wire(Listed(out)) + Held(q)
      && (out.Some? ==> |Held(q)| < |Held(p)| + |chunk|)
  {
    var buffer := p.data + chunk;
    var (t, base) := TakeType(p, buffer);
    TypeConserves(p, chunk);
    PayloadConserves(TakeHeader(reading, t, buffer, base));
  }

  // ---------------------------------------------------------------- draining

  /** The adapter's loop: parse the chunk, then parse nothing until no packet comes out. */
  function Drain(reading: Reading, p: Parser, chunk: seq<byte>): (r: (Parser, seq<H4Packet>))
    requires Sound(p)
    ensures Sound(r.0)
    decreases |Held(p)| + |chunk|
  {
    var (q, out) := Parse(reading, p, chunk);
    if out.None? then (q, []) else
      assert |Held(q)| < |Held(p)| + |chunk| by { ParseConserves(reading, p, chunk); }
      var (last, rest) := Drain(reading, q, []);
      (last, [out.value] + rest)
  }

  lemma {:induction false} WireAppend(a: seq<H4Packet>, b: seq<H4Packet>)
    ensures Wire(a + b) == Wire(a) + Wire(b)
  {
    if a == [] {
      assert a + b == b;
    } else {
      assert (a + b)[1..] == a[1..] + b;
      WireAppend(a[1..], b);
    }
  }

  lemma {:induction false} DrainConserves(reading: Reading, p: Parser, chunk: seq<byte>)
    requires Sound(p)
    ensures var (q, packets) := Drain(reading, p, chunk);
      Held(p) + chunk == Wire(packets) + Held(q)
    decreases |Held(p)| + |chunk|
  {
    ParseConserves(reading, p, chunk);
    var (q, out) := Parse(reading, p, chunk);
    if out.Some? {
      DrainConserves(reading, q, []);
      var (last, rest) := Drain(reading, q, []);
      assert Drain(reading, p, chunk) == (last, [out.value] + rest);
      Rejoin(Held(p) + chunk, [out.value], Held(q), rest, Held(last));
    }
  }

  lemma Rejoin(all: seq<byte>, first: seq<H4Packet>, mid: seq<byte>, rest: seq<H4Packet>, end: seq<byte>)
    requires all == Wire(first) + mid && mid + [] == Wire(rest) + end
    ensures all == Wire(first + rest) + end
  {
    WireAppend(first, rest);
    assert mid + [] == mid;
    assert Wire(first) + (Wire(rest) + end) == (Wire(first) + Wire(rest)) + end;
  }

  function Feed(reading: Reading, p: Parser, chunks: seq<seq<byte>>): (Parser, seq<H4Packet>)
    requires Sound(p)
    decreases |chunks|
  {
    if chunks == [] then (p, []) else
      var (q, packets) := Drain(reading, p, chunks[0]);
      var (last, rest) := Feed(reading, q, chunks[1..]);
      (last, packets + rest)
  }

  const NEW_PARSER := Parser(Type, 0, [], 0, 0)

  /** Over any chunks, with either reading: the packets and what is held are the bytes fed, in order. */
  lemma {:induction false} FeedConserves(reading: Reading, p: Parser, chunks: seq<seq<byte>>)
    requires Sound(p)
    ensures Held(p) + Flatten(chunks) == Wire(Feed(reading, p, chunks).1) + Held(Feed(reading, p, chunks).0)
    decreases |chunks|
  {
    if chunks != [] {
      DrainConserves(reading, p, chunks[0]);
      var (q, packets) := Drain(reading, p, chunks[0]);
      FeedConserves(reading, q, chunks[1..]);
      var (last, rest) := Feed(reading, q, chunks[1..]);
      var later := Flatten(chunks[1..]);
      WireAppend(packets, rest);
      Regroup(Held(p), chunks[0], later);
      Regroup(Wire(packets), Held(q), later);
      Regroup(Wire(packets), Wire(rest), Held(last));
    }
  }

  // ---------------------------------------------------------------- the one-shot parse

  /** The size of the complete packet, type byte included, that a stream begins with; 0 when there is none. */
  function FirstSize(s: seq<byte>): (n: nat)
    ensures n <= |s|
  {
    if s == [] || |s| - 1 < HeaderSize(s[0]) then 0 else
      var n := 1 + HeaderSize(s[0]) + PayloadSize(s[0], s, 1);
      if |s| < n then 0 else n
  }

  function Packets(s: seq<byte>): seq<H4Packet>
    decreases |s|
  {
    var n := FirstSize(s);
    if n == 0 then [] else [H4Packet(s[0], s[1..n])] + Packets(s[n..])
  }

  function Remainder(s: seq<byte>): seq<byte>
    decreases |s|
  {
    var n := FirstSize(s);
    if n == 0 then s else Remainder(s[n..])
  }

  lemma FirstSizeStable(s: seq<byte>, t: seq<byte>)
    requires FirstSize(s) > 0
    ensures FirstSize(s + t) == FirstSize(s)
  {
    assert PayloadSize(s[0], s + t, 1) == PayloadSize(s[0], s, 1);
  }

  lemma {:induction false} PacketsAppend(s: seq<byte>, t: seq<byte>)
    ensures Packets(s + t) == Packets(s) + Packets(Remainder(s) + t)
    ensures Remainder(s + t) == Remainder(Remainder(s) + t)
    decreases |s|
  {
    var n := FirstSize(s);
    if n > 0 {
      FirstSizeStable(s, t);
      PacketsAppend(s[n..], t);
      assert (s + t)[n..] == s[n..] + t;
      assert (s + t)[1..n] == s[1..n];
    }
  }

  /** A parser that waits for a payload knows its size from the header it holds. */
  predicate Informed(p: Parser) {
    && Sound(p)
    && (p.phase.Payload? ==>
      |p.data| >= p.headerSize && p.packetSize == p.headerSize + PayloadSize(p.packetType, p.data, 0))
  }

  lemma PayloadSizeShift(t: byte, buffer: seq<byte>, base: nat, data: seq<byte>, more: seq<byte>)
    requires base <= |buffer| && buffer[base..] == data + more && |data| >= HeaderSize(t)
    ensures base + HeaderSize(t) <= |buffer|
    ensures PayloadSize(t, buffer, base) == PayloadSize(t, data, 0)
  {
    assert forall k :: 0 <= k < |data| ==> buffer[base + k] == buffer[base..][k] == data[k];
  }

  lemma TakeTypeInforms(p: Parser, chunk: seq<byte>)
    requires Informed(p)
    ensures var buffer := p.data + chunk;
      var (t, base) := TakeType(p, buffer);
      && buffer[base..] == t.data
      && (t.phase.Type? ==> Held(t) == [])
      && (t.phase.Header? ==> t.headerSize == HeaderSize(t.packetType))
      && (t.phase.Payload? ==> Informed(t))
  {
    if p.phase.Payload? {
      PayloadSizeShift(p.packetType, p.data + chunk, 0, p.data, chunk);
    }
  }

  lemma TakeHeaderInforms(t: Parser, buffer: seq<byte>, base: nat)
    requires base <= |buffer| && buffer[base..] == t.data
    requires t.phase.Header? ==> t.headerSize == HeaderSize(t.packetType)
    requires t.phase.Payload? ==> Informed(t)
    ensures Informed(TakeHeader(AsMeant, t, buffer, base))
  {
    if t.phase.Header? && |t.data| >= t.headerSize {
      assert t.data == t.data + [];
      PayloadSizeShift(t.packetType, buffer, base, t.data, []);
    }
  }

  lemma TakePayloadMeant(h: Parser)
    requires Informed(h)
    requires h.phase.Type? ==> h.data == []
    requires h.phase.Header? ==> |h.data| < h.headerSize
    ensures var (q, out) := TakePayload(h);
      var s := Held(h);
      var n := FirstSize(s);
      && Informed(q)
      && (n == 0 ==> out.None? && q == h)
      && (n > 0 ==> out == Some(H4Packet(s[0], s[1..n])) && q.phase.Type? && Held(q) == s[n..])
  {
    var s := Held(h);
    if h.phase.Payload? {
      assert s[1..] == h.data == h.data + [];
      PayloadSizeShift(h.packetType, s, 1, h.data, []);
      assert FirstSize(s) == if |h.data| < h.packetSize then 0 else 1 + h.packetSize;
      if |h.data| >= h.packetSize {
        assert s[1..1 + h.packetSize] == h.data[..h.packetSize];
        assert s[1 + h.packetSize..] == h.data[h.packetSize..];
      }
    }
  }

  lemma ParseMeant(p: Parser, chunk: seq<byte>)
    requires Informed(p)
    ensures var (q, out) := Parse(AsMeant, p, chunk);
      var s := Held(p) + chunk;
      var n := FirstSize(s);
      && Informed(q)
      && (n == 0 ==> out.None? && Held(q) == s)
      && (n > 0 ==> out == Some(H4Packet(s[0], s[1..n])) && q.phase.Type? && Held(q) == s[n..])
      && (out.None? && q.phase.Type? ==> q.data == [])
  {
    var buffer := p.data + chunk;
    var (t, base) := TakeType(p, buffer);
    TypeConserves(p, chunk);
    TakeTypeInforms(p, chunk);
    TakeHeaderInforms(t, buffer, base);
    TakePayloadMeant(TakeHeader(AsMeant, t, buffer, base));
  }

  lemma {:induction false} DrainMeant(p: Parser, chunk: seq<byte>)
    requires Informed(p)
    ensures var (q, packets) := Drain(AsMeant, p, chunk);
      && Informed(q) && FirstSize(Held(q)) == 0 && (q.phase.Type? ==> q.data == [])
      && packets == Packets(Held(p) + chunk)
      && Held(q) == Remainder(Held(p) + chunk)
    decreases |Held(p)| + |chunk|
  {
    ParseMeant(p, chunk);
    ParseConserves(AsMeant, p, chunk);
    var (q, out) := Parse(AsMeant, p, chunk);
    if out.Some? {
      DrainMeant(q, []);
      assert Held(q) + [] == Held(q);
    }
  }

  /** With the length read from the header, the packets are those of the whole stream, however it is cut. */
  lemma {:induction false} ChunkingDoesNotMatter(p: Parser, chunks: seq<seq<byte>>)
    requires Informed(p) && FirstSize(Held(p)) == 0
    ensures Feed(AsMeant, p, chunks).1 == Packets(Held(p) + Flatten(chunks))
    ensures Held(Feed(AsMeant, p, chunks).0) == Remainder(Held(p) + Flatten(chunks))
    decreases |chunks|
  {
    if chunks == [] {
      assert Held(p) + Flatten(chunks) == Held(p);
    } else {
      DrainMeant(p, chunks[0]);
      var (q, packets) := Drain(AsMeant, p, chunks[0]);
      ChunkingDoesNotMatter(q, chunks[1..]);
      assert Feed(AsMeant, p, chunks).1 == packets + Feed(AsMeant, q, chunks[1..]).1;
      PacketsRejoin(Held(p), chunks[0], Flatten(chunks[1..]));
    }
  }

  lemma PacketsRejoin(held: seq<byte>, chunk: seq<byte>, later: seq<byte>)
    ensures Packets(held + (chunk + later)) == Packets(held + chunk) + Packets(Remainder(held + chunk) + later)
    ensures Remainder(held + (chunk + later)) == Remainder(Remainder(held + chunk) + later)
  {
    Regroup(held, chunk, later);
    PacketsAppend(held + chunk, later);
  }

  // ---------------------------------------------------------------- the reading as written

  /**
    The header is complete in the call that takes the type byte, and its length field differs from the bytes
    one place earlier.
   */
  predicate Misread(p: Parser, chunk: seq<byte>) {
    var s := p.data + chunk;
    && p.phase.Type? && s != [] && |s| > HeaderSize(s[0])
    && (if s[0] == COMMAND || s[0] == SYNC then s[2] != s[3]
        else if s[0] == ACL then s[2] != s[3] || s[3] != s[4]
        else if s[0] == EVENT then s[1] != s[2]
        else false)
  }

  /** A call of the code does what was meant if and only if it does not misread the length. */
  lemma ReadingsAgree(p: Parser, chunk: seq<byte>)
    requires Sound(p)
    ensures Parse(AsWritten, p, chunk) == Parse(AsMeant, p, chunk) <==> !Misread(p, chunk)
  {
    var buffer := p.data + chunk;
    var (t, base) := TakeType(p, buffer);
    var written := TakeHeader(AsWritten, t, buffer, base);
    var meant := TakeHeader(AsMeant, t, buffer, base);
    assert TakePayload(written).0.packetSize == written.packetSize;
    assert TakePayload(meant).0.packetSize == meant.packetSize;
    if base == 1 && |t.data| >= t.headerSize {
      assert PayloadSize(buffer[0], buffer, 0) == PayloadSize(buffer[0], buffer, 1) <==> !Misread(p, chunk);
    }
  }

  lemma FirstSizePrefix(s: seq<byte>, k: nat)
    requires k <= |s|
    ensures 0 < FirstSize(s) <= k ==> FirstSize(s[..k]) == FirstSize(s)
  {
    if 0 < FirstSize(s) <= k {
      assert PayloadSize(s[0], s[..k], 1) == PayloadSize(s[0], s, 1);
    }
  }

  /** No call that draining a chunk makes misreads a length. */
  predicate DrainReads(p: Parser, chunk: seq<byte>)
    requires Sound(p)
    decreases |Held(p)| + |chunk|
  {
    && !Misread(p, chunk)
    && var (q, out) := Parse(AsMeant, p, chunk);
       out.Some? ==>
         assert |Held(q)| < |Held(p)| + |chunk| by { ParseConserves(AsMeant, p, chunk); }
         DrainReads(q, [])
  }

  predicate FeedReads(p: Parser, chunks: seq<seq<byte>>)
    requires Sound(p)
    decreases |chunks|
  {
    chunks == [] || (DrainReads(p, chunks[0]) && FeedReads(Drain(AsMeant, p, chunks[0]).0, chunks[1..]))
  }

  /** The size of the k-th packet is settled: it has been emitted, or the parser waits for that many bytes. */
  predicate Settled(p: Parser, packets: seq<H4Packet>, k: nat, size: nat) {
    if |packets| > k then |packets[k].packet| == size
    else |packets| == k && p.phase.Payload? && p.packetSize == size
  }

  lemma ParseSettled(reading: Reading, p: Parser, chunk: seq<byte>, size: nat)
    requires Sound(p) && p.phase.Payload? && p.packetSize == size
    ensures Settled(Parse(reading, p, chunk).0, Listed(Parse(reading, p, chunk).1), 0, size)
  {
  }

  lemma DrainSettled(reading: Reading, p: Parser, chunk: seq<byte>, size: nat)
    requires Sound(p) && Settled(Parse(reading, p, chunk).0, Listed(Parse(reading, p, chunk).1), 0, size)
    ensures Settled(Drain(reading, p, chunk).0, Drain(reading, p, chunk).1, 0, size)
  {
  }

  lemma {:induction false} FeedSettled(reading: Reading, p: Parser, packets: seq<H4Packet>, chunks: seq<seq<byte>>,
    k: nat, size: nat)
    requires Sound(p) && Settled(p, packets, k, size)
    ensures Settled(Feed(reading, p, chunks).0, packets + Feed(reading, p, chunks).1, k, size)
    decreases |chunks|
  {
    if chunks == [] {
      assert packets + [] == packets;
    } else {
      var (q, more) := Drain(reading, p, chunks[0]);
      if |packets| == k {
        ParseSettled(reading, p, chunks[0], size);
        DrainSettled(reading, p, chunks[0], size);
      }
      FeedSettled(reading, q, packets + more, chunks[1..], k, size);
      Regroup(packets, more, Feed(reading, q, chunks[1..]).1);
    }
  }

  /** Two runs whose k-th packets have different sizes end differently. */
  lemma SettledApart(p: Parser, packets: seq<H4Packet>, p': Parser, packets': seq<H4Packet>, k: nat, size: nat,
    size': nat)
    requires Settled(p, packets, k, size) && Settled(p', packets', k, size') && size != size'
    ensures (p, packets) != (p', packets')
  {
  }

  lemma MisreadSettles(p: Parser, chunk: seq<byte>) returns (size: nat, size': nat)
    requires Sound(p) && Misread(p, chunk)
    ensures size != size'
    ensures Settled(Parse(AsWritten, p, chunk).0, Listed(Parse(AsWritten, p, chunk).1), 0, size)
    ensures Settled(Parse(AsMeant, p, chunk).0, Listed(Parse(AsMeant, p, chunk).1), 0, size')
  {
    var buffer := p.data + chunk;
    var (t, base) := TakeType(p, buffer);
    size := t.headerSize + PayloadSize(t.packetType, buffer, 0);
    size' := t.headerSize + PayloadSize(t.packetType, buffer, 1);
    PayloadSizesDiffer(buffer);
  }

  lemma PayloadSizesDiffer(s: seq<byte>)
    requires s != [] && |s| > HeaderSize(s[0])
    ensures PayloadSize(s[0], s, 0) == PayloadSize(s[0], s, 1) <==>
      if s[0] == COMMAND || s[0] == SYNC then s[2] == s[3]
      else if s[0] == ACL then s[2] == s[3] && s[3] == s[4]
      else if s[0] == EVENT then s[1] == s[2]
      else true
  {
  }

  lemma {:induction false} DrainsDiffer(p: Parser, chunk: seq<byte>) returns (k: nat, size: nat, size': nat)
    requires Sound(p) && !DrainReads(p, chunk)
    ensures size != size'
    ensures Settled(Drain(AsWritten, p, chunk).0, Drain(AsWritten, p, chunk).1, k, size)
    ensures Settled(Drain(AsMeant, p, chunk).0, Drain(AsMeant, p, chunk).1, k, size')
    decreases |Held(p)| + |chunk|
  {
    if Misread(p, chunk) {
      k := 0;
      size, size' := MisreadSettles(p, chunk);
      DrainSettled(AsWritten, p, chunk, size);
      DrainSettled(AsMeant, p, chunk, size');
    } else {
      ReadingsAgree(p, chunk);
      ParseConserves(AsMeant, p, chunk);
      var (q, out) := Parse(AsMeant, p, chunk);
      k, size, size' := DrainsDiffer(q, []);
      k := k + 1;
    }
  }

  lemma {:induction false} DrainsAgree(p: Parser, chunk: seq<byte>)
    requires Sound(p) && DrainReads(p, chunk)
    ensures Drain(AsWritten, p, chunk) == Drain(AsMeant, p, chunk)
    decreases |Held(p)| + |chunk|
  {
    ReadingsAgree(p, chunk);
    ParseConserves(AsMeant, p, chunk);
    var (q, out) := Parse(AsMeant, p, chunk);
    if out.Some? {
      DrainsAgree(q, []);
    }
  }

  /** Over a whole stream the code does what was meant if and only if no call misreads a length. */
  lemma {:induction false} FeedsAgree(p: Parser, chunks: seq<seq<byte>>)
    requires Sound(p)
    ensures Feed(AsWritten, p, chunks) == Feed(AsMeant, p, chunks) <==> FeedReads(p, chunks)
    decreases |chunks|
  {
    if chunks != [] {
      if DrainReads(p, chunks[0]) {
        DrainsAgree(p, chunks[0]);
        var (q, packets) := Drain(AsMeant, p, chunks[0]);
        FeedsAgree(q, chunks[1..]);
        SamePackets(packets, Feed(AsWritten, q, chunks[1..]), Feed(AsMeant, q, chunks[1..]));
      } else {
        FeedsDiffer(p, chunks);
      }
    }
  }

  lemma SamePackets(packets: seq<H4Packet>, r: (Parser, seq<H4Packet>), r': (Parser, seq<H4Packet>))
    ensures (r.0, packets + r.1) == (r'.0, packets + r'.1) <==> r == r'
  {
    assert (packets + r.1)[|packets|..] == r.1 && (packets + r'.1)[|packets|..] == r'.1;
  }

  lemma FeedsDiffer(p: Parser, chunks: seq<seq<byte>>)
    requires Sound(p) && chunks != [] && !DrainReads(p, chunks[0])
    ensures Feed(AsWritten, p, chunks) != Feed(AsMeant, p, chunks)
  {
    var k, size, size' := DrainsDiffer(p, chunks[0]);
    var (w, written) := Drain(AsWritten, p, chunks[0]);
    var (m, meant) := Drain(AsMeant, p, chunks[0]);
    FeedSettled(AsWritten, w, written, chunks[1..], k, size);
    FeedSettled(AsMeant, m, meant, chunks[1..], k, size');
    SettledApart(Feed(AsWritten, w, chunks[1..]).0, written + Feed(AsWritten, w, chunks[1..]).1,
      Feed(AsMeant, m, chunks[1..]).0, meant + Feed(AsMeant, m, chunks[1..]).1, k, size, size');
  }

  /** With at most one byte more than it has used up, a parser that has nothing to emit emits all it has. */
  lemma OneByteLeft(p: Parser, chunk: seq<byte>)
    requires Informed(p) && FirstSize(Held(p)) == 0 && |chunk| <= 1
    ensures var (q, out) := Parse(AsMeant, p, chunk); out.Some? ==> Informed(q) && q.phase.Type? && q.data == []
  {
    ParseMeant(p, chunk);
    var s := Held(p) + chunk;
    assert s[..|Held(p)|] == Held(p);
    FirstSizePrefix(s, |Held(p)|);
  }

  lemma OneByteReads(p: Parser, chunk: seq<byte>)
    requires Informed(p) && FirstSize(Held(p)) == 0 && (p.phase.Type? ==> p.data == []) && |chunk| <= 1
    ensures DrainReads(p, chunk)
  {
    OneByteLeft(p, chunk);
    NoMisread(p, chunk);
    var (q, out) := Parse(AsMeant, p, chunk);
    if out.Some? {
      NoMisread(q, []);
      assert q.data + [] == [];
    }
  }

  lemma NoMisread(p: Parser, chunk: seq<byte>)
    requires (p.phase.Type? ==> p.data == []) && |chunk| <= 1
    ensures !Misread(p, chunk)
  {
  }

  /** A device that delivers single bytes never triggers the misreading: the code parses its stream exactly. */
  lemma {:induction false} SingleBytesAreSafe(p: Parser, chunks: seq<seq<byte>>)
    requires Informed(p) && FirstSize(Held(p)) == 0 && (p.phase.Type? ==> p.data == [])
    requires forall c :: c in chunks ==> |c| <= 1
    ensures FeedReads(p, chunks) && Feed(AsWritten, p, chunks).1 == Packets(Held(p) + Flatten(chunks))
    decreases |chunks|
  {
    ChunkingDoesNotMatter(p, chunks);
    if chunks != [] {
      assert chunks[0] in chunks;
      assert forall c :: c in chunks[1..] ==> c in chunks;
      OneByteReads(p, chunks[0]);
      DrainMeant(p, chunks[0]);
      SingleBytesAreSafe(Drain(AsMeant, p, chunks[0]).0, chunks[1..]);
    }
    FeedsAgree(p, chunks);
  }

  /** A whole event in one chunk: the code takes its event code for the length and waits for 14 bytes. */
  lemma EventInOneChunkIsMissed()
    ensures var event := [EVENT, 0x0e, 0x01, 0x00];
      && Feed(AsMeant, NEW_PARSER, [event]).1 == [H4Packet(EVENT, [0x0e, 0x01, 0x00])]
      && Feed(AsWritten, NEW_PARSER, [event]).1 == []
  {
    var event := [EVENT, 0x0e, 0x01, 0x00];
    assert NEW_PARSER.data + event == event;
    var t := Parser(Header, EVENT, event[1..], 2, 0);
    assert TakeType(NEW_PARSER, event) == (t, 1);
    assert TakeHeader(AsWritten, t, event, 1) == t.(phase := Payload, packetSize := 16);
    FeedOne(AsWritten, NEW_PARSER, event);
    FeedOne(AsMeant, NEW_PARSER, event);
    DrainMeant(NEW_PARSER, event);
    assert Held(NEW_PARSER) + event == event;
    assert FirstSize(event) == 4 && event[4..] == [];
    assert event[1..4] == [0x0e, 0x01, 0x00];
    assert Packets([]) == [];
    assert Packets(event) == [H4Packet(EVENT, event[1..4])] + Packets(event[4..]);
  }

  lemma FeedOne(reading: Reading, p: Parser, chunk: seq<byte>)
    requires Sound(p)
    ensures Feed(reading, p, [chunk]).1 == Drain(reading, p, chunk).1
  {
    var (q, packets) := Drain(reading, p, chunk);
    assert [chunk][1..] == [];
    assert Feed(reading, q, []).1 == [];
  }

  // ---------------------------------------------------------------- packets there and back

  /**
    A packet as it is laid out: a command or synchronous packet has its length in the third byte, ACL data
    in the third and fourth, an event in the second; an isochronous packet is taken for its header alone,
    and a byte that is no packet type for a packet of its own.
   */
  predicate Framed(p: H4Packet) {
    var (t, b) := (p.packetType, p.packet);
    if t == 1 || t == 3 then |b| >= 3 && |b| == 3 + b[2] as int
    else if t == 2 then |b| >= 4 && |b| == 4 + b[2] as int + 0x100 * b[3] as int
    else if t == 4 then |b| >= 2 && |b| == 2 + b[1] as int
    else if t == 5 then |b| == 4
    else b == []
  }

  lemma FramedIsFirst(p: H4Packet, rest: seq<byte>)
    requires Framed(p)
    ensures FirstSize([p.packetType] + p.packet + rest) == 1 + |p.packet|
  {
    var s := [p.packetType] + p.packet + rest;
    assert forall k :: 0 <= k < |p.packet| ==> s[k + 1] == p.packet[k];
  }

  lemma {:induction false} FramedAreFound(packets: seq<H4Packet>)
    requires forall p :: p in packets ==> Framed(p)
    ensures Packets(Wire(packets)) == packets && Remainder(Wire(packets)) == []
  {
    if packets != [] {
      var (p, rest) := (packets[0], Wire(packets[1..]));
      var s := [p.packetType] + p.packet + rest;
      FramedIsFirst(p, rest);
      FramedAreFound(packets[1..]);
      assert s[1..1 + |p.packet|] == p.packet && s[1 + |p.packet|..] == rest;
    }
  }

  lemma {:induction false} FoundAreFramed(s: seq<byte>)
    ensures forall p :: p in Packets(s) ==> Framed(p)
    decreases |s|
  {
    var n := FirstSize(s);
    if n > 0 {
      FoundAreFramed(s[n..]);
      assert Framed(H4Packet(s[0], s[1..n]));
    }
  }

  /**
    Packets laid out one after the other and cut into any chunks come out as they are, with nothing held
    back, if their lengths are read where they are meant to be; and also as the code reads them if every
    chunk is a single byte.
   */
  lemma PacketsRoundTrip(packets: seq<H4Packet>, chunks: seq<seq<byte>>)
    requires Flatten(chunks) == Wire(packets) && forall p :: p in packets ==> Framed(p)
    ensures var (q, out) := Feed(AsMeant, NEW_PARSER, chunks); out == packets && Held(q) == []
    ensures (forall c :: c in chunks ==> |c| <= 1) ==>
      var (q, out) := Feed(AsWritten, NEW_PARSER, chunks); out == packets && Held(q) == []
  {
    assert Held(NEW_PARSER) + Wire(packets) == Wire(packets);
    FramedAreFound(packets);
    ChunkingDoesNotMatter(NEW_PARSER, chunks);
    if forall c :: c in chunks ==> |c| <= 1 {
      SingleBytesAreSafe(NEW_PARSER, chunks);
      FeedsAgree(NEW_PARSER, chunks);
    }
  }

  /** Nothing else comes out of any stream. */
  lemma OnlyFramedPackets(chunks: seq<seq<byte>>)
    ensures forall p :: p in Feed(AsMeant, NEW_PARSER, chunks).1 ==> Framed(p)
  {
    ChunkingDoesNotMatter(NEW_PARSER, chunks);
    FoundAreFramed(Held(NEW_PARSER) + Flatten(chunks));
  }

  // ---------------------------------------------------------------- the objects

  class H4Parser {
    const reading: Reading
    var parserState: Phase
    var parserPacketType: byte
    var parserPacketData: seq<byte>
    var parserHeaderSize: nat
    var parserPacketSize: nat

    function Now(): Parser
      reads this
    {
      Parser(parserState, parserPacketType, parserPacketData, parserHeaderSize, parserPacketSize)
    }

    constructor (reading: Reading)
      ensures this.reading == reading && Now() == NEW_PARSER
    {
      this.reading := reading;
      parserState, parserPacketType, parserPacketData := Type, 0, [];
      parserHeaderSize, parserPacketSize := 0, 0;
    }

    method ParseChunk(data: seq<byte>) returns (packet: Option<H4Packet>)
      requires Sound(Now())
      modifies this
      ensures (Now(), packet) == Parse(reading, old(Now()), data)
    {
      var buffer := parserPacketData + data;
      var base := 0;
      parserPacketData := buffer;
      if parserState == Type {
        if |parserPacketData| > 0 {
          parserPacketType := parserPacketData[0];
          parserPacketData := parserPacketData[1..];
          base := 1;
          parserHeaderSize := HeaderSize(parserPacketType);
          parserState := Header;
        }
      }
      assert (Now(), base) == TakeType(old(Now()), buffer);
      if parserState == Header {
        if |parserPacketData| >= parserHeaderSize {
          var payloadSize := PayloadSize(parserPacketType, buffer, if reading == AsMeant then base else 0);
          parserPacketSize := parserHeaderSize + payloadSize;
          parserState := Payload;
        }
      }
      if parserState == Payload {
        if |parserPacketData| >= parserPacketSize {
          var taken := parserPacketData[..parserPacketSize];
          parserPacketData := parserPacketData[parserPacketSize..];
          parserState := Type;
          return Some(H4Packet(parserPacketType, taken));
        }
      }
      return None;
    }
  }

  /** The adapter's receiving side: what reaches `Hci.onData`. */
  class HciAdapter {
    const h4: H4Parser
    var received: seq<H4Packet>

    constructor (reading: Reading)
      ensures fresh(h4) && h4.reading == reading && h4.Now() == NEW_PARSER && received == []
    {
      h4 := new H4Parser(reading);
      received := [];
    }

    method OnDeviceData(data: seq<byte>)
      requires Sound(h4.Now())
      modifies this, h4
      ensures Sound(h4.Now())
      ensures var (p, packets) := Drain(h4.reading, old(h4.Now()), data);
        h4.Now() == p && received == old(received) + packets
    {
      ParseConserves(h4.reading, h4.Now(), data);
      var result := h4.ParseChunk(data);
      assert received + [] == received;
      while result.Some?
        invariant Sound(h4.Now())
        invariant result.None? ==>
          && h4.Now() == Drain(h4.reading, old(h4.Now()), data).0
          && received == old(received) + Drain(h4.reading, old(h4.Now()), data).1
        invariant result.Some? ==>
          && Drain(h4.reading, old(h4.Now()), data).0 == Drain(h4.reading, h4.Now(), []).0
          && old(received) + Drain(h4.reading, old(h4.Now()), data).1
             == received + [result.value] + Drain(h4.reading, h4.Now(), []).1
        decreases if result.Some? then 1 + |Held(h4.Now())| else 0
      {
        ghost var (before, taken) := (h4.Now(), result.value);
        ghost var rest := Drain(h4.reading, before, []).1;
        received := received + [result.value];
        ParseConserves(h4.reading, before, []);
        result := h4.ParseChunk([]);
        if result.Some? {
          assert rest == [result.value] + Drain(h4.reading, h4.Now(), []).1;
        } else {
          assert received + [] == received;
        }
      }
    }
  }
}
