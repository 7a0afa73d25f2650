/**
  The paged enumerations of `GattClient` and its long read, against any conforming server.

  A server holds its matches in ascending order of handle. For every request it may answer with any
  non-empty run of the first matches of the range, or say that there is none; it may also fail with
  some other error, which the code passes on.
 */
module GattPaging {
  import opened Bytes

  /** A match: its handle, the last handle of its group (its own, outside service discovery), its value. */
  datatype Found<+V> = Found(handle: nat, last: nat, value: V)

  /** An element of `attributeData`. */
  datatype AttDataEntry<+V> = AttDataEntry(handle: nat, value: V, endingHandle: int)

  datatype Reply<+V> = Page(entries: seq<Found<V>>) | AttributeNotFound | OtherError(code: nat)

  /** The answer to the n-th request, for a range of handles. */
  type Server<!V> = (nat, int, int) -> Reply<V>

  predicate Ascending<V>(matches: seq<Found<V>>) {
    && (forall i :: 0 <= i < |matches| ==> matches[i].handle <= matches[i].last)
    && (forall i, j :: 0 <= i < j < |matches| ==> matches[i].last < matches[j].handle)
  }

  function Within<V>(matches: seq<Found<V>>, lo: int, hi: int): seq<Found<V>> {
    if matches == [] then []
    else (if lo <= matches[0].handle <= hi then [matches[0]] else []) + Within(matches[1..], lo, hi)
  }

  ghost predicate Conforms<V(!new)>(server: Server<V>, matches: seq<Found<V>>) {
    forall n: nat, lo: int, hi: int :: Answers(server(n, lo, hi), Within(matches, lo, hi))
  }

  /** The n-th request, for a range up to `hi` that starts at `lo` or behind it, is answered with this error. */
  ghost predicate Fails<V(!new)>(server: Server<V>, n: nat, lo: int, hi: int, code: nat) {
    exists a: int :: lo <= a && AnsweredBy(server, n, a, hi, code)
  }

  predicate AnsweredBy<V(==)>(server: Server<V>, n: nat, lo: int, hi: int, code: nat) {
    server(n, lo, hi) == OtherError(code)
  }

  predicate Answers<V(==)>(reply: Reply<V>, within: seq<Found<V>>) {
    match reply
    case Page(entries) => entries <= within && (entries == [] ==> within == [])
    case AttributeNotFound => within == []
    case OtherError(_) => true
  }

  lemma {:induction false} WithinAscends<V>(matches: seq<Found<V>>, lo: int, hi: int)
    requires Ascending(matches)
    ensures Ascending(Within(matches, lo, hi))
    ensures forall i :: 0 <= i < |Within(matches, lo, hi)| ==> lo <= Within(matches, lo, hi)[i].handle <= hi
    ensures forall i :: 0 <= i < |Within(matches, lo, hi)| ==>
      matches != [] && matches[0].handle <= Within(matches, lo, hi)[i].handle
    decreases |matches|
  {
    if matches != [] {
      WithinAscends(matches[1..], lo, hi);
    }
  }

  lemma {:induction false} WithinNone<V>(matches: seq<Found<V>>, lo: int, hi: int)
    requires forall i :: 0 <= i < |matches| ==> matches[i].handle < lo || matches[i].handle > hi
    ensures Within(matches, lo, hi) == []
    decreases |matches|
  {
    if matches != [] {
      WithinNone(matches[1..], lo, hi);
    }
  }

  /**
    After the first match of a range, the rest are those behind it; where the search resumes inside its group
    does not matter.
   */
  lemma {:induction false} WithinResumes<V>(matches: seq<Found<V>>, lo: int, hi: int, next: int)
    requires Ascending(matches) && Within(matches, lo, hi) != []
    requires Within(matches, lo, hi)[0].handle < next <= Within(matches, lo, hi)[0].last + 1
    ensures Within(matches, lo, hi) == [Within(matches, lo, hi)[0]] + Within(matches, next, hi)
    ensures lo < next
    decreases |matches|
  {
    WithinAscends(matches, lo, hi);
    AscendingTail(matches);
    var rest := matches[1..];
    if matches[0].handle < lo || matches[0].handle > hi {
      assert Within(matches, lo, hi) == Within(rest, lo, hi);
      WithinResumes(rest, lo, hi, next);
      assert Within(matches, next, hi) == Within(rest, next, hi);
    } else {
      assert Within(matches, lo, hi)[0] == matches[0];
      assert forall i :: 0 <= i < |rest| ==> rest[i] == matches[i + 1];
      SameFrom(rest, lo, next, hi);
      assert Within(matches, next, hi) == Within(rest, next, hi);
    }
  }

  lemma AscendingTail<V>(matches: seq<Found<V>>)
    requires Ascending(matches) && matches != []
    ensures Ascending(matches[1..])
  {
  }

  lemma {:induction false} SameFrom<V>(matches: seq<Found<V>>, a: int, b: int, hi: int)
    requires forall i :: 0 <= i < |matches| ==> a <= matches[i].handle && b <= matches[i].handle
    ensures Within(matches, a, hi) == Within(matches, b, hi)
    decreases |matches|
  {
    if matches != [] {
      SameFrom(matches[1..], a, b, hi);
    }
  }

  /** The same for a whole page. */
  lemma {:induction false} PageResumes<V>(matches: seq<Found<V>>, lo: int, hi: int, page: seq<Found<V>>, next: int)
    requires Ascending(matches) && page != [] && page <= Within(matches, lo, hi)
    requires page[|page| - 1].handle < next <= page[|page| - 1].last + 1
    ensures Within(matches, lo, hi) == page + Within(matches, next, hi)
    ensures lo < next && page[|page| - 1].handle <= hi
    decreases |page|
  {
    WithinAscends(matches, lo, hi);
    LastOfPage(page, Within(matches, lo, hi));
    var e := page[0];
    if |page| == 1 {
      WithinResumes(matches, lo, hi, next);
      assert page == [e];
    } else {
      WithinResumes(matches, lo, hi, e.last + 1);
      PageSplits(page, e, Within(matches, e.last + 1, hi));
      PageResumes(matches, e.last + 1, hi, page[1..], next);
      Regroup([e], page[1..], Within(matches, next, hi));
    }
  }

  lemma LastOfPage<V>(page: seq<Found<V>>, all: seq<Found<V>>)
    requires page != [] && page <= all
    ensures page[|page| - 1] == all[|page| - 1] && page[0] == all[0]
  {
  }

  lemma PageSplits<V>(page: seq<Found<V>>, e: Found<V>, rest: seq<Found<V>>)
    requires page != [] && page <= [e] + rest
    ensures page == [e] + page[1..] && page[1..] <= rest
  {
    assert page[0] == e;
    assert forall i :: 0 <= i < |page[1..]| ==> page[1..][i] == ([e] + rest)[i + 1] == rest[i];
  }

  /** One more page in a loop over pages. */
  lemma PageDone<V>(matches: seq<Found<V>>, lo: int, start: int, hi: int, done: seq<Found<V>>, page: seq<Found<V>>,
    next: int)
    requires Ascending(matches) && page != [] && page <= Within(matches, start, hi)
    requires page[|page| - 1].handle < next <= page[|page| - 1].last + 1
    requires Within(matches, lo, hi) == done + Within(matches, start, hi)
    ensures Within(matches, lo, hi) == (done + page) + Within(matches, next, hi) && start < next
  {
    PageResumes(matches, start, hi, page, next);
    Regroup(done, page, Within(matches, next, hi));
  }

  lemma AscendingPage<V>(matches: seq<Found<V>>, lo: int, hi: int, page: seq<Found<V>>)
    requires Ascending(matches) && page <= Within(matches, lo, hi)
    ensures forall i :: 0 <= i < |page| ==> page[i].handle <= page[i].last
  {
    WithinAscends(matches, lo, hi);
  }

  // ---------------------------------------------------------------- by group

  function Grouped<V>(es: seq<Found<V>>): (r: seq<AttDataEntry<V>>)
    ensures |r| == |es|
  {
    seq(|es|, i requires 0 <= i < |es| => AttDataEntry(es[i].handle, es[i].value, es[i].last))
  }

  /** The loop over one page. */
  method PushGroups<V>(data: seq<AttDataEntry<V>>, page: seq<Found<V>>, ghost es: seq<Found<V>>)
    returns (r: seq<AttDataEntry<V>>)
    requires data == Grouped(es)
    ensures r == Grouped(es + page)
  {
    r := data;
    for i := 0 to |page|
      invariant r == Grouped(es + page[..i])
    {
      r := r + [AttDataEntry(page[i].handle, page[i].value, page[i].last)];
      assert es + page[..i + 1] == (es + page[..i]) + [page[i]];
    }
    assert page[..|page|] == page;
  }

  /**
    `readByGroupTypeReqBetween`: all groups that start in the range, in order, whatever the page sizes,
    within one request more than there are groups.
   */
  method ReadByGroupTypeBetween<V(!new)>(server: Server<V>, ghost matches: seq<Found<V>>, first: nat, lo: int, hi: int)
    returns (r: Result<seq<AttDataEntry<V>>, nat>, sent: nat)
    requires Ascending(matches) && Conforms(server, matches)
    ensures r.Success? ==> r.value == Grouped(Within(matches, lo, hi))
    ensures r.Failure? ==> sent > 0 && Fails(server, first + sent - 1, lo, hi, r.error)
    ensures sent <= |Within(matches, lo, hi)| + 1
    ensures sent == 0 <==> hi < lo
  {
    var data: seq<AttDataEntry<V>> := [];
    var start := lo - 1;
    sent := 0;
    ghost var done: seq<Found<V>> := [];
    while start < hi
      invariant lo - 1 <= start && sent <= |done| && (sent == 0 ==> start == lo - 1) && (sent > 0 ==> lo <= hi)
      invariant Within(matches, lo, hi) == done + Within(matches, start + 1, hi)
      invariant data == Grouped(done)
      decreases hi - start
    {
      assert Answers(server(first + sent, start + 1, hi), Within(matches, start + 1, hi));
      var reply := server(first + sent, start + 1, hi);
      sent := sent + 1;
      match reply {
        case OtherError(code) =>
          assert AnsweredBy(server, first + sent - 1, start + 1, hi, code);
          return Failure(code), sent;
        case AttributeNotFound =>
          assert done + [] == done;
          return Success(data), sent;
        case Page(page) =>
          data := PushGroups(data, page, done);
          if page == [] {
            assert done + [] == done;
            return Success(data), sent;
          }
          var e := page[|page| - 1];
          AscendingPage(matches, start + 1, hi, page);
          PageDone(matches, lo, start + 1, hi, done, page, e.last + 1);
          done := done + page;
          start := e.last;
      }
    }
    assert Within(matches, start + 1, hi) == [] by {
      WithinNone(matches, start + 1, hi);
    }
    assert done + [] == done;
    return Success(data), sent;
  }

  // ---------------------------------------------------------------- by type, and all descriptors

  /** Every entry ends where the next one starts, and the last one at the end of the range. */
  function Tiled<V>(es: seq<Found<V>>, hi: int): (r: seq<AttDataEntry<V>>)
    ensures |r| == |es|
  {
    seq(|es|, i requires 0 <= i < |es| =>
      AttDataEntry(es[i].handle, es[i].value, if i + 1 < |es| then es[i + 1].handle - 1 else hi))
  }

  /** The ranges of the entries ascend without overlap. */
  lemma TilesAscend<V>(es: seq<Found<V>>, hi: int)
    requires Ascending(es)
    ensures forall i, j :: 0 <= i < j < |es| ==> Tiled(es, hi)[i].endingHandle < Tiled(es, hi)[j].handle
  {
  }

  /** The ranges of the entries tile the span from the first match to the end of the range. */
  lemma TilesTheSpan<V>(matches: seq<Found<V>>, lo: int, hi: int, h: int)
    requires Ascending(matches) && Within(matches, lo, hi) != []
    ensures Within(matches, lo, hi)[0].handle <= h <= hi <==>
      exists i :: 0 <= i < |Within(matches, lo, hi)| && Covers(Tiled(Within(matches, lo, hi), hi)[i], h)
  {
    WithinAscends(matches, lo, hi);
    var es := Within(matches, lo, hi);
    if es[0].handle <= h <= hi {
      var i := TileOf(es, hi, h);
      assert Covers(Tiled(es, hi)[i], h);
    }
    if i :| 0 <= i < |es| && Covers(Tiled(es, hi)[i], h) {
      assert es[0].handle <= es[i].handle;
      assert i + 1 < |es| ==> es[i + 1].handle <= hi;
    }
  }

  predicate Covers<V>(e: AttDataEntry<V>, h: int) {
    e.handle <= h <= e.endingHandle
  }

  lemma {:induction false} TileOf<V>(es: seq<Found<V>>, hi: int, h: int) returns (i: nat)
    requires es != [] && es[0].handle <= h <= hi
    ensures i < |es| && es[i].handle <= h <= Tiled(es, hi)[i].endingHandle
    decreases |es|
  {
    if |es| == 1 || h < es[1].handle {
      i := 0;
    } else {
      i := TileOf(es[1..], hi, h);
      assert Tiled(es[1..], hi)[i] == Tiled(es, hi)[i + 1];
      i := i + 1;
    }
  }

  /** One entry of a page: the previous entry now ends before it, and it ends with the range. */
  method PushTile<V>(data: seq<AttDataEntry<V>>, e: Found<V>, hi: int, ghost es: seq<Found<V>>)
    returns (r: seq<AttDataEntry<V>>)
    requires data == Tiled(es, hi)
    ensures r == Tiled(es + [e], hi)
  {
    r := data;
    if |r| > 0 {
      r := r[|r| - 1 := r[|r| - 1].(endingHandle := e.handle - 1)];
    }
    r := r + [AttDataEntry(e.handle, e.value, hi)];
  }

  /** The loop over one page. */
  method PushTiles<V>(data: seq<AttDataEntry<V>>, page: seq<Found<V>>, hi: int, ghost es: seq<Found<V>>)
    returns (r: seq<AttDataEntry<V>>)
    requires data == Tiled(es, hi)
    ensures r == Tiled(es + page, hi)
  {
    r := data;
    for i := 0 to |page|
      invariant r == Tiled(es + page[..i], hi)
    {
      r := PushTile(r, page[i], hi, es + page[..i]);
      assert es + page[..i + 1] == (es + page[..i]) + [page[i]];
    }
    assert page[..|page|] == page;
  }

  /**
    `readByTypeBetween`, and `findInformationBetween`, which is the same loop over another request: all
    matches of the range, in order and tiled, whatever the page sizes, within one request more than
    there are matches.
   */
  method ReadByTypeBetween<V(!new)>(server: Server<V>, ghost matches: seq<Found<V>>, first: nat, lo: int, hi: int)
    returns (r: Result<seq<AttDataEntry<V>>, nat>, sent: nat)
    requires Ascending(matches) && Conforms(server, matches)
    ensures r.Success? ==> r.value == Tiled(Within(matches, lo, hi), hi)
    ensures r.Failure? ==> sent > 0 && Fails(server, first + sent - 1, lo, hi, r.error)
    ensures sent <= |Within(matches, lo, hi)| + 1
    ensures sent == 0 <==> hi < lo
  {
    var data: seq<AttDataEntry<V>> := [];
    var start := lo - 1;
    sent := 0;
    ghost var done: seq<Found<V>> := [];
    while start < hi
      invariant lo - 1 <= start && sent <= |done| && (sent == 0 ==> start == lo - 1) && (sent > 0 ==> lo <= hi)
      invariant Within(matches, lo, hi) == done + Within(matches, start + 1, hi)
      invariant data == Tiled(done, hi)
      decreases hi - start
    {
      assert Answers(server(first + sent, start + 1, hi), Within(matches, start + 1, hi));
      var reply := server(first + sent, start + 1, hi);
      sent := sent + 1;
      match reply {
        case OtherError(code) =>
          assert AnsweredBy(server, first + sent - 1, start + 1, hi, code);
          return Failure(code), sent;
        case AttributeNotFound =>
          assert done + [] == done;
          return Success(data), sent;
        case Page(page) =>
          data := PushTiles(data, page, hi, done);
          if page == [] {
            assert done + [] == done;
            return Success(data), sent;
          }
          var e := page[|page| - 1];
          AscendingPage(matches, start + 1, hi, page);
          PageDone(matches, lo, start + 1, hi, done, page, e.handle + 1);
          done := done + page;
          start := e.handle;
      }
    }
    assert Within(matches, start + 1, hi) == [] by {
      WithinNone(matches, start + 1, hi);
    }
    assert done + [] == done;
    return Success(data), sent;
  }

  // ---------------------------------------------------------------- long reads

  /** What the server's answer to a read at an offset holds: as much as fits behind a one-byte opcode. */
  function ReadPart(value: seq<byte>, offset: nat, attMtu: nat): seq<byte>
    requires offset <= |value| && attMtu >= 1
  {
    if |value| - offset <= attMtu - 1 then value[offset..] else value[offset..offset + attMtu - 1]
  }

  /**
    `read`: the first part by a read request, further parts by blob requests, for as long as a part
    fills what `mtu`, the size the client has stored, allows.
   */
  method ReadValue(stored: seq<byte>, attMtu: nat, mtu: nat) returns (value: seq<byte>, requests: nat)
    requires attMtu >= 2 && mtu >= 2
    ensures value == ReadResult(stored, attMtu, mtu)
    ensures (requests - 1) * (mtu - 1) <= |stored|
  {
    var part := ReadPart(stored, 0, attMtu);
    value := part;
    requests := 1;
    ghost var full := 0;
    while |part| == mtu - 1
      invariant |value| <= |stored| && value == stored[..|value|] && requests == 1 + full
      invariant |part| == mtu - 1 ==> |value| == (full + 1) * (mtu - 1)
      invariant |part| == mtu - 1 ==> attMtu == mtu || |value| == |stored| <= attMtu - 1
      invariant |part| != mtu - 1 ==> value == ReadResult(stored, attMtu, mtu)
      invariant full * (mtu - 1) <= |stored|
      decreases |stored| - |value| + |part|
    {
      part := ReadPart(stored, |value|, attMtu);
      assert stored[..|value|] + part == stored[..|value| + |part|];
      assert |value| == |stored| ==> part == [];
      value := value + part;
      requests := requests + 1;
      full := full + 1;
      if |part| != mtu - 1 {
        assert |value| == |stored| && stored[..|stored|] == stored;
      }
      assert (full + 1) * (mtu - 1) == full * (mtu - 1) + (mtu - 1);
    }
  }

  function ReadResult(stored: seq<byte>, attMtu: nat, mtu: nat): seq<byte>
    requires attMtu >= 2
  {
    if attMtu == mtu || |stored| <= attMtu - 1 then stored else stored[..attMtu - 1]
  }

  /**
    `exchangeMtu` stores the server's size, while both sides then use the smaller of the two. The read
    returns the whole value, multiples of the part size included, if and only if the server's size is
    not the larger one or the value fits the first part; otherwise it returns that part.
   */
  lemma WholeValueIsRead(stored: seq<byte>, clientMtu: nat, serverMtu: nat)
    requires clientMtu >= 23 && serverMtu >= 23
    ensures var attMtu := if clientMtu < serverMtu then clientMtu else serverMtu;
      ReadResult(stored, attMtu, serverMtu) == stored <==> serverMtu <= clientMtu || |stored| <= clientMtu - 1
    ensures serverMtu > clientMtu && |stored| >= clientMtu ==>
      ReadResult(stored, clientMtu, serverMtu) == stored[..clientMtu - 1]
  {
  }
}
