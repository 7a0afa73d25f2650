/** Bytes, little-endian integers, bits and list flattening, shared by every layer. */
module Bytes {
  type byte = b: int | 0 <= b < 0x100
  type uint16 = n: int | 0 <= n < 0x1_0000

  datatype Option<+T> = None | Some(value: T)

  datatype Result<+T, +E> = Success(value: T) | Failure(error: E)

  /** Buffer.writeUIntLE(n, o, 2) as a value. */
  function Le16(n: uint16): (r: seq<byte>)
    ensures |r| == 2
  {
    [n % 0x100, n / 0x100]
  }

  /** Buffer.readUIntLE(o, 2). */
  function ReadLe16(b: seq<byte>, o: nat): (r: uint16)
    requires o + 2 <= |b|
  {
    var (lo: int, hi: int) := (b[o], b[o + 1]);
    lo + 0x100 * hi
  }

  lemma ReadWriteLe16(n: uint16, before: seq<byte>, after: seq<byte>)
    ensures ReadLe16(before + Le16(n) + after, |before|) == n
  {
    var s := before + Le16(n) + after;
    assert s[|before|] == n % 0x100 && s[|before| + 1] == n / 0x100;
  }

  lemma WriteReadLe16(b: seq<byte>, o: nat)
    requires o + 2 <= |b|
    ensures Le16(ReadLe16(b, o)) == b[o..o + 2]
  {
  }

  lemma Regroup<T>(a: seq<T>, b: seq<T>, c: seq<T>)
    ensures (a + b) + c == a + (b + c)
  {
  }

  function Flatten<T>(parts: seq<seq<T>>): (r: seq<T>)
  {
    if parts == [] then [] else parts[0] + Flatten(parts[1..])
  }

  lemma {:induction false} FlattenAppend<T>(a: seq<seq<T>>, b: seq<seq<T>>)
    ensures Flatten(a + b) == Flatten(a) + Flatten(b)
  {
    if a == [] {
      assert a + b == b;
    } else {
      assert (a + b)[1..] == a[1..] + b;
      FlattenAppend(a[1..], b);
    }
  }

  lemma FlattenOne<T>(s: seq<T>)
    ensures Flatten([s]) == s
  {
    assert Flatten([s]) == s + Flatten([]);
  }

  /** The bitwise or of two numbers. */
  function Or(a: nat, b: nat): nat {
    if a == 0 && b == 0 then 0
    else (if a % 2 == 1 || b % 2 == 1 then 1 else 0) + 2 * Or(a / 2, b / 2)
  }

  function TwoTo(k: nat): nat {
    if k == 0 then 1 else 2 * TwoTo(k - 1)
  }

  /** Bits beside each other are added. */
  lemma {:induction false} OrAdds(a: nat, b: nat, k: nat)
    requires a < TwoTo(k)
    ensures Or(a, b * TwoTo(k)) == a + b * TwoTo(k)
  {
    if k == 0 {
      OrNothing(b);
    } else {
      var c := b * TwoTo(k - 1);
      assert b * TwoTo(k) == 2 * c;
      assert (2 * c) / 2 == c && (2 * c) % 2 == 0;
      OrAdds(a / 2, b, k - 1);
    }
  }

  lemma {:induction false} OrNothing(b: nat)
    ensures Or(0, b) == b
  {
    if b > 0 {
      OrNothing(b / 2);
    }
  }

  lemma {:induction false} OrSwapped(a: nat, b: nat)
    ensures Or(a, b) == Or(b, a)
  {
    if a > 0 || b > 0 {
      OrSwapped(a / 2, b / 2);
    }
  }

  /** The k-th bit of a number, from the lowest. */
  predicate BitSet(n: nat, k: nat) {
    if k == 0 then n % 2 == 1 else BitSet(n / 2, k - 1)
  }

  lemma {:induction false} BitOfNothing(k: nat)
    ensures !BitSet(0, k)
  {
    if k > 0 {
      BitOfNothing(k - 1);
    }
  }

  lemma OrHalves(a: nat, b: nat)
    requires a > 0 || b > 0
    ensures (Or(a, b) % 2 == 1 <==> a % 2 == 1 || b % 2 == 1) && Or(a, b) / 2 == Or(a / 2, b / 2)
  {
    var (low, high) := (if a % 2 == 1 || b % 2 == 1 then 1 else 0, Or(a / 2, b / 2));
    assert Or(a, b) == low + 2 * high;
    hide Or;
  }

  /** A bit is set in the or exactly where one of the two has it. */
  lemma {:induction false} OrBit(a: nat, b: nat, k: nat)
    ensures BitSet(Or(a, b), k) <==> BitSet(a, k) || BitSet(b, k)
  {
    if a == 0 && b == 0 {
      BitOfNothing(k);
    } else {
      hide Or;
      OrHalves(a, b);
      if k > 0 {
        OrBit(a / 2, b / 2, k - 1);
      }
    }
  }

  /** A shift to the left by `up` moves every bit up and leaves zeros below. */
  lemma {:induction false} ShiftBit(n: nat, up: nat, k: nat)
    ensures BitSet(n * TwoTo(up), k) <==> k >= up && BitSet(n, k - up)
    decreases up
  {
    if up > 0 {
      var m := n * TwoTo(up - 1);
      assert n * TwoTo(up) == 2 * m && (2 * m) % 2 == 0 && (2 * m) / 2 == m;
      if k > 0 {
        ShiftBit(n, up - 1, k - 1);
      }
    }
  }

  /** A remainder by a power of two keeps the bits below it. */
  lemma {:induction false} MaskBit(n: nat, width: nat, k: nat)
    ensures TwoTo(width) > 0
    ensures BitSet(n % TwoTo(width), k) <==> k < width && BitSet(n, k)
    decreases width
  {
    if width == 0 {
      BitOfNothing(k);
    } else {
      MaskBit(n / 2, width - 1, if k == 0 then 0 else k - 1);
      HalfOfRemainder(n, TwoTo(width - 1));
    }
  }

  lemma HalfOfRemainder(n: nat, m: nat)
    requires m > 0
    ensures (n % (2 * m)) % 2 == n % 2 && (n % (2 * m)) / 2 == (n / 2) % m
  {
    var (q, r) := ((n / 2) / m, (n / 2) % m);
    assert n / 2 == m * q + r;
    assert n == 2 * m * q + (2 * r + n % 2);
    Remainder(n, 2 * m, q, 2 * r + n % 2);
  }

  lemma Remainder(n: nat, m: nat, q: nat, r: nat)
    requires r < m && n == m * q + r
    ensures n % m == r
  {
    OneRemainder(m, q, r, n / m, n % m);
  }

  lemma OneRemainder(m: nat, q: nat, r: nat, q': nat, r': nat)
    requires r < m && r' < m && m * q + r == m * q' + r'
    ensures r == r'
  {
    Apart(m, q, q');
    Apart(m, q', q);
  }

  lemma Apart(m: nat, q: nat, q': nat)
    ensures q < q' ==> m * q + m <= m * q'
  {
    if q < q' {
      var d := q' - q - 1;
      assert m * q' == m * q + m + m * d;
    }
  }

  lemma PowersOfTwo()
    ensures TwoTo(6) == 0x40 && TwoTo(12) == 0x1000 && TwoTo(14) == 0x4000 && TwoTo(32) == 0x1_0000_0000
  {
    assert TwoTo(4) == 0x10;
    assert TwoTo(8) == 0x100;
    assert TwoTo(16) == 0x1_0000;
    assert TwoTo(20) == 0x10_0000;
    assert TwoTo(24) == 0x100_0000;
    assert TwoTo(28) == 0x1000_0000;
  }
}
