/** Bytes, results and the sequence helpers that the models share. */
module Basics {
  type byte = b: int | 0 <= b < 0x100

  const U16 := 0x1_0000
  const U32 := 0x1_0000_0000
  const U64 := 0x1_0000_0000_0000_0000

  datatype Option<+T> = None | Some(value: T)
  datatype Result<+T, +E> = Ok(value: T) | Err(error: E)

  function Min(a: nat, b: nat): nat {
    if a <= b then a else b
  }

  /** The elements of all parts, in order. */
  function Concat<T>(parts: seq<seq<T>>): seq<T> {
    if parts == [] then [] else parts[0] + Concat(parts[1..])
  }

  lemma {:induction false} ConcatAppend<T>(xs: seq<seq<T>>, ys: seq<seq<T>>)
    ensures Concat(xs + ys) == Concat(xs) + Concat(ys)
  {
    if xs == [] {
      assert xs + ys == ys;
    } else {
      assert (xs + ys)[1..] == xs[1..] + ys;
      ConcatAppend(xs[1..], ys);
    }
  }

  // ----- fixed-width integers -----

  function Pow256(width: nat): (p: nat)
    ensures p >= 1
  {
    if width == 0 then 1 else 256 * Pow256(width - 1)
  }

  /** The low `width` bytes of `n`, least significant first. */
  function LeBytes(n: nat, width: nat): (bs: seq<byte>)
    ensures |bs| == width
  {
    if width == 0 then [] else [n % 256] + LeBytes(n / 256, width - 1)
  }

  function LeValue(bs: seq<byte>): nat {
    if bs == [] then 0 else bs[0] + 256 * LeValue(bs[1..])
  }

  lemma {:induction false} LeValueOfBytes(n: nat, width: nat)
    requires n < Pow256(width)
    ensures LeValue(LeBytes(n, width)) == n
  {
    if width > 0 {
      LeValueOfBytes(n / 256, width - 1);
      assert LeBytes(n, width)[1..] == LeBytes(n / 256, width - 1);
    }
  }

  lemma {:induction false} LeBytesOfValue(bs: seq<byte>)
    ensures LeValue(bs) < Pow256(|bs|)
    ensures LeBytes(LeValue(bs), |bs|) == bs
  {
    if bs != [] {
      LeBytesOfValue(bs[1..]);
      assert LeValue(bs) % 256 == bs[0] && LeValue(bs) / 256 == LeValue(bs[1..]);
    }
  }

  lemma {:induction false} Widths()
    ensures Pow256(1) == 0x100 && Pow256(2) == U16 && Pow256(3) == 0x100_0000
    ensures Pow256(4) == U32 && Pow256(8) == U64
  {
    assert Pow256(4) == U32;
    assert Pow256(8) == 256 * 256 * 256 * 256 * Pow256(4);
  }

  /** The value of up to four little-endian bytes, written out. */
  lemma {:induction false} LeValueUpTo4(bs: seq<byte>)
    requires 1 <= |bs| <= 4
    ensures LeValue(bs) == bs[0] + (if |bs| > 1 then bs[1] as int * 0x100 else 0)
                         + (if |bs| > 2 then bs[2] as int * 0x1_0000 else 0)
                         + (if |bs| > 3 then bs[3] as int * 0x100_0000 else 0)
  {
    if |bs| > 1 {
      assert LeValue(bs[1..]) == bs[1] + 256 * LeValue(bs[1..][1..]);
      if |bs| > 2 {
        var r := bs[1..][1..];
        assert r[0] == bs[2] && LeValue(r) == r[0] + 256 * LeValue(r[1..]);
        if |bs| > 3 {
          var q := r[1..];
          assert q == [bs[3]] && LeValue(q) == bs[3] + 256 * LeValue(q[1..]);
        }
      }
    }
  }

  /** Whole multiples of the counter width do not count. */
  lemma {:induction false} Wrap(x: int, q: int)
    ensures (x + q * U64) % U64 == x % U64
  {
    var r := x / U64;
    assert x + q * U64 == (r + q) * U64 + x % U64;
  }

  // ----- bits -----

  /** Shifting left by `k`. */
  function Shl(n: nat, k: nat): nat {
    if k == 0 then n else 2 * Shl(n, k - 1)
  }

  /** Bitwise or. */
  function Or(a: nat, b: nat): nat {
    if a == 0 && b == 0 then 0
    else (if a % 2 == 1 || b % 2 == 1 then 1 else 0) + 2 * Or(a / 2, b / 2)
  }

  lemma {:induction false} OrZero(a: nat)
    ensures Or(a, 0) == a
  {
    if a > 0 {
      OrZero(a / 2);
    }
  }

  /** Or-ing into the cleared low bits of a shifted value adds. */
  lemma {:induction false} OrBelowShift(n: nat, k: nat, low: nat)
    requires low < Shl(1, k)
    ensures Or(Shl(n, k), low) == Shl(n, k) + low
    decreases k
  {
    if k == 0 {
      OrZero(n);
    } else {
      OrBelowShift(n, k - 1, low / 2);
      assert Shl(n, k) / 2 == Shl(n, k - 1);
      if Shl(n, k) == 0 && low == 0 {
        assert Or(Shl(n, k), low) == 0;
      }
    }
  }

  lemma {:induction false} OrCommutes(a: nat, b: nat)
    ensures Or(a, b) == Or(b, a)
    decreases a + b
  {
    if a > 0 || b > 0 {
      OrCommutes(a / 2, b / 2);
    }
  }

  lemma {:induction false} ShlMul(n: nat, k: nat)
    ensures Shl(n, k) == n * Shl(1, k)
  {
    if k > 0 {
      ShlMul(n, k - 1);
    }
  }

  const TWO_17 := 0x2_0000
  const TWO_24 := 0x100_0000
  const TWO_49 := 0x2_0000_0000_0000

  lemma {:induction false} ShlAdd(n: nat, j: nat, k: nat)
    ensures Shl(n, j + k) == Shl(n, j) * Shl(1, k)
  {
    if k > 0 {
      ShlAdd(n, j, k - 1);
      assert Shl(n, j + k) == 2 * Shl(n, j + k - 1) && Shl(1, k) == 2 * Shl(1, k - 1);
    }
  }

  /** Shifts and units of whole bytes. */
  lemma {:induction false} ByteShifts(n: nat)
    ensures Shl(n, 8) == n * 0x100 && Shl(n, 16) == n * 0x1_0000 && Shl(n, 24) == n * 0x100_0000
    ensures Shl(1, 8) == 0x100 && Shl(1, 16) == 0x1_0000 && Shl(1, 24) == 0x100_0000
  {
    assert Shl(1, 4) == 0x10;
    ShlAdd(1, 4, 4);
    ShlAdd(1, 8, 8);
    ShlAdd(1, 16, 8);
    ShlMul(n, 8);
    ShlMul(n, 16);
    ShlMul(n, 24);
  }

  /** Or-ing a shifted value onto lower bits adds it. */
  lemma {:induction false} OrAbove(low: nat, n: nat, k: nat)
    requires low < Shl(1, k)
    ensures Or(low, Shl(n, k)) == low + Shl(n, k)
  {
    OrCommutes(low, Shl(n, k));
    OrBelowShift(n, k, low);
  }
}
