/**
 * Bit-level view of the non-negative integers that back the masks.
 *
 * The header works on the underlying integers of enumerations with the
 * built-in operators `&`, `|`, `<<` and `>>`. On non-negative values these
 * are the functions below: `And` and `Or` combine binary expansions digit by
 * digit, `1 << k` is `Pow2(k)` and `x >> 1` is `x / 2`. `Bit(m, i)` reads
 * one binary digit, and every lemma here states an operator's effect on the
 * digits, which is how the mask operations are specified.
 */
module Bits {

  /** 2^k: the value of `1 << k` while the shift stays inside the integer's width. */
  function Pow2(k: nat): (r: nat)
    ensures r >= 1
  {
    if k == 0 then 1 else 2 * Pow2(k - 1)
  }

  /** Binary digit `i` of `m`. */
  predicate Bit(m: nat, i: nat)
  {
    if i == 0 then m % 2 == 1 else Bit(m / 2, i - 1)
  }

  /** `k` is the position of the lowest set bit of `m`. */
  predicate IsLowestSetBit(m: nat, k: nat)
  {
    Bit(m, k) && forall j: nat :: j < k ==> !Bit(m, j)
  }

  /** Number of set bits. */
  function Popcount(m: nat): nat
  {
    if m == 0 then 0 else m % 2 + Popcount(m / 2)
  }

  /** `a & b` on non-negative integers. */
  function And(a: nat, b: nat): (r: nat)
    ensures r <= a && r <= b
  {
    if a == 0 || b == 0 then 0
    else 2 * And(a / 2, b / 2) + (if a % 2 == 1 && b % 2 == 1 then 1 else 0)
  }

  /** `a | b` on non-negative integers. */
  function Or(a: nat, b: nat): (r: nat)
    ensures a <= r && b <= r
  {
    if a == 0 then b
    else if b == 0 then a
    else 2 * Or(a / 2, b / 2) + (if a % 2 == 1 || b % 2 == 1 then 1 else 0)
  }

  lemma {:induction false} ZeroHasNoBits(i: nat)
    ensures !Bit(0, i)
  {
    if i > 0 {
      ZeroHasNoBits(i - 1);
    }
  }

  lemma ZeroIsEmpty()
    ensures forall i: nat :: !Bit(0, i)
  {
    forall i: nat
      ensures !Bit(0, i)
    {
      ZeroHasNoBits(i);
    }
  }

  /** A number is determined by its binary digits. */
  lemma {:induction false} BitsEqual(a: nat, b: nat)
    requires forall i: nat :: Bit(a, i) <==> Bit(b, i)
    ensures a == b
    decreases a + b
  {
    if a != 0 || b != 0 {
      assert Bit(a, 0) <==> Bit(b, 0);
      forall i: nat
        ensures Bit(a / 2, i) <==> Bit(b / 2, i)
      {
        assert Bit(a, i + 1) <==> Bit(b, i + 1);
      }
      BitsEqual(a / 2, b / 2);
    }
  }

  /** `1 << k` has exactly bit `k` set. */
  lemma {:induction false} BitOfPow2(k: nat, i: nat)
    ensures Bit(Pow2(k), i) <==> i == k
  {
    if k == 0 {
      if i > 0 {
        ZeroHasNoBits(i - 1);
      }
    } else if i == 0 {
      assert Pow2(k) % 2 == 0;
    } else {
      assert Pow2(k) / 2 == Pow2(k - 1);
      BitOfPow2(k - 1, i - 1);
    }
  }

  lemma {:induction false} BitOfAnd(a: nat, b: nat, i: nat)
    ensures Bit(And(a, b), i) <==> Bit(a, i) && Bit(b, i)
  {
    if a == 0 || b == 0 {
      ZeroHasNoBits(i);
    } else {
      var q := And(a / 2, b / 2);
      var x := if a % 2 == 1 && b % 2 == 1 then 1 else 0;
      assert And(a, b) == 2 * q + x;
      assert (2 * q + x) % 2 == x && (2 * q + x) / 2 == q;
      if i > 0 {
        BitOfAnd(a / 2, b / 2, i - 1);
      }
    }
  }

  lemma {:induction false} BitOfOr(a: nat, b: nat, i: nat)
    ensures Bit(Or(a, b), i) <==> Bit(a, i) || Bit(b, i)
  {
    if a == 0 || b == 0 {
      ZeroHasNoBits(i);
    } else {
      var q := Or(a / 2, b / 2);
      var x := if a % 2 == 1 || b % 2 == 1 then 1 else 0;
      assert Or(a, b) == 2 * q + x;
      assert (2 * q + x) % 2 == x && (2 * q + x) / 2 == q;
      if i > 0 {
        BitOfOr(a / 2, b / 2, i - 1);
      }
    }
  }

  /** `m | (1 << k)` has the bits of `m` and bit `k`. */
  lemma OrPow2Bits(m: nat, k: nat)
    ensures forall i: nat :: Bit(Or(m, Pow2(k)), i) <==> Bit(m, i) || i == k
  {
    forall i: nat
      ensures Bit(Or(m, Pow2(k)), i) <==> Bit(m, i) || i == k
    {
      BitOfOr(m, Pow2(k), i);
      BitOfPow2(k, i);
    }
  }

  /** `(m & (1 << k)) != 0` tests bit `k` of `m`. */
  lemma AndPow2NonZero(m: nat, k: nat)
    ensures And(m, Pow2(k)) != 0 <==> Bit(m, k)
  {
    var r := And(m, Pow2(k));
    if Bit(m, k) {
      BitOfAnd(m, Pow2(k), k);
      BitOfPow2(k, k);
      ZeroHasNoBits(k);
    } else {
      forall i: nat
        ensures Bit(r, i) <==> Bit(0, i)
      {
        BitOfAnd(m, Pow2(k), i);
        BitOfPow2(k, i);
        ZeroHasNoBits(i);
      }
      BitsEqual(r, 0);
    }
  }

  /** `m` fits in `w` bits exactly when no bit at position `w` or above is set. */
  lemma {:induction false} HighBitsClear(m: nat, w: nat)
    ensures m < Pow2(w) ==> forall i: nat :: w <= i ==> !Bit(m, i)
    ensures (forall i: nat :: w <= i ==> !Bit(m, i)) ==> m < Pow2(w)
  {
    if w == 0 {
      if m == 0 {
        forall i: nat
          ensures !Bit(m, i)
        {
          ZeroHasNoBits(i);
        }
      } else if forall i: nat :: !Bit(m, i) {
        forall i: nat
          ensures Bit(m, i) <==> Bit(0, i)
        {
          ZeroHasNoBits(i);
        }
        BitsEqual(m, 0);
      }
    } else {
      HighBitsClear(m / 2, w - 1);
      assert m < Pow2(w) <==> m / 2 < Pow2(w - 1);
      if m < Pow2(w) {
        forall i: nat | w <= i
          ensures !Bit(m, i)
        {
          assert !Bit(m / 2, i - 1);
        }
      } else {
        var i: nat :| w - 1 <= i && Bit(m / 2, i);
        assert Bit(m, i + 1);
      }
    }
  }

  /** `m | (1 << k)` stays below `2^w` when `m` does and `k < w`. */
  lemma OrPow2Bound(m: nat, k: nat, w: nat)
    requires k < w
    ensures m < Pow2(w) ==> Or(m, Pow2(k)) < Pow2(w)
  {
    HighBitsClear(m, w);
    OrPow2Bits(m, k);
    HighBitsClear(Or(m, Pow2(k)), w);
  }

  /** Every positive number has a lowest set bit. */
  lemma {:induction false} LowestSetBitExists(m: nat) returns (k: nat)
    requires m > 0
    ensures IsLowestSetBit(m, k)
    decreases m
  {
    if m % 2 == 1 {
      k := 0;
    } else {
      var k' := LowestSetBitExists(m / 2);
      k := k' + 1;
      forall j: nat | j < k
        ensures !Bit(m, j)
      {
        if j > 0 {
          assert !Bit(m / 2, j - 1);
        }
      }
    }
  }

  /** Shifting an even number right moves its lowest set bit down by one. */
  lemma LowestSetBitOfEven(m: nat, k: nat)
    requires m % 2 == 0 && IsLowestSetBit(m / 2, k)
    ensures IsLowestSetBit(m, k + 1)
  {
    forall j: nat | j < k + 1
      ensures !Bit(m, j)
    {
      if j > 0 {
        assert !Bit(m / 2, j - 1);
      }
    }
  }

  /** Shifting right moves a lowest set bit above 0 down by one. */
  lemma LowestSetBitOfHalf(m: nat, k: nat)
    requires 0 < k && IsLowestSetBit(m, k)
    ensures m % 2 == 0 && IsLowestSetBit(m / 2, k - 1)
  {
    assert !Bit(m, 0);
    forall j: nat | j < k - 1
      ensures !Bit(m / 2, j)
    {
      assert !Bit(m, j + 1);
    }
  }

  /**
   * Subtracting one from `v` flips the bits from 0 up to its lowest set bit
   * `k`: those below `k` become set, bit `k` becomes clear, the rest stay.
   */
  lemma {:induction false} PredecessorBit(v: nat, k: nat, i: nat)
    requires v > 0 && IsLowestSetBit(v, k)
    ensures Bit(v - 1, i) <==> i < k || (k < i && Bit(v, i))
    decreases k
  {
    if k == 0 {
      assert (v - 1) / 2 == v / 2 && (v - 1) % 2 == 0;
      if i > 0 {
        assert Bit(v - 1, i) == Bit(v / 2, i - 1);
      }
    } else {
      LowestSetBitOfHalf(v, k);
      assert (v - 1) / 2 == v / 2 - 1 && (v - 1) % 2 == 1;
      if i > 0 {
        PredecessorBit(v / 2, k - 1, i - 1);
        assert Bit(v - 1, i) == Bit(v / 2 - 1, i - 1);
      }
    }
  }

  /** Adding one bit that was clear raises the popcount by one. */
  lemma {:induction false} PopcountAddBit(a: nat, b: nat, k: nat)
    requires !Bit(a, k)
    requires forall i: nat :: Bit(b, i) <==> Bit(a, i) || i == k
    ensures Popcount(b) == Popcount(a) + 1
    decreases k
  {
    ZeroHasNoBits(k);
    assert b != 0;
    assert Bit(b, 0) <==> Bit(a, 0) || k == 0;
    if k == 0 {
      forall i: nat
        ensures Bit(b / 2, i) <==> Bit(a / 2, i)
      {
        assert Bit(b, i + 1) <==> Bit(a, i + 1);
      }
      BitsEqual(b / 2, a / 2);
    } else {
      forall i: nat
        ensures Bit(b / 2, i) <==> Bit(a / 2, i) || i == k - 1
      {
        assert Bit(b, i + 1) <==> Bit(a, i + 1) || i + 1 == k;
      }
      PopcountAddBit(a / 2, b / 2, k - 1);
    }
  }
}
