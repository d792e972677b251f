/**
 * The mask engine of `mask_utils.h`: offsets, bit clearing, the lowest-bit
 * scan, `set`, `set_mask`, `contains`, and `combine`.
 *
 * An enumeration value is its underlying integer. A mask is the non-negative
 * underlying integer of a mask enumeration. The enumerations' underlying type
 * is `int` (32 bits, signed), and `1 << offset` is a shift of an `int`; a mask
 * is kept below 2^31, so the bit positions are 0 to 30: `MaskBits`. The base
 * (the element mapped to bit 0) is an explicit parameter. `DefaultBase` is
 * what `define_base` yields when no base is registered for a (Mask, Element)
 * pair.
 */
module Mask {
  import opened Bits

  /** Bit positions of a 32-bit signed `int` below the sign bit. */
  const MaskBits: nat := 31

  /**
   * `define_base`: the element whose underlying value is 0, so that every
   * element at or above 0 sits at the bit of its own underlying value.
   */
  function DefaultBase(): (b: int)
    ensures forall el: int :: el >= 0 ==> el >= b && Offset(el, b) == el
  {
    0
  }

  /** A value that fits in the non-negative range of the mask's underlying `int`. */
  predicate IsMask(m: nat)
  {
    m < Pow2(MaskBits)
  }

  /** `el` lands on a bit that `1 << Offset(el, base)` can address. */
  predicate Fits(el: int, base: int)
  {
    Offset(el, base) < MaskBits
  }

  /** Every element of `elems` fits. */
  predicate AllFit(elems: seq<int>, base: int)
  {
    forall e :: e in elems ==> Fits(e, base)
  }

  /**
   * `internal::offset`: the bit position of `el` relative to `base`, which is
   * the distance from the base when `el` is at or above it, and is clamped to
   * bit 0 below it.
   */
  function Offset(el: int, base: int): (r: nat)
    ensures el >= base ==> base + r == el
    ensures el <= base ==> r == 0
  {
    var diff := el - base;
    if diff >= 0 then diff else 0
  }

  /**
   * `internal::clear_right_most_bit`: `(v - 1) & v`. For `v == 0` the
   * two's-complement value of `(0 - 1) & 0` is 0, written out as a branch.
   * What it does to the bits is `ClearRightMostBitSpec`.
   */
  function ClearRightMostBit(v: nat): (r: nat)
    ensures r <= v
    ensures v == 0 ==> r == 0
  {
    if v == 0 then 0 else And(v - 1, v)
  }

  /**
   * For a non-zero `v`, `ClearRightMostBit` clears exactly the lowest set bit:
   * every other bit is unchanged, the value drops and so does the popcount.
   */
  lemma ClearRightMostBitSpec(v: nat, k: nat)
    requires v > 0 && IsLowestSetBit(v, k)
    ensures forall i: nat :: Bit(ClearRightMostBit(v), i) <==> Bit(v, i) && i != k
    ensures ClearRightMostBit(v) < v
    ensures Popcount(ClearRightMostBit(v)) + 1 == Popcount(v)
  {
    var r := ClearRightMostBit(v);
    forall i: nat
      ensures Bit(r, i) <==> Bit(v, i) && i != k
    {
      PredecessorBit(v, k, i);
      BitOfAnd(v - 1, v, i);
    }
    PopcountAddBit(r, v, k);
  }

  /**
   * `internal::transform_mask_to_value`: shift `mask` right until its low bit
   * is set, counting the shifts in `index`, then add the base back. It only
   * terminates on a non-zero mask. The result is the base plus the position of
   * the lowest set bit (plus the starting index).
   */
  function TransformMaskToValue(mask: nat, base: int, index: nat): (r: int)
    requires mask != 0
    ensures r >= base + index && IsLowestSetBit(mask, r - base - index)
    decreases mask
  {
    AndPow2NonZero(mask, 0);
    if And(mask, 1) == 0 then
      var r := TransformMaskToValue(mask / 2, base, index + 1);
      LowestSetBitOfEven(mask, r - base - index - 1);
      r
    else
      index + base
  }

  /**
   * `set`: `mask | (1 << offset(el, base))`. The result has the bits of `mask`
   * and the bit at `el`'s offset, and nothing else.
   */
  function Set(mask: nat, el: int, base: int): (r: nat)
    requires Fits(el, base)
    ensures forall i: nat :: Bit(r, i) <==> Bit(mask, i) || i == Offset(el, base)
    ensures IsMask(mask) ==> IsMask(r)
  {
    OrPow2Bits(mask, Offset(el, base));
    OrPow2Bound(mask, Offset(el, base), MaskBits);
    Or(mask, Pow2(Offset(el, base)))
  }

  /**
   * `contains`: false for an element below the base; otherwise whether the bit
   * at the element's offset is set.
   */
  function Contains(mask: nat, el: int, base: int): (r: bool)
    requires Fits(el, base)
    ensures r <==> el >= base && Bit(mask, el - base)
  {
    if el < base then
      false
    else
      AndPow2NonZero(mask, Offset(el, base));
      And(mask, Pow2(Offset(el, base))) != 0
  }

  /** `set` applied to each element of `elems` in turn, starting from `mask`. */
  function SetAll(mask: nat, elems: seq<int>, base: int): (r: nat)
    requires AllFit(elems, base)
    ensures IsMask(mask) ==> IsMask(r)
    ensures mask <= r
    ensures forall i: nat :: Bit(mask, i) ==> Bit(r, i)
    decreases |elems|
  {
    if elems == [] then mask else SetAll(Set(mask, elems[0], base), elems[1..], base)
  }

  /** Some element of `elems` has offset `i`. */
  ghost predicate HasOffset(elems: seq<int>, base: int, i: nat)
  {
    exists e :: e in elems && Offset(e, base) == i
  }

  /**
   * `set_mask`: start from the zero mask and `set` each element in the order
   * given. `base` is the base resolved for the (Mask, Element) pair, which is
   * `DefaultBase` unless one is registered.
   */
  method SetMask(elems: seq<int>, base: int) returns (result: nat)
    requires AllFit(elems, base)
    ensures result == SetAll(0, elems, base)
    ensures IsMask(result)
    ensures forall i: nat :: Bit(result, i) <==> HasOffset(elems, base, i)
  {
    result := 0;
    for k := 0 to |elems|
      invariant IsMask(result)
      invariant SetAll(result, elems[k..], base) == SetAll(0, elems, base)
    {
      assert elems[k..] == [elems[k]] + elems[k + 1..];
      result := Set(result, elems[k], base);
    }
    assert elems[|elems|..] == [];
    SetAllBits(0, elems, base);
    ZeroIsEmpty();
  }

  /** Folding `set` over `elems` adds exactly the offsets of the elements. */
  lemma {:induction false} SetAllBits(mask: nat, elems: seq<int>, base: int)
    requires AllFit(elems, base)
    ensures forall i: nat :: Bit(SetAll(mask, elems, base), i) <==> Bit(mask, i) || HasOffset(elems, base, i)
    decreases |elems|
  {
    if elems != [] {
      var m' := Set(mask, elems[0], base);
      SetAllBits(m', elems[1..], base);
      forall i: nat
        ensures Bit(SetAll(mask, elems, base), i) <==> Bit(mask, i) || HasOffset(elems, base, i)
      {
        if HasOffset(elems, base, i) && !Bit(mask, i) && i != Offset(elems[0], base) {
          var e :| e in elems && Offset(e, base) == i;
          assert e in elems[1..];
        }
        if HasOffset(elems[1..], base, i) {
          var e :| e in elems[1..] && Offset(e, base) == i;
          assert e in elems;
        }
      }
    }
  }

  /**
   * The result of `set_mask` depends only on which elements are passed:
   * reordering or repeating them changes nothing.
   */
  lemma SetAllOrderIndependent(mask: nat, elems1: seq<int>, elems2: seq<int>, base: int)
    requires AllFit(elems1, base) && AllFit(elems2, base)
    requires forall e :: e in elems1 <==> e in elems2
    ensures SetAll(mask, elems1, base) == SetAll(mask, elems2, base)
  {
    SetAllBits(mask, elems1, base);
    SetAllBits(mask, elems2, base);
    BitsEqual(SetAll(mask, elems1, base), SetAll(mask, elems2, base));
  }

  /** `set` adds at most one bit: exactly one when the bit was clear. */
  lemma SetPopcount(mask: nat, el: int, base: int)
    requires Fits(el, base)
    ensures Popcount(Set(mask, el, base)) == Popcount(mask) + (if Bit(mask, Offset(el, base)) then 0 else 1)
  {
    var r := Set(mask, el, base);
    if Bit(mask, Offset(el, base)) {
      BitsEqual(r, mask);
    } else {
      PopcountAddBit(mask, r, Offset(el, base));
    }
  }

  /** An element at or above the base is contained after it is set. */
  lemma ContainsAfterSet(mask: nat, el: int, base: int)
    requires Fits(el, base) && el >= base
    ensures Contains(Set(mask, el, base), el, base)
  {
  }

  /** Setting one element leaves the membership of every element with another offset unchanged. */
  lemma SetLeavesOthers(mask: nat, el: int, other: int, base: int)
    requires Fits(el, base) && Fits(other, base)
    requires Offset(other, base) != Offset(el, base)
    ensures Contains(Set(mask, el, base), other, base) == Contains(mask, other, base)
  {
  }

  /** No element below the base is ever contained, whatever the mask. */
  lemma ContainsBelowBase(mask: nat, el: int, base: int)
    requires el < base
    ensures Fits(el, base) && !Contains(mask, el, base)
  {
  }

  /**
   * The asymmetry of the clamped offset: `set` with an element below the base
   * sets bit 0, the base's own bit, yet `contains` never reports that element.
   */
  lemma SetBelowBaseAliasesBase(mask: nat, el: int, base: int)
    requires el < base
    ensures Fits(el, base)
    ensures Set(mask, el, base) == Set(mask, base, base)
    ensures Contains(Set(mask, el, base), base, base)
    ensures !Contains(Set(mask, el, base), el, base)
  {
  }

  /**
   * `combine`: the OR of `1 << underlying(e)` over the elements, with no base.
   * It is not defined in `mask_utils.h`; this follows the expectations at
   * `src/main.cpp` lines 30 and 73-75.
   */
  function Combine(elems: seq<int>): (r: nat)
    requires forall e :: e in elems ==> 0 <= e < MaskBits
    ensures forall i: nat :: Bit(r, i) <==> i in elems
  {
    if elems == [] then
      ZeroIsEmpty();
      0
    else
      assert elems[0] in elems && forall e :: e in elems[1..] ==> e in elems;
      var rest := Combine(elems[1..]);
      OrPow2Bits(rest, elems[0]);
      Or(rest, Pow2(elems[0]))
  }

  /** With every element at or above 0, `combine` equals `set_mask` under the default base. */
  lemma CombineIsSetMaskAtDefaultBase(elems: seq<int>)
    requires forall e :: e in elems ==> 0 <= e < MaskBits
    ensures AllFit(elems, DefaultBase())
    ensures Combine(elems) == SetAll(0, elems, DefaultBase())
  {
    assert AllFit(elems, DefaultBase());
    SetAllBits(0, elems, DefaultBase());
    forall i: nat
      ensures Bit(Combine(elems), i) <==> Bit(SetAll(0, elems, DefaultBase()), i)
    {
      ZeroHasNoBits(i);
      if i in elems {
        assert Offset(i, DefaultBase()) == i;
      }
    }
    BitsEqual(Combine(elems), SetAll(0, elems, DefaultBase()));
  }
}
