/**
 * `split`, `internal::range` and `range::iterator` from `mask_utils.h`.
 *
 * The iterator holds a working copy of the mask and the base. Dereferencing
 * it yields the element of the lowest set bit, `++` clears that bit, and two
 * iterators are equal when their masks are equal, so iteration reaches `end`
 * (mask 0) after one step per set bit. `Elements` is the sequence such an
 * iteration yields; the lemmas say it lists, in ascending order, exactly the
 * elements that `contains` reports.
 */
module MaskRange {
  import opened Bits
  import opened Mask

  /**
   * The elements iteration yields from `mask`: dereference, then `++`, until
   * the mask is 0. Each step clears one set bit, so there is one element per
   * set bit.
   */
  function Elements(mask: nat, base: int): (r: seq<int>)
    ensures |r| == Popcount(mask)
    decreases mask
  {
    if mask == 0 then
      []
    else
      var el := TransformMaskToValue(mask, base, 0);
      ClearRightMostBitSpec(mask, el - base);
      [el] + Elements(ClearRightMostBit(mask), base)
  }

  /** Each set bit of the mask contributes one element, and nothing else does. */
  lemma {:induction false} ElementsMembership(mask: nat, base: int)
    ensures forall el :: el in Elements(mask, base) <==> el >= base && Bit(mask, el - base)
    decreases mask
  {
    if mask == 0 {
      ZeroIsEmpty();
    } else {
      var head := TransformMaskToValue(mask, base, 0);
      var rest := ClearRightMostBit(mask);
      ClearRightMostBitSpec(mask, head - base);
      ElementsMembership(rest, base);
      assert Elements(mask, base) == [head] + Elements(rest, base);
    }
  }

  /** `ElementsMembership` for one element. */
  lemma ElementMember(mask: nat, base: int, el: int)
    ensures el in Elements(mask, base) <==> el >= base && Bit(mask, el - base)
  {
    ElementsMembership(mask, base);
  }

  /** Iteration yields the elements in strictly ascending order. */
  lemma {:induction false} ElementsAscending(mask: nat, base: int)
    ensures StrictlyAscending(Elements(mask, base))
    decreases mask
  {
    if mask != 0 {
      var head := TransformMaskToValue(mask, base, 0);
      var rest := ClearRightMostBit(mask);
      ClearRightMostBitSpec(mask, head - base);
      ElementsAscending(rest, base);
      ElementsMembership(rest, base);
      var tail := Elements(rest, base);
      forall j | 0 <= j < |tail|
        ensures head < tail[j]
      {
        assert tail[j] in tail;
      }
      assert Elements(mask, base) == [head] + tail;
    }
  }

  predicate StrictlyAscending(s: seq<int>)
  {
    forall i, j :: 0 <= i < j < |s| ==> s[i] < s[j]
  }

  lemma HeadIsMember(s: seq<int>)
    ensures s != [] ==> s[0] in s
  {
  }

  /** Two strictly ascending sequences with the same members are equal. */
  lemma {:induction false} AscendingUnique(xs: seq<int>, ys: seq<int>)
    requires StrictlyAscending(xs) && StrictlyAscending(ys)
    requires forall x :: x in xs <==> x in ys
    ensures xs == ys
    decreases |xs|
  {
    if xs == [] {
      HeadIsMember(ys);
    } else {
      assert ys != [] by {
        assert xs[0] in xs;
      }
      assert xs[0] == ys[0] by {
        assert xs[0] in xs && ys[0] in ys;
        assert xs[0] in ys && ys[0] in xs;
      }
      forall x
        ensures x in xs[1..] <==> x in ys[1..]
      {
        if x in xs[1..] {
          assert x in ys;
        }
        if x in ys[1..] {
          assert x in xs;
        }
      }
      AscendingUnique(xs[1..], ys[1..]);
    }
  }

  /** Searching the split range for an element succeeds exactly when `contains` holds. */
  lemma SplitAgreesWithContains(mask: nat, el: int, base: int)
    requires Fits(el, base)
    ensures el in Elements(mask, base) <==> Contains(mask, el, base)
  {
    ElementsMembership(mask, base);
  }

  /**
   * Splitting the mask `set_mask` builds from two elements yields exactly those
   * two, in ascending order, whichever order they were passed in.
   */
  lemma SplitSetMaskPair(e1: int, e2: int, base: int)
    requires base <= e1 < e2 && Fits(e2, base)
    ensures AllFit([e1, e2], base) && AllFit([e2, e1], base)
    ensures Elements(SetAll(0, [e1, e2], base), base) == [e1, e2]
    ensures Elements(SetAll(0, [e2, e1], base), base) == [e1, e2]
  {
    assert AllFit([e1, e2], base) && AllFit([e2, e1], base);
    var m := SetAll(0, [e1, e2], base);
    SetAllBits(0, [e1, e2], base);
    ZeroIsEmpty();
    ElementsMembership(m, base);
    forall el
      ensures el in Elements(m, base) <==> el in [e1, e2]
    {
      if el == e1 || el == e2 {
        assert el in [e1, e2] && Offset(el, base) == el - base;
      }
    }
    ElementsAscending(m, base);
    AscendingUnique(Elements(m, base), [e1, e2]);
    SetAllOrderIndependent(0, [e1, e2], [e2, e1], base);
  }

  /**
   * `range::iterator`: a working mask and the base. The default constructor
   * gives mask 0 and the element with underlying value 0.
   */
  class Iterator {
    var mask: nat
    var base: int

    constructor Default()
      ensures mask == 0 && base == DefaultBase()
    {
      mask := 0;
      base := DefaultBase();
    }

    constructor (mask: nat, base: int)
      ensures this.mask == mask && this.base == base
    {
      this.mask := mask;
      this.base := base;
    }

    /** The elements still to come, from this position on. */
    function Remaining(): seq<int>
      reads this
    {
      Elements(mask, base)
    }

    /** `operator++`: clear the lowest set bit of the working mask. */
    method Next()
      modifies this
      ensures base == old(base)
      ensures mask == ClearRightMostBit(old(mask))
      ensures old(mask) != 0 ==> mask < old(mask) && Popcount(mask) + 1 == Popcount(old(mask))
      ensures old(mask) != 0 ==> Remaining() == old(Remaining())[1..]
    {
      if mask != 0 {
        var k := LowestSetBitExists(mask);
        ClearRightMostBitSpec(mask, k);
      }
      mask := ClearRightMostBit(mask);
    }

    /** `operator==`: iterators compare by their masks alone. */
    method Equals(other: Iterator) returns (eq: bool)
      ensures eq <==> mask == other.mask
    {
      eq := mask == other.mask;
    }

    /** `operator*`: the element of the lowest set bit; not defined on `end`. */
    method Current() returns (el: int)
      requires mask != 0
      ensures el >= base && IsLowestSetBit(mask, el - base)
      ensures Remaining() != [] && el == Remaining()[0]
    {
      el := TransformMaskToValue(mask, base, 0);
    }
  }

  /** `internal::range`: the mask and base an iteration starts from. */
  datatype Range = Range(mask: nat, base: int)
  {
    /** `begin()`: an iterator over the whole mask. */
    method Begin() returns (it: Iterator)
      ensures fresh(it) && it.mask == mask && it.base == base
    {
      it := new Iterator(mask, base);
    }

    /** `end()`: the iterator with mask 0. */
    method End() returns (it: Iterator)
      ensures fresh(it) && it.mask == 0 && it.base == base
    {
      it := new Iterator(0, base);
    }
  }

  /**
   * `split`: the range over the elements of `mask`. It copies the mask and the
   * base as they are; iterating it is `Collect`.
   */
  function Split(mask: nat, base: int): (r: Range)
    ensures r.mask == mask && r.base == base
  {
    Range(mask, base)
  }

  /** Moving the first remaining element to the end of what was collected keeps their concatenation. */
  lemma TakeFirst(done: seq<int>, before: seq<int>, after: seq<int>)
    requires before != [] && after == before[1..]
    ensures (done + [before[0]]) + after == done + before
  {
    assert before == [before[0]] + after;
  }

  /**
   * A range-for loop over `split(mask, base)`, collecting what it yields.
   * The result lists, in ascending order, the elements `contains` reports,
   * one per set bit.
   */
  method Collect(mask: nat, base: int) returns (els: seq<int>)
    ensures els == Elements(mask, base)
    ensures |els| == Popcount(mask)
    ensures StrictlyAscending(els)
    ensures forall el :: el in els <==> el >= base && Bit(mask, el - base)
  {
    var range := Split(mask, base);
    var it := range.Begin();
    var last := range.End();
    els := [];
    var atEnd := it.Equals(last);
    while !atEnd
      invariant it != last && last.mask == 0 && it.base == base
      invariant atEnd <==> it.mask == 0
      invariant els + it.Remaining() == Elements(mask, base)
      decreases it.mask
    {
      var el := it.Current();
      ghost var before := it.Remaining();
      it.Next();
      TakeFirst(els, before, it.Remaining());
      els := els + [el];
      atEnd := it.Equals(last);
    }
    assert els == Elements(mask, base);
    ElementsAscending(mask, base);
    ElementsMembership(mask, base);
  }

  /**
   * A linear search over `split(mask, base)` that stops at the first element
   * equal to `el` or at `end`; `found` is whether it stopped before `end`.
   */
  method Find(mask: nat, base: int, el: int) returns (found: bool)
    ensures found <==> el in Elements(mask, base)
    ensures found <==> el >= base && Bit(mask, el - base)
  {
    var range := Split(mask, base);
    var it := range.Begin();
    var last := range.End();
    ghost var seen: seq<int> := [];
    var atEnd := it.Equals(last);
    while !atEnd
      invariant it != last && last.mask == 0 && it.base == base
      invariant atEnd <==> it.mask == 0
      invariant seen + it.Remaining() == Elements(mask, base)
      invariant el !in seen
      decreases it.mask
    {
      var cur := it.Current();
      if cur == el {
        assert el in seen + it.Remaining();
        break;
      }
      ghost var before := it.Remaining();
      it.Next();
      TakeFirst(seen, before, it.Remaining());
      seen := seen + [cur];
      atEnd := it.Equals(last);
    }
    found := !atEnd;
    if atEnd {
      assert seen == Elements(mask, base);
    }
    ElementMember(mask, base, el);
  }
}
