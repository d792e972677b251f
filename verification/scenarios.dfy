/**
 * The expectations of the repository's test cases, stated over the model.
 * The test enumeration `Element` has `Zero`, `One` and `Two` with underlying
 * values 0, 1 and 2. `MaskElemTogether` is one enumeration that is both mask
 * and element: `Fst = 1 << 8` (256) is its registered base and `Snd` is 257.
 */
module MaskScenarios {
  import opened Bits
  import opened Mask
  import opened MaskRange

  const Zero: int := 0
  const One: int := 1
  const Two: int := 2
  const Empty: nat := 0
  const Fst: int := 256
  const Snd: int := 257

  /** With the default base, setting `One` makes `One` present and `Zero`, `Two` absent. */
  lemma SetContainsWithDefaultBase()
    ensures Contains(Set(Empty, One, DefaultBase()), One, DefaultBase())
    ensures !Contains(Set(Empty, One, DefaultBase()), Zero, DefaultBase())
    ensures !Contains(Set(Empty, One, DefaultBase()), Two, DefaultBase())
  {
    ZeroIsEmpty();
  }

  /** With `One` registered as base, `One` sits at bit 0 and `Zero` is below the base. */
  lemma SetContainsWithDefinedBase()
    ensures Set(Empty, One, One) == 1
    ensures Contains(Set(Empty, One, One), One, One)
    ensures !Contains(Set(Empty, One, One), Zero, One)
    ensures !Contains(Set(Empty, One, One), Two, One)
  {
    ZeroIsEmpty();
  }

  /** A base passed at the call site overrides the registered one for that call only. */
  lemma SetContainsWithManualBase()
    ensures !Contains(Set(Empty, Zero, Zero), Two, One)
    ensures Contains(Set(Empty, Zero, Zero), Two, Two)
  {
    ZeroIsEmpty();
  }

  /** One enumeration as both mask and element, anchored at `Fst`. */
  lemma SetContainsInOneEnum()
    ensures Set(Empty, Snd, Fst) == 2
    ensures Contains(Set(Empty, Snd, Fst), Snd, Fst)
    ensures !Contains(Set(Empty, Snd, Fst), Fst, Fst)
  {
    ZeroIsEmpty();
  }

  /** `combine` places each element at its own underlying value. */
  lemma CombineValues()
    ensures Combine([Zero]) == 1
    ensures Combine([One, Two]) == 6
    ensures Combine([Two, Zero]) == 5
  {
    assert [One, Two][1..] == [Two] && [Two, Zero][1..] == [Zero];
    assert Combine([Two]) == 4 && Combine([Zero]) == 1;
    assert Or(2, 1) == 3;
    assert Or(1, 4) == 5;
  }

  /**
   * The constant `OneAndTwo = combine(One, Two)` under the default base (no
   * base is registered for its mask type) contains `One` and `Two` only, and
   * its split range yields `One` then `Two`, so a search for `Zero` reaches
   * the end.
   */
  lemma OneAndTwoScenario()
    ensures Contains(Combine([One, Two]), One, DefaultBase())
    ensures Contains(Combine([One, Two]), Two, DefaultBase())
    ensures !Contains(Combine([One, Two]), Zero, DefaultBase())
    ensures Elements(Combine([One, Two]), DefaultBase()) == [One, Two]
    ensures Zero !in Elements(Combine([One, Two]), DefaultBase())
  {
    CombineIsSetMaskAtDefaultBase([One, Two]);
    SplitSetMaskPair(One, Two, DefaultBase());
  }

  /**
   * The same mask under base `One` instead: bit 1 then stands for underlying
   * value 2 and bit 2 for underlying value 3, so the split no longer yields
   * `One, Two`. The default base is what makes `OneAndTwoScenario` hold.
   */
  lemma OneAndTwoUnderBaseOne()
    ensures Elements(Combine([One, Two]), One) == [Two, Two + 1]
  {
    CombineValues();
    assert And(5, 6) == 4 && And(3, 4) == 0;
    assert Elements(0, One) == [];
    assert Elements(4, One) == [Two + 1] + Elements(0, One);
    assert Elements(6, One) == [Two] + Elements(4, One);
  }
}
