# mask_utils in Dafny

A model of `src/mask_utils.h`, a typed bit-set over enumerations. A mask
enumeration value stores a set of element enumeration values. Each element sits
at bit `underlying(el) - underlying(base)`, where the base is the element
mapped to bit 0. The header builds masks (`set`, `set_mask`), tests
membership (`contains`) and iterates a mask's elements (`split`, which returns
a range whose iterator clears one bit per step).

How the model represents the header:

- An enumeration value is its underlying `int`, so `utl::to_underlying` is the
  identity. A mask is a non-negative integer. The test enumerations have the
  default underlying type `int`. A mask is kept non-negative, so the model
  uses bit positions 0 to 30 (`Mask.MaskBits`) and a mask is below 2^31
  (`Mask.IsMask`).
- `&`, `|`, `1 << k` and `>> 1` on non-negative integers are `Bits.And`,
  `Bits.Or`, `Bits.Pow2` and `/ 2`. `Bits.Bit(m, i)` reads binary digit `i`,
  and the lemmas of module `Bits` give each operator's effect on the digits.
- The base is an explicit parameter. `define_base` with no registration
  gives the element with underlying value 0, which is `Mask.DefaultBase`. A
  registered base, or one passed at the call site, is just another value of
  that parameter.
- `range::iterator` is the class `MaskRange.Iterator`. Its `mask` field is
  updated in place by `Next` (`operator++`), and its `base` stays fixed. `internal::range` is
  the value type `MaskRange.Range`, and `split` is `MaskRange.Split`.
  `MaskRange.Elements` is the sequence an iteration yields: dereference, then
  `++`, until the mask is 0. `MaskRange.Collect` is a range-for loop that
  drains the iterator into a sequence. `MaskRange.Find` is a linear search
  over the range.
- `MaskScenarios` restates the expectations of `src/main.cpp` over the model.

## Model

| member | source | states |
|---|---|---|
| Mask.DefaultBase | src/mask_utils.h:18-21 | with no registered base, the base is the element with underlying value 0, so every element at or above 0 sits at the bit of its own underlying value |
| Mask.Offset | src/mask_utils.h:30-34 | the offset is never negative; at or above the base it is the distance from the base, and at or below the base it is 0 |
| Mask.ClearRightMostBit | src/mask_utils.h:37-40 | `(v - 1) & v` never exceeds `v`, so a mask stays a mask; for `v == 0` it is 0 |
| Mask.ClearRightMostBitSpec | src/mask_utils.h:37-40 | for `v > 0` with lowest set bit `k`, the result has exactly the bits of `v` except `k`: higher bits are unchanged, the value is strictly smaller and the popcount drops by one |
| Mask.TransformMaskToValue | src/mask_utils.h:42-48 | on a non-zero mask the scan returns `base + index + k`, where `k` is the position of the lowest set bit |
| Mask.Set | src/mask_utils.h:58-61 | the result's bits are the mask's bits plus the bit at the element's offset, and nothing else; a mask below 2^31 stays below 2^31 |
| Mask.Contains | src/mask_utils.h:122-128 | true exactly when the element is at or above the base and the bit at its distance from the base is set |
| Mask.SetAll | src/mask_utils.h:51-56 | folding `set` over the elements never clears a bit of the starting value, never decreases it, and keeps a mask below 2^31 |
| Mask.SetMask | src/mask_utils.h:51-56 | the loop's result equals folding `set` from the zero mask over the elements in order; bit `i` is set exactly when some element has offset `i`; the result is a mask |
| Mask.SetAllBits | src/mask_utils.h:51-56 | folding `set` over a list adds exactly the offsets of its elements to the starting mask |
| Mask.SetAllOrderIndependent | src/mask_utils.h:51-56 | two element lists with the same members (any order, any repetition) build the same mask |
| Mask.SetPopcount | src/mask_utils.h:58-61 | `set` adds one bit when the element's bit was clear and none when it was already set |
| Mask.ContainsAfterSet | src/mask_utils.h:122-128 | an element at or above the base is contained in the mask after it is set |
| Mask.SetLeavesOthers | src/mask_utils.h:58-61 | setting an element does not change the membership of any element with a different offset |
| Mask.ContainsBelowBase | src/mask_utils.h:123-126 | an element below the base is never contained, whatever the mask |
| Mask.SetBelowBaseAliasesBase | src/mask_utils.h:31-34 | an element below the base is clamped to offset 0: `set` then sets the base's bit, which `contains` reports for the base but never for that element |
| Mask.Combine | src/main.cpp:72-76 | `combine` sets exactly the bits at the elements' own underlying values |
| Mask.CombineIsSetMaskAtDefaultBase | src/main.cpp:28-31 | for elements 0 to 30, `combine` builds the same mask as `set_mask` under the default base |
| MaskRange.ElementsMembership | src/mask_utils.h:85-92 | iterating a mask yields an element exactly when it is at or above the base and its bit is set |
| MaskRange.Elements | src/mask_utils.h:85-92 | iteration reaches the end (mask 0) after exactly popcount(mask) steps, one element per set bit |
| MaskRange.ElementsAscending | src/mask_utils.h:89-92 | iteration yields the elements in strictly ascending order |
| MaskRange.Split | src/mask_utils.h:117-120 | `split` returns a range holding the mask and the base unchanged |
| MaskRange.SplitAgreesWithContains | src/mask_utils.h:115-120 | an element occurs in the split range exactly when `contains` holds for it |
| MaskRange.SplitSetMaskPair | src/mask_utils.h:115-120 | the split of `set_mask(e1, e2)` is exactly `e1, e2` in ascending order, whichever order they were passed in |
| MaskRange.Iterator.constructor | src/mask_utils.h:81-84 | the iterator starts from the given mask and base |
| MaskRange.Iterator.Default | src/mask_utils.h:77-80 | the default iterator has mask 0 and the element with underlying value 0 as base |
| MaskRange.Iterator.Next | src/mask_utils.h:85 | `++` replaces the mask by `clear_right_most_bit(mask)` and keeps the base; on a non-end iterator the mask and popcount drop and the remaining elements lose their first |
| MaskRange.Iterator.Equals | src/mask_utils.h:87 | iterators are equal exactly when their masks are equal; the base is ignored |
| MaskRange.Iterator.Current | src/mask_utils.h:89-92 | dereferencing a non-end iterator yields the base plus the position of the lowest set bit, which is the first remaining element |
| MaskRange.Range.Begin | src/mask_utils.h:106 | `begin()` is an iterator over the range's whole mask and base |
| MaskRange.Range.End | src/mask_utils.h:107 | `end()` is an iterator with mask 0 and the range's base |
| MaskRange.Collect | src/mask_utils.h:117-120 | draining `split(mask, base)` from `begin` to `end` gives `Elements(mask, base)`: popcount(mask) elements, strictly ascending, exactly those at or above the base whose bit is set |
| MaskRange.Find | src/main.cpp:90-96 | a search for `el` in the split range stops before `end` exactly when `el` is at or above the base and its bit is set |
| MaskScenarios.SetContainsWithDefaultBase | src/main.cpp:46-51 | with the default base, `set(Empty, One)` contains `One` but neither `Zero` nor `Two` |
| MaskScenarios.SetContainsWithDefinedBase | src/main.cpp:53-58 | with base `One`, `set(Empty, One)` is 1 and contains `One` but neither `Zero` nor `Two` |
| MaskScenarios.SetContainsWithManualBase | src/main.cpp:60-64 | `set(Empty, Zero, Zero)` does not contain `Two` under base `One` but does under base `Two` |
| MaskScenarios.SetContainsInOneEnum | src/main.cpp:66-70 | with `Fst = 256` as base, `set(Empty, Snd)` is 2 and contains `Snd` but not `Fst` |
| MaskScenarios.CombineValues | src/main.cpp:72-76 | `combine(Zero) == 1`, `combine(One, Two) == 6` and `combine(Two, Zero) == 5` |
| MaskScenarios.OneAndTwoScenario | src/main.cpp:78-96 | `OneAndTwo` contains `One` and `Two` but not `Zero`, its split yields `One, Two`, and a search for `Zero` reaches the end |
| MaskScenarios.OneAndTwoUnderBaseOne | src/main.cpp:30 | the mask of `OneAndTwo` (6) split under base `One` yields underlying values 2 and 3, not `One, Two` |

## Left out

- The concepts `enum_type` and `base_defined`, and the specialisations of `define_base` for a (Mask, Element) type pair, are compile-time machinery. The resolved base is a parameter instead.
- `combine` is not defined in `src/mask_utils.h`. `Mask.Combine` follows the test expectations in `src/main.cpp` (lines 28-31 and 72-82) and is not checked against a definition.
- `set_mask` takes a heterogeneous parameter pack, where each element type can have its own base. The model takes a sequence of elements of one type and one base.
- `Mask.Set` and `Mask.Contains` require the offset to be below 31 (`Mask.Fits`), because a mask is modelled as a non-negative value below 2^31 (`Mask.IsMask`). In C++20, `1 << 31` on an `int` is defined and gives the sign bit, so the header's `set` and `contains` also work at offset 31; that case is not modelled. Iterating a mask with the sign bit set would overflow in `clear_right_most_bit` (`src/mask_utils.h:39`, `INT_MIN - 1`), which is undefined. Shifts by 32 or more are undefined for `int` and are excluded as well.
- `Mask.Offset` models a signed underlying type (or an unsigned one narrow enough to be promoted to `int`), where `diff` can be negative and the clamp at `src/mask_utils.h:32-33` applies. For an unsigned underlying type of `int`'s width or wider, `diff >= 0` always holds and the clamp is dead code: `set` below the base then shifts by a huge amount instead of setting bit 0, so `Mask.SetBelowBaseAliasesBase` does not describe that case. Element values are unbounded integers, and the `int` overflow of `el - base` for far-apart values is not modelled.
- `Mask.TransformMaskToValue` requires a non-zero mask. On mask 0 the header's recursion never ends, and `end` is never dereferenced.
- The iterator typedefs, post-increment (`operator++(int)`, a copy followed by `++`), `operator!=` (the negation of `Equals`) and the use of the range with `std::ranges` and `std::views` are library plumbing and are not modelled. `MaskRange.Find` stands for the one search the tests perform.

## Notes

- The enumerations in `src/main.cpp` register no base for `MaskWithPreDefinedValues`, so `OneAndTwo` is split and queried under the default base `Zero`. `MaskScenarios.OneAndTwoScenario` follows that code. Under base `One` the same mask 6 would split into underlying values 2 and 3, not `One, Two` (`MaskScenarios.OneAndTwoUnderBaseOne`).
- In `src/mask_utils.h`, `set_mask` (lines 51-56) calls `set` before `set` is declared (line 58). For enumerations declared outside namespace `mask`, an unqualified call like this inside a template would not be expected to find `mask::set`. No test instantiates `set_mask`. The model follows the fold the function evidently intends.
- `set` and `contains` disagree on elements below the base. `set` clamps the offset to 0 and so sets the base's bit, while `contains` returns false for any such element. `Mask.SetBelowBaseAliasesBase` states this behaviour as it stands, and the model does not resolve it either way.
