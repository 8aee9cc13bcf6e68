/**
 * Cyclic indices, `(i + 1) % n`, shared by the hero-word rotator of App.tsx
 * and the hover bubble of components/HoverLoopText.tsx.
 */
module Rotation {

  /** One step forward on a ring of `count` positions: `(index + 1) % count`. */
  function Advance(index: nat, count: nat): (next: nat)
    requires index < count
    ensures next < count
    ensures next == if index == count - 1 then 0 else index + 1
  {
    (index + 1) % count
  }

  /** The position after `m` steps. */
  function AdvanceTimes(index: nat, count: nat, m: nat): (r: nat)
    requires index < count
    ensures r < count
  {
    if m == 0 then index else Advance(AdvanceTimes(index, count, m - 1), count)
  }

  /** Up to one round, `m` steps from `index` move `m` places forward, wrapping past the last position. */
  lemma {:induction false} AdvanceTimesWraps(index: nat, count: nat, m: nat)
    requires index < count && m <= count
    ensures AdvanceTimes(index, count, m) == if index + m < count then index + m else index + m - count
  {
    if m > 0 {
      AdvanceTimesWraps(index, count, m - 1);
    }
  }

  /** As many steps as there are positions come back to the start. */
  lemma AdvanceTimesCycles(index: nat, count: nat)
    requires index < count
    ensures AdvanceTimes(index, count, count) == index
  {
    AdvanceTimesWraps(index, count, count);
  }
}
