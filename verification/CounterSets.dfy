/** The search for compatible counter groups of papi_best_set.C. Whether PAPI can count a list of
    counters together, next to the omnipresent ones, is a fixed predicate `compat` on that list. */
module CounterSets {
  import opened Common
  import opened Masks

  const UINT_RANGE: nat := 0x1_0000_0000
  const SIZE_RANGE: nat := 0x1_0000_0000_0000_0000
  const MAXBITSET: nat := 128

  /** `8 - omnicounters.size()` as an unsigned subtraction. */
  function Cap(omni: nat): nat { (8 - omni) % SIZE_RANGE }

  // ---------------------------------------------------------------- the exhaustive search

  predicate Fits<T>(compat: seq<T> -> bool, cap: nat, cs: seq<T>, m: nat) {
    Pop(m) <= cap && compat(Selected(cs, m))
  }

  /** The plain search: of the masks below k, the first of those with most bits; 0 if none fits. */
  function BestBelow<T>(compat: seq<T> -> bool, cap: nat, cs: seq<T>, k: nat): nat {
    if k == 0 then 0
    else
      var b := BestBelow(compat, cap, cs, k - 1);
      if Fits(compat, cap, cs, k - 1) && Pop(k - 1) > Pop(b) then k - 1 else b
  }

  function Best<T>(compat: seq<T> -> bool, cap: nat, cs: seq<T>): nat {
    BestBelow(compat, cap, cs, Pow2(|cs|))
  }

  /** The numerically smallest of the fitting masks of maximum size. */
  lemma {:induction false} BestBelowIsBest<T>(compat: seq<T> -> bool, cap: nat, cs: seq<T>, k: nat)
    ensures var b := BestBelow(compat, cap, cs, k);
      && (b != 0 ==> b < k && Fits(compat, cap, cs, b))
      && Pop(b) <= cap
      && forall m :: 0 <= m < k && Fits(compat, cap, cs, m) ==> Pop(m) < Pop(b) || (Pop(m) == Pop(b) && b <= m)
  {
    if k > 0 {
      BestBelowIsBest(compat, cap, cs, k - 1);
    }
  }

  /** Once a mask reaches the cap no later one replaces it: stopping early changes nothing. */
  lemma {:induction false} FullIsFinal<T>(compat: seq<T> -> bool, cap: nat, cs: seq<T>, k: nat, k': nat)
    requires k <= k' && Pop(BestBelow(compat, cap, cs, k)) == cap
    ensures BestBelow(compat, cap, cs, k') == BestBelow(compat, cap, cs, k)
    decreases k' - k
  {
    if k < k' {
      FullIsFinal(compat, cap, cs, k, k' - 1);
    }
  }

  /** The loop's next mask: it passes through a 32-bit unsigned variable. */
  function NextMask(mask: nat): nat { (mask % UINT_RANGE + 1) % UINT_RANGE }

  function MaskAfter(steps: nat): nat {
    if steps == 0 then 0 else NextMask(MaskAfter(steps - 1))
  }

  /** The best mask the loop knows after so many rounds, were it to go on for ever. */
  function MaxAfter<T>(compat: seq<T> -> bool, cap: nat, cs: seq<T>, rounds: nat): nat {
    if rounds == 0 then 0
    else
      var m, b := MaskAfter(rounds - 1), MaxAfter(compat, cap, cs, rounds - 1);
      if Fits(compat, cap, cs, m) && Pop(m) > Pop(b) then m else b
  }

  lemma {:induction false} MaxAfterIs<T>(compat: seq<T> -> bool, cap: nat, cs: seq<T>, rounds: nat)
    ensures MaxAfter(compat, cap, cs, rounds) == BestBelow(compat, cap, cs, Min(rounds, UINT_RANGE))
  {
    if rounds > 0 {
      MaxAfterIs(compat, cap, cs, rounds - 1);
      if rounds <= UINT_RANGE {
        MaskAfterIs(rounds - 1);
      } else {
        MaskAfterBounded(rounds - 1);
        BestBelowIsBest(compat, cap, cs, UINT_RANGE);
      }
    }
  }

  ghost predicate Stops<T>(compat: seq<T> -> bool, cap: nat, cs: seq<T>, rounds: nat) {
    MaskAfter(rounds) == Pow2(|cs|) || Pop(MaxAfter(compat, cap, cs, rounds)) == cap
  }

  /** At most 31 counters, or a compatible set among the first 32 that fills the cap. */
  ghost predicate Ends<T>(compat: seq<T> -> bool, cap: nat, cs: seq<T>) {
    |cs| <= 31 || cap == 0 || exists m: nat :: m < UINT_RANGE && Fits(compat, cap, cs, m) && Pop(m) == cap
  }

  lemma FullBelow<T>(compat: seq<T> -> bool, cap: nat, cs: seq<T>, k: nat)
    ensures Pop(BestBelow(compat, cap, cs, k)) == cap
       <==> cap == 0 || exists m: nat :: m < k && Fits(compat, cap, cs, m) && Pop(m) == cap
  {
    var b := BestBelow(compat, cap, cs, k);
    BestBelowIsBest(compat, cap, cs, k);
    PopZero(b);
    if Pop(b) == cap && cap != 0 {
      assert b < k && Fits(compat, cap, cs, b);
    }
  }

  /** The loop ends if and only if there are at most 31 counters or some compatible set of the first
      32 fills the cap. Otherwise its mask wraps to 0 before it reaches the end value, although up
      to 62 counters are let through. */
  lemma SearchEnds<T>(compat: seq<T> -> bool, cap: nat, cs: seq<T>)
    ensures (exists rounds :: Stops(compat, cap, cs, rounds)) <==> Ends(compat, cap, cs)
  {
    Pow2Of32();
    MaxAfterIs(compat, cap, cs, UINT_RANGE);
    FullBelow(compat, cap, cs, UINT_RANGE);
    if |cs| <= 31 {
      Pow2Mono(|cs|, 31);
      MaskAfterIs(Pow2(|cs|));
      assert Stops(compat, cap, cs, Pow2(|cs|));
    } else if Pop(BestBelow(compat, cap, cs, UINT_RANGE)) == cap {
      assert Stops(compat, cap, cs, UINT_RANGE);
    } else {
      NeverStops(compat, cap, cs);
    }
  }

  lemma NeverStops<T>(compat: seq<T> -> bool, cap: nat, cs: seq<T>)
    requires |cs| > 31 && Pop(BestBelow(compat, cap, cs, UINT_RANGE)) != cap
    ensures forall rounds :: !Stops(compat, cap, cs, rounds)
  {
    Pow2Of32();
    Pow2Mono(32, |cs|);
    forall rounds: nat
      ensures !Stops(compat, cap, cs, rounds)
    {
      MaskAfterBounded(rounds);
      MaxAfterIs(compat, cap, cs, rounds);
      if Pop(BestBelow(compat, cap, cs, Min(rounds, UINT_RANGE))) == cap {
        FullIsFinal(compat, cap, cs, Min(rounds, UINT_RANGE), UINT_RANGE);
      }
    }
  }

  /** With 32 counters none of which can be counted, the loop runs for ever. */
  lemma RunsForEver<T(!new)>(compat: seq<T> -> bool, cs: seq<T>)
    requires |cs| == 32 && forall s :: s != [] ==> !compat(s)
    ensures forall rounds :: !Stops(compat, 8, cs, rounds)
  {
    var b := BestBelow(compat, 8, cs, UINT_RANGE);
    BestBelowIsBest(compat, 8, cs, UINT_RANGE);
    PopZero(b);
    if b != 0 {
      Pow2Of32();
      SelectedSize(cs, b);
    }
    NeverStops(compat, 8, cs);
  }

  lemma Pow2Of32()
    ensures Pow2(31) == 0x8000_0000 && Pow2(32) == UINT_RANGE
  {
    assert Pow2(8) == 0x100;
    assert Pow2(16) == 0x1_0000;
    assert Pow2(24) == 0x100_0000;
  }

  lemma {:induction false} Pow2Mono(a: nat, b: nat)
    requires a <= b
    ensures Pow2(a) <= Pow2(b)
    decreases b
  {
    if a < b {
      Pow2Mono(a, b - 1);
    }
  }

  lemma {:induction false} MaskAfterIs(k: nat)
    requires k < UINT_RANGE
    ensures MaskAfter(k) == k
  {
    if k > 0 {
      MaskAfterIs(k - 1);
    }
  }

  lemma MaskAfterBounded(k: nat)
    ensures MaskAfter(k) < UINT_RANGE
  {
  }

  function Shifted(m: nat, i: nat): nat {
    if i == 0 then m else Shifted(m / 2, i - 1)
  }

  /** bitset::test */
  predicate Test(m: nat, i: nat) { Shifted(m, i) % 2 == 1 }

  lemma {:induction false} ShiftedHalves(m: nat, i: nat)
    ensures Shifted(m, i + 1) == Shifted(m, i) / 2
    decreases i
  {
    if i > 0 {
      ShiftedHalves(m / 2, i - 1);
    }
  }

  lemma {:induction false} ShiftedOut(m: nat, n: nat, i: nat)
    requires m < Pow2(n) && n <= i
    ensures Shifted(m, i) == 0
    decreases i
  {
    if i > 0 {
      ShiftedOut(m / 2, if n == 0 then 0 else n - 1, i - 1);
    }
  }

  /** The list once the selected entries from position i on are erased. */
  function ErasedFrom<T>(cs: seq<T>, m: nat, i: nat): seq<T> {
    var k := if i < |cs| then i else |cs|;
    cs[..k] + Unselected(cs[k..], Shifted(m, k))
  }

  lemma EraseOne<T>(cs: seq<T>, m: nat, i: nat)
    requires m < Pow2(|cs|)
    ensures var after := ErasedFrom(cs, m, i + 1);
      Test(m, i) ==> i < |cs| && i < |after| && ErasedFrom(cs, m, i) == after[..i] + after[i + 1..]
    ensures !Test(m, i) ==> ErasedFrom(cs, m, i) == ErasedFrom(cs, m, i + 1)
  {
    if i >= |cs| {
      ShiftedOut(m, |cs|, i);
    } else {
      ShiftedHalves(m, i);
      assert cs[i..][1..] == cs[i + 1..];
    }
  }

  lemma NextMaskIs(m: nat)
    requires m < UINT_RANGE
    ensures m % UINT_RANGE == m && (m < UINT_RANGE - 1 ==> (m + 1) % UINT_RANGE == m + 1)
  {
  }

  /** A mask the loop does not get past: the end value, or one that fills the cap. */
  lemma LastMask<T>(compat: seq<T> -> bool, cap: nat, cs: seq<T>) returns (stop: nat)
    requires Ends(compat, cap, cs)
    ensures stop < UINT_RANGE && stop <= Pow2(|cs|)
    ensures stop == Pow2(|cs|) || Pop(BestBelow(compat, cap, cs, stop + 1)) == cap
  {
    Pow2Of32();
    if |cs| <= 31 {
      Pow2Mono(|cs|, 31);
      stop := Pow2(|cs|);
    } else {
      Pow2Mono(32, |cs|);
      if cap == 0 {
        stop := 0;
      } else {
        stop :| stop < UINT_RANGE && Fits(compat, cap, cs, stop) && Pop(stop) == cap;
      }
      FullBelow(compat, cap, cs, stop + 1);
    }
  }

  /** The loop over all masks, with its early stop: wherever it ends, it has found the best mask. */
  method FindMax<T>(compat: seq<T> -> bool, cap: nat, counters: seq<T>) returns (maxCombination: nat)
    requires Ends(compat, cap, counters)
    ensures maxCombination == Best(compat, cap, counters)
  {
    var bitmask, maxValue := 0, Pow2(|counters|);
    maxCombination := 0;
    ghost var stop := LastMask(compat, cap, counters);
    while bitmask != maxValue
      invariant bitmask <= stop && maxCombination == BestBelow(compat, cap, counters, bitmask)
      decreases maxValue - bitmask
    {
      NextMaskIs(bitmask);
      var bitvalue := bitmask % UINT_RANGE;
      if Pop(bitmask) <= cap {
        if compat(Selected(counters, bitmask)) {
          if Pop(bitmask) > Pop(maxCombination) {
            maxCombination := bitmask;
          }
        }
      }
      assert maxCombination == BestBelow(compat, cap, counters, bitmask + 1);
      if Pop(maxCombination) == cap {
        FullIsFinal(compat, cap, counters, bitmask + 1, maxValue);
        break;
      }
      bitmask := (bitvalue + 1) % UINT_RANGE;
    }
  }

  /** One call: the group printed next to the omnipresent counters, and the counters left. */
  method CheckMaxEventSet<T(!new)>(compat: seq<T> -> bool, omni: nat, counters: seq<T>)
    returns (printed: bool, group: seq<T>, rest: seq<T>)
    requires |counters| < 63 && Ends(compat, Cap(omni), counters)
    ensures var m := Best(compat, Cap(omni), counters);
      && group == Selected(counters, m) && rest == Unselected(counters, m)
      && (printed <==> m != 0 || counters == [])
    ensures omni <= 8 ==> Largest(compat, omni, counters, group)
  {
    if omni <= 8 {
      BestIsLargest(compat, omni, counters);
    }
    var maxCombination := FindMax(compat, Cap(omni), counters);
    BestBelowIsBest(compat, Cap(omni), counters, Pow2(|counters|));
    PopZero(maxCombination);
    UnselectNone(counters);
    printed := Pop(maxCombination) > 0 || |counters| == 0;
    group := Selected(counters, maxCombination);
    rest := counters;
    if Pop(maxCombination) > 0 {
      rest := EraseSelected(counters, maxCombination);
    }
  }

  /** The loop that erases the selected counters, from the last bit down. */
  method EraseSelected<T>(counters: seq<T>, max: nat) returns (rest: seq<T>)
    requires |counters| < MAXBITSET && max < Pow2(|counters|)
    ensures rest == Unselected(counters, max)
  {
    rest := counters;
    var i := MAXBITSET - 1;
    assert ErasedFrom(counters, max, MAXBITSET) == counters + [];
    while true
      invariant 0 <= i < MAXBITSET && rest == ErasedFrom(counters, max, i + 1)
      decreases i
    {
      EraseOne(counters, max, i);
      if Test(max, i) {
        rest := rest[..i] + rest[i + 1..];
      }
      if i > 0 {
        i := i - 1;
      } else {
        break;
      }
    }
    assert counters[0..] == counters && counters[..0] == [];
  }

  // ---------------------------------------------------------------- the partition loop

  /** Groups printed until no mask fits any more, and the counters that are left then. */
  function Partition<T>(compat: seq<T> -> bool, cap: nat, cs: seq<T>): (r: (seq<seq<T>>, seq<T>))
    decreases |cs|
  {
    var m := Best(compat, cap, cs);
    BestShrinks(compat, cap, cs);
    if m == 0 then ([], cs)
    else
      var (groups, rest) := Partition(compat, cap, Unselected(cs, m));
      ([Selected(cs, m)] + groups, rest)
  }

  lemma BestShrinks<T>(compat: seq<T> -> bool, cap: nat, cs: seq<T>)
    ensures var m := Best(compat, cap, cs);
      m != 0 ==> |Unselected(cs, m)| < |cs| && |Selected(cs, m)| == Pop(m) > 0
  {
    var m := Best(compat, cap, cs);
    BestBelowIsBest(compat, cap, cs, Pow2(|cs|));
    if m != 0 {
      SelectedSize(cs, m);
      PopZero(m);
    }
  }

  function Flatten<T>(groups: seq<seq<T>>): seq<T> {
    if groups == [] then [] else groups[0] + Flatten(groups[1..])
  }

  /** Every counter ends up in exactly one place: one group, or the leftover. */
  lemma {:induction false} PartitionSharesOut<T>(compat: seq<T> -> bool, cap: nat, cs: seq<T>)
    ensures var (groups, rest) := Partition(compat, cap, cs);
      multiset(Flatten(groups)) + multiset(rest) == multiset(cs)
    decreases |cs|
  {
    var m := Best(compat, cap, cs);
    if m != 0 {
      BestShrinks(compat, cap, cs);
      PartitionSharesOut(compat, cap, Unselected(cs, m));
      SharesOut(cs, m);
    }
  }

  /** Every group fits and is not empty. */
  ghost predicate AllFit<T>(compat: seq<T> -> bool, cap: nat, groups: seq<seq<T>>) {
    forall k :: 0 <= k < |groups| ==> 0 < |groups[k]| <= cap && compat(groups[k])
  }

  /** No group is larger than `bound`, nor than the one before it. */
  ghost predicate NonIncreasing<T>(groups: seq<seq<T>>, bound: nat) {
    && (forall k :: 0 <= k < |groups| ==> |groups[k]| <= bound)
    && (forall j, k :: 0 <= j < k < |groups| ==> |groups[k]| <= |groups[j]|)
  }

  lemma Prepend<T>(compat: seq<T> -> bool, cap: nat, g: seq<T>, groups: seq<seq<T>>, bound: nat)
    requires AllFit(compat, cap, groups) && NonIncreasing(groups, bound)
    requires 0 < |g| <= cap && compat(g) && bound <= |g|
    ensures AllFit(compat, cap, [g] + groups) && NonIncreasing([g] + groups, |g|)
  {
  }

  /** Groups fit and are not empty, none is larger than the one before, and no non-empty
      compatible set within the cap is left. */
  lemma {:induction false} PartitionIsGreedy<T>(compat: seq<T> -> bool, cap: nat, cs: seq<T>)
    ensures var (groups, rest) := Partition(compat, cap, cs);
      && AllFit(compat, cap, groups)
      && NonIncreasing(groups, Pop(Best(compat, cap, cs)))
      && forall m :: 0 < m < Pow2(|rest|) ==> !Fits(compat, cap, rest, m)
    decreases |cs|
  {
    var m := Best(compat, cap, cs);
    BestBelowIsBest(compat, cap, cs, Pow2(|cs|));
    if m == 0 {
      forall x | 0 < x < Pow2(|cs|)
        ensures !Fits(compat, cap, cs, x)
      {
        PopZero(x);
        PopZero(0);
      }
    } else {
      BestShrinks(compat, cap, cs);
      var rest := Unselected(cs, m);
      PartitionIsGreedy(compat, cap, rest);
      BestNotGrowing(compat, cap, cs);
      Prepend(compat, cap, Selected(cs, m), Partition(compat, cap, rest).0, Pop(Best(compat, cap, rest)));
    }
  }

  lemma BestNotGrowing<T>(compat: seq<T> -> bool, cap: nat, cs: seq<T>)
    ensures var m := Best(compat, cap, cs);
      Pop(Best(compat, cap, Unselected(cs, m))) <= Pop(m)
  {
    var m := Best(compat, cap, cs);
    var rest := Unselected(cs, m);
    var m' := Best(compat, cap, rest);
    BestBelowIsBest(compat, cap, cs, Pow2(|cs|));
    BestBelowIsBest(compat, cap, rest, Pow2(|rest|));
    PopZero(m');
    if m' != 0 {
      LiftSelects(cs, m, m');
      assert Fits(compat, cap, cs, Lift(cs, m, m'));
    }
  }

  /** What is printed: without counters to share out, one set of the omnipresent ones alone. */
  function Printed<T>(compat: seq<T> -> bool, omni: nat, cs: seq<T>): seq<seq<T>> {
    if cs == [] then [[]] else Partition(compat, Cap(omni), cs).0
  }

  /** There is no group if and only if no non-empty set can be counted within the cap. */
  lemma NoGroup<T>(compat: seq<T> -> bool, cap: nat, cs: seq<T>)
    ensures Partition(compat, cap, cs).0 == [] <==> forall m :: 0 < m < Pow2(|cs|) ==> !Fits(compat, cap, cs, m)
  {
    var best := Best(compat, cap, cs);
    BestBelowIsBest(compat, cap, cs, Pow2(|cs|));
    if best == 0 {
      forall m | 0 < m < Pow2(|cs|)
        ensures !Fits(compat, cap, cs, m)
      {
        PopZero(m);
        PopZero(0);
      }
    } else {
      assert 0 < best < Pow2(|cs|) && Fits(compat, cap, cs, best);
    }
  }

  /** No set printed is larger than eight, if and only if at most eight counters are omnipresent or
      none of the others, of which there are some, can be counted at all: beyond eight the
      subtraction wraps and groups are not limited. */
  lemma CapKeepsLimit<T>(compat: seq<T> -> bool, omni: nat, cs: seq<T>)
    requires omni < SIZE_RANGE
    ensures var printed := Printed(compat, omni, cs);
      (forall k :: 0 <= k < |printed| ==> omni + |printed[k]| <= 8)
      <==> omni <= 8 || (cs != [] && forall m :: 0 < m < Pow2(|cs|) ==> !Fits(compat, Cap(omni), cs, m))
  {
    var printed := Printed(compat, omni, cs);
    NoGroup(compat, Cap(omni), cs);
    if omni <= 8 {
      PartitionIsGreedy(compat, Cap(omni), cs);
      CapIs(omni);
    } else if printed != [] {
      assert omni + |printed[0]| > 8;
    }
  }

  /** Up to eight with the omnipresent ones, and no compatible choice from cs that fits so is larger. */
  ghost predicate Largest<T(!new)>(compat: seq<T> -> bool, omni: nat, cs: seq<T>, group: seq<T>) {
    && Sublist(group, cs) && omni + |group| <= 8
    && forall s :: Sublist(s, cs) && compat(s) && omni + |s| <= 8 ==> |s| <= |group|
  }

  /** Nothing that is left can be counted, not even a single counter with the omnipresent ones. */
  ghost predicate NothingFits<T(!new)>(compat: seq<T> -> bool, omni: nat, rest: seq<T>) {
    forall s :: Sublist(s, rest) && s != [] && omni + |s| <= 8 ==> !compat(s)
  }

  /** As long as no more than eight counters are omnipresent, the search finds a largest set that
      keeps to eight counters in all. */
  lemma BestIsLargest<T(!new)>(compat: seq<T> -> bool, omni: nat, cs: seq<T>)
    requires omni <= 8
    ensures Largest(compat, omni, cs, Selected(cs, Best(compat, Cap(omni), cs)))
  {
    var best := Best(compat, Cap(omni), cs);
    CapIs(omni);
    BestBelowIsBest(compat, Cap(omni), cs, Pow2(|cs|));
    SelectedSize(cs, best);
    SelectedIsSublist(cs, best);
    forall s | Sublist(s, cs) && compat(s) && omni + |s| <= 8
      ensures |s| <= Pop(best)
    {
      NoLargerSublist(compat, Cap(omni), cs, s);
    }
  }

  lemma CapIs(omni: nat)
    requires omni <= 8
    ensures omni + Cap(omni) == 8
  {
  }

  lemma NoLargerSublist<T>(compat: seq<T> -> bool, cap: nat, cs: seq<T>, s: seq<T>)
    requires Sublist(s, cs) && compat(s) && |s| <= cap
    ensures |s| <= Pop(Best(compat, cap, cs))
  {
    BestBelowIsBest(compat, cap, cs, Pow2(|cs|));
    var m := SublistIsSelected(s, cs);
    assert Fits(compat, cap, cs, m);
  }

  /** The first group is a largest one of up to eight counters in all, so are the further ones of
      what is left by then, and in the end nothing that fits is left. */
  ghost predicate LargestInTurn<T(!new)>(compat: seq<T> -> bool, omni: nat, cs: seq<T>, groups: seq<seq<T>>,
                                         rest: seq<T>)
    decreases |groups|
  {
    if groups == [] then rest == cs && NothingFits(compat, omni, cs)
    else
      && Largest(compat, omni, cs, groups[0]) && groups[0] != [] && compat(groups[0])
      && exists m :: groups[0] == Selected(cs, m) && LargestInTurn(compat, omni, Unselected(cs, m), groups[1..], rest)
  }

  lemma {:induction false} PartitionIsLargest<T(!new)>(compat: seq<T> -> bool, omni: nat, cs: seq<T>)
    requires omni <= 8
    ensures var (groups, rest) := Partition(compat, Cap(omni), cs);
      LargestInTurn(compat, omni, cs, groups, rest) && NothingFits(compat, omni, rest)
    decreases |cs|
  {
    var m := Best(compat, Cap(omni), cs);
    BestIsLargest(compat, omni, cs);
    BestShrinks(compat, Cap(omni), cs);
    BestBelowIsBest(compat, Cap(omni), cs, Pow2(|cs|));
    UnselectNone(cs);
    if m != 0 {
      PartitionIsLargest(compat, omni, Unselected(cs, m));
      var (groups, rest) := Partition(compat, Cap(omni), Unselected(cs, m));
      assert ([Selected(cs, m)] + groups)[1..] == groups;
    }
  }

  /** With nine omnipresent counters a tenth is printed beside them, if it can be counted. */
  lemma NineAndOne<T>(compat: seq<T> -> bool, c: T)
    requires compat([c])
    ensures Printed(compat, 9, [c]) == [[c]] && 9 + |[c]| > 8
  {
    var cs, cap := [c], Cap(9);
    assert cap > 1;
    assert Pow2(1) == 2 && Pow2(|cs|) == 2 && Pop(1) == 1 + Pop(0) && Pop(0) == 0;
    assert cs[1..] == [];
    assert Selected(cs, 1) == [c] && Unselected(cs, 1) == [];
    assert Selected(cs, 0) == [];
    assert BestBelow(compat, cap, cs, 0) == 0;
    assert BestBelow(compat, cap, cs, 1) == 0;
    assert Fits(compat, cap, cs, 1) && Pop(1) > Pop(BestBelow(compat, cap, cs, 1));
    assert BestBelow(compat, cap, cs, 2) == 1;
    assert Best(compat, cap, cs) == 1;
    assert Best(compat, cap, []) == 0;
    assert Partition(compat, cap, Unselected(cs, 1)) == ([], []);
    assert Partition(compat, cap, cs).0 == [Selected(cs, 1)] + [];
    assert [[c]] + [] == [[c]];
  }

  /** Every search on the way ends. */
  ghost predicate PartitionEnds<T>(compat: seq<T> -> bool, cap: nat, cs: seq<T>)
    decreases |cs|
  {
    var m := Best(compat, cap, cs);
    BestShrinks(compat, cap, cs);
    Ends(compat, cap, cs) && (m != 0 ==> PartitionEnds(compat, cap, Unselected(cs, m)))
  }

  lemma {:induction false} FewCountersEnd<T>(compat: seq<T> -> bool, cap: nat, cs: seq<T>)
    requires |cs| <= 31
    ensures PartitionEnds(compat, cap, cs)
    decreases |cs|
  {
    BestShrinks(compat, cap, cs);
    if Best(compat, cap, cs) != 0 {
      FewCountersEnd(compat, cap, Unselected(cs, Best(compat, cap, cs)));
    }
  }

  /** The loop of `main`. */
  method PartitionCounters<T(!new)>(compat: seq<T> -> bool, omni: nat, counters: seq<T>)
    returns (groups: seq<seq<T>>, leftover: seq<T>)
    requires |counters| < 63 && PartitionEnds(compat, Cap(omni), counters)
    ensures leftover == Partition(compat, Cap(omni), counters).1
    ensures groups == Printed(compat, omni, counters)
    ensures omni <= 8 && counters != [] ==> LargestInTurn(compat, omni, counters, groups, leftover)
  {
    var cap := Cap(omni);
    groups, leftover := [], counters;
    var prevncounters := |counters|;
    while true
      invariant prevncounters == |leftover| <= |counters| && PartitionEnds(compat, cap, leftover)
      invariant leftover == [] ==> counters == [] && groups == []
      invariant Partition(compat, cap, counters).0 == groups + Partition(compat, cap, leftover).0
      invariant Partition(compat, cap, counters).1 == Partition(compat, cap, leftover).1
      decreases |leftover|
    {
      BestShrinks(compat, cap, leftover);
      UnselectNone(leftover);
      BestBelowIsBest(compat, cap, [], 1);
      var printed, group, rest := CheckMaxEventSet(compat, omni, leftover);
      if printed {
        groups := groups + [group];
      }
      leftover := rest;
      var ncounters := |leftover|;
      if prevncounters == ncounters && prevncounters > 0 {
        break;
      } else {
        prevncounters := ncounters;
      }
      if |leftover| == 0 {
        break;
      }
    }
    if omni <= 8 {
      PartitionIsLargest(compat, omni, counters);
    }
  }
}
