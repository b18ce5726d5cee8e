/** The exhaustive search of papi_best_set_old.c: a binary counter kept in an array of bits drives
    a loop that collects all largest compatible sets. */
module BitCounter {
  import opened Common
  import opened Masks

  ghost predicate Bits(b: seq<int>) {
    forall i :: 0 <= i < |b| ==> b[i] == 0 || b[i] == 1
  }

  /** The number an array of bits spells, lowest bit first. */
  function Value(b: seq<int>): (v: nat)
    requires Bits(b)
    ensures v < Pow2(|b|)
  {
    if b == [] then 0 else b[0] + 2 * Value(b[1..])
  }

  function AllOnes(n: nat): nat { Pow2(n) - 1 }

  lemma {:induction false} ValueAllOnes(b: seq<int>)
    requires Bits(b)
    ensures Value(b) == AllOnes(|b|) <==> forall i :: 0 <= i < |b| ==> b[i] == 1
  {
    if b != [] {
      ValueAllOnes(b[1..]);
      assert (forall i :: 0 <= i < |b| ==> b[i] == 1) <==> b[0] == 1 && forall i :: 0 <= i < |b[1..]| ==>
          b[1..][i] == 1;
    }
  }

  lemma {:induction false} ValueZero(b: seq<int>)
    requires forall i :: 0 <= i < |b| ==> b[i] == 0
    ensures Bits(b) && Value(b) == 0
  {
    if b != [] {
      ValueZero(b[1..]);
    }
  }

  /** Clearing a run of ones and setting the bit after it adds one. */
  lemma {:induction false} CarryAddsOne(b: seq<int>, b': seq<int>, i: nat)
    requires i < |b| == |b'| && Bits(b) && b[i] == 0 && b'[i] == 1
    requires forall k :: 0 <= k < i ==> b[k] == 1 && b'[k] == 0
    requires forall k :: i < k < |b| ==> b'[k] == b[k]
    ensures Bits(b') && Value(b') == Value(b) + 1
    decreases i
  {
    if i == 0 {
      assert b'[1..] == b[1..];
    } else {
      CarryAddsOne(b[1..], b'[1..], i - 1);
      assert forall k :: 0 <= k < |b'| ==> b'[k] == if k == 0 then 0 else b'[1..][k - 1];
    }
  }

  function Ones(b: seq<int>): (n: nat)
    ensures n <= |b|
  {
    if b == [] then 0 else Ones(b[..|b| - 1]) + if b[|b| - 1] != 0 then 1 else 0
  }

  lemma {:induction false} OnesSnoc(x: int, b: seq<int>)
    ensures Ones([x] + b) == (if x != 0 then 1 else 0) + Ones(b)
    decreases |b|
  {
    if b == [] {
      assert [x] + b == [x] && [x][..0] == [];
    } else {
      OnesSnoc(x, b[..|b| - 1]);
      assert ([x] + b)[..|b|] == [x] + b[..|b| - 1];
    }
  }

  lemma {:induction false} OnesIsPop(b: seq<int>)
    requires Bits(b)
    ensures Ones(b) == Pop(Value(b))
    decreases |b|
  {
    if b != [] {
      OnesIsPop(b[1..]);
      OnesSnoc(b[0], b[1..]);
      assert b == [b[0]] + b[1..];
      Unhalf(b[0], Value(b[1..]));
    }
  }

  /** The entries of cs whose bit is set, in order. */
  function Chosen<T>(cs: seq<T>, b: seq<int>): seq<T>
    requires |cs| == |b|
    decreases |cs|
  {
    if cs == [] then [] else (if b[0] != 0 then [cs[0]] else []) + Chosen(cs[1..], b[1..])
  }

  lemma {:induction false} ChosenIsSelected<T>(cs: seq<T>, b: seq<int>)
    requires |cs| == |b| && Bits(b)
    ensures Chosen(cs, b) == Selected(cs, Value(b))
    decreases |cs|
  {
    if cs != [] {
      ChosenIsSelected(cs[1..], b[1..]);
      Unhalf(b[0], Value(b[1..]));
    }
  }

  // ---------------------------------------------------------------- the operations on bit arrays

  method CreateBitmask(numberofbits: nat) returns (result: array<int>)
    ensures fresh(result) && result.Length == numberofbits && forall i :: 0 <= i < numberofbits ==> result[i] == 0
  {
    result := new int[numberofbits];
    for i := 0 to numberofbits
      invariant forall k :: 0 <= k < i ==> result[k] == 0
    {
      result[i] := 0;
    }
  }

  /** The source tests a bit before the bound, so it may be called only while some bit is 0;
      then it never leaves the array. */
  method NextValue(bitmask: array<int>)
    requires Bits(bitmask[..]) && Value(bitmask[..]) != AllOnes(bitmask.Length)
    modifies bitmask
    ensures Bits(bitmask[..]) && Value(bitmask[..]) == old(Value(bitmask[..])) + 1
  {
    ghost var b := bitmask[..];
    ValueAllOnes(b);
    var i := 0;
    while bitmask[i] == 1 && i < bitmask.Length
      invariant 0 <= i < bitmask.Length
      invariant exists k :: i <= k < |b| && b[k] == 0
      invariant forall k :: 0 <= k < i ==> bitmask[k] == 0 && b[k] == 1
      invariant forall k :: i <= k < |b| ==> bitmask[k] == b[k]
      decreases bitmask.Length - i
    {
      bitmask[i] := 0;
      i := i + 1;
    }
    if i < bitmask.Length {
      bitmask[i] := 1;
    }
    CarryAddsOne(b, bitmask[..], i);
  }

  method CountActiveBits(bitmask: array<int>) returns (active: nat)
    requires Bits(bitmask[..])
    ensures active == Pop(Value(bitmask[..]))
  {
    active := 0;
    for i := 0 to bitmask.Length
      invariant active == Ones(bitmask[..i])
    {
      assert bitmask[..i + 1][..i] == bitmask[..i];
      if bitmask[i] != 0 {
        active := active + 1;
      }
    }
    assert bitmask[..bitmask.Length] == bitmask[..];
    OnesIsPop(bitmask[..]);
  }

  method IsLastValue(bitmask: array<int>) returns (isLast: bool)
    requires Bits(bitmask[..])
    ensures isLast <==> Value(bitmask[..]) == AllOnes(bitmask.Length)
  {
    isLast := true;
    for i := 0 to bitmask.Length
      invariant isLast <==> forall k :: 0 <= k < i ==> bitmask[k] == 1
    {
      isLast := isLast && bitmask[i] != 0;
    }
    ValueAllOnes(bitmask[..]);
  }

  // ---------------------------------------------------------------- all largest compatible sets

  /** A mask that fits is kept beside those of its size, starts afresh if it is larger, or is dropped. */
  function NextKept(fits: bool, kept: seq<nat>, k: nat): seq<nat> {
    if !fits then kept
    else if kept == [] || Pop(k) > Pop(kept[0]) then [k]
    else if Pop(k) == Pop(kept[0]) then kept + [k]
    else kept
  }

  /** The masks the search keeps once it has seen 1, ..., k. */
  function Kept<T>(compat: seq<T> -> bool, cs: seq<T>, k: nat): seq<nat> {
    if k == 0 then []
    else
      NextKept(compat(Selected(cs, k)), Kept(compat, cs, k - 1), k)
  }

  ghost predicate Largest<T>(compat: seq<T> -> bool, cs: seq<T>, k: nat, m: nat) {
    0 < m <= k && compat(Selected(cs, m)) && Bounds(compat, cs, k, Pop(m))
  }

  /** What is kept is exactly the compatible masks of maximum size, in increasing order. */
  lemma {:induction false} KeptIsLargest<T>(compat: seq<T> -> bool, cs: seq<T>, k: nat)
    ensures var kept := Kept(compat, cs, k);
      && (forall i, j :: 0 <= i < j < |kept| ==> kept[i] < kept[j])
      && (forall m: nat :: m in kept <==> Largest(compat, cs, k, m))
    ensures Kept(compat, cs, k) == [] ==> forall m :: 0 < m <= k ==> !compat(Selected(cs, m))
  {
    if k > 0 {
      KeptIsLargest(compat, cs, k - 1);
      var before, kept := Kept(compat, cs, k - 1), Kept(compat, cs, k);
      forall i | 0 <= i < |before|
        ensures before[i] < k
      {
        assert before[i] in before && Largest(compat, cs, k - 1, before[i]);
      }
      forall m: nat
        ensures m in kept <==> Largest(compat, cs, k, m)
      {
        KeptStep(compat, cs, k - 1, before, m);
      }
    }
  }

  /** No compatible mask up to k has more than `size` bits. */
  ghost predicate Bounds<T>(compat: seq<T> -> bool, cs: seq<T>, k: nat, size: nat) {
    forall m :: 0 < m <= k && compat(Selected(cs, m)) ==> Pop(m) <= size
  }

  lemma BoundsStep<T>(compat: seq<T> -> bool, cs: seq<T>, k: nat, size: nat)
    ensures Bounds(compat, cs, k + 1, size)
      <==> Bounds(compat, cs, k, size) && (compat(Selected(cs, k + 1)) ==> Pop(k + 1) <= size)
  {
    if Bounds(compat, cs, k + 1, size) {
      assert 0 < k + 1 <= k + 1 && (compat(Selected(cs, k + 1)) ==> Pop(k + 1) <= size);
    }
  }

  lemma BoundsMono<T>(compat: seq<T> -> bool, cs: seq<T>, k: nat, a: nat, b: nat)
    requires Bounds(compat, cs, k, a) && a <= b
    ensures Bounds(compat, cs, k, b)
  {
  }

  lemma KeptStep<T>(compat: seq<T> -> bool, cs: seq<T>, k: nat, before: seq<nat>, m: nat)
    requires before == Kept(compat, cs, k) && forall m: nat :: m in before <==> Largest(compat, cs, k, m)
    requires before == [] ==> Bounds(compat, cs, k, 0)
    requires before == [] ==> forall m :: 0 < m <= k ==> !compat(Selected(cs, m))
    ensures m in Kept(compat, cs, k + 1) <==> Largest(compat, cs, k + 1, m)
  {
    BoundsStep(compat, cs, k, Pop(m));
    if before == [] {
      BoundsMono(compat, cs, k, 0, Pop(m));
    } else {
      assert before[0] in before;
      var top := Pop(before[0]);
      assert Largest(compat, cs, k, before[0]);
      if top <= Pop(m) {
        BoundsMono(compat, cs, k, top, Pop(m));
      } else {
        assert !Bounds(compat, cs, k, Pop(m));
      }
      InConcat(m, before, [k + 1]);
    }
  }

  /** In the end, what is printed is exactly the largest of all compatible choices of counters. */
  lemma LargestChoices<T(!new)>(compat: seq<T> -> bool, cs: seq<T>, s: seq<T>)
    requires s != []
    ensures var kept := Kept(compat, cs, AllOnes(|cs|));
      (exists m :: m in kept && Selected(cs, m) == s)
      <==> Sublist(s, cs) && compat(s) && forall s' :: Sublist(s', cs) && compat(s') ==> |s'| <= |s|
  {
    var kept := Kept(compat, cs, AllOnes(|cs|));
    KeptIsLargest(compat, cs, AllOnes(|cs|));
    if m :| m in kept && Selected(cs, m) == s {
      KeptChoice(compat, cs, m);
    }
    if Sublist(s, cs) && compat(s) && forall s' :: Sublist(s', cs) && compat(s') ==> |s'| <= |s| {
      var m := SublistIsSelected(s, cs);
      assert m != 0 by { assert Pop(0) == 0; }
      forall m' | 0 < m' <= AllOnes(|cs|) && compat(Selected(cs, m'))
        ensures Pop(m') <= Pop(m)
      {
        SelectedIsSublist(cs, m');
        SelectedSize(cs, m');
      }
      assert Largest(compat, cs, AllOnes(|cs|), m);
    }
  }

  lemma KeptChoice<T(!new)>(compat: seq<T> -> bool, cs: seq<T>, m: nat)
    requires Largest(compat, cs, AllOnes(|cs|), m)
    ensures var s := Selected(cs, m);
      Sublist(s, cs) && compat(s) && forall s' :: Sublist(s', cs) && compat(s') ==> |s'| <= |s|
  {
    SelectedIsSublist(cs, m);
    SelectedSize(cs, m);
    forall s' | Sublist(s', cs) && compat(s')
      ensures |s'| <= Pop(m)
    {
      var m' := SublistIsSelected(s', cs);
      if m' == 0 {
        assert Pop(0) == 0;
      }
    }
  }

  ghost predicate Spells(masks: seq<seq<int>>, values: seq<nat>, n: nat) {
    |masks| == |values| && forall i :: 0 <= i < |masks| ==>
        |masks[i]| == n && Bits(masks[i]) && Value(masks[i]) == values[i]
  }

  /** The counters are asked for one by one, skipping the rest once one is refused. */
  function CheckBitmap<T>(compat: seq<T> -> bool, counters: seq<T>, bitmask: seq<int>): bool
    requires |counters| == |bitmask|
  {
    compat(Chosen(counters, bitmask))
  }

  /** The loop body once the next mask is made: keep it, start afresh with it, or drop it. */
  method Keep<T>(compat: seq<T> -> bool, counters: seq<T>, bitmask: array<int>, maxs: seq<seq<int>>)
    returns (maxs': seq<seq<int>>)
    requires bitmask.Length == |counters| && Bits(bitmask[..]) && Value(bitmask[..]) > 0
    requires Spells(maxs, Kept(compat, counters, Value(bitmask[..]) - 1), |counters|)
    ensures Spells(maxs', Kept(compat, counters, Value(bitmask[..])), |counters|)
  {
    maxs' := maxs;
    OnesIsPop(bitmask[..]);
    KeptMasks(compat, counters, maxs, bitmask[..]);
    if CheckBitmap(compat, counters, bitmask[..]) {
      if |maxs| > 0 {
        var active := CountActiveBits(bitmask);
        if active > Ones(maxs[0]) {
          maxs' := [bitmask[..]];
        } else if active == Ones(maxs[0]) {
          maxs' := maxs + [bitmask[..]];
        }
      } else {
        maxs' := [bitmask[..]];
      }
    }
  }

  /** The same told from the bits. */
  function NextMasks(fits: bool, maxs: seq<seq<int>>, b: seq<int>): seq<seq<int>> {
    if !fits then maxs
    else if maxs == [] || Ones(b) > Ones(maxs[0]) then [b]
    else if Ones(b) == Ones(maxs[0]) then maxs + [b]
    else maxs
  }

  lemma SpellsNext(fits: bool, maxs: seq<seq<int>>, kept: seq<nat>, b: seq<int>)
    requires Spells(maxs, kept, |b|) && Bits(b)
    ensures Spells(NextMasks(fits, maxs, b), NextKept(fits, kept, Value(b)), |b|)
  {
    OnesIsPop(b);
    if maxs == [] {
      assert NextMasks(fits, maxs, b) == if fits then [b] else [];
    } else {
      OnesIsPop(maxs[0]);
      assert Ones(maxs[0]) == Pop(kept[0]) && Ones(b) == Pop(Value(b));
      if fits && Ones(b) == Ones(maxs[0]) {
        SpellsSnoc(maxs, kept, b);
      }
    }
  }

  lemma SpellsSnoc(masks: seq<seq<int>>, values: seq<nat>, b: seq<int>)
    requires Spells(masks, values, |b|) && Bits(b)
    ensures Spells(masks + [b], values + [Value(b)], |b|)
  {
    var masks', values' := masks + [b], values + [Value(b)];
    forall i | 0 <= i < |masks'|
      ensures |masks'[i]| == |b| && Bits(masks'[i]) && Value(masks'[i]) == values'[i]
    {
      assert masks'[i] == if i < |masks| then masks[i] else b;
      assert values'[i] == if i < |masks| then values[i] else Value(b);
    }
  }

  lemma KeptMasks<T>(compat: seq<T> -> bool, cs: seq<T>, maxs: seq<seq<int>>, b: seq<int>)
    requires |b| == |cs| && Bits(b) && Value(b) > 0 && Spells(maxs, Kept(compat, cs, Value(b) - 1), |cs|)
    ensures Spells(NextMasks(compat(Chosen(cs, b)), maxs, b), Kept(compat, cs, Value(b)), |cs|)
  {
    ChosenIsSelected(cs, b);
    SpellsNext(compat(Chosen(cs, b)), maxs, Kept(compat, cs, Value(b) - 1), b);
  }

  method CheckMaxEventSet<T>(compat: seq<T> -> bool, counters: seq<T>)
    returns (maxs: seq<seq<int>>, ghost visited: seq<nat>)
    requires |counters| > 0
    ensures Spells(maxs, Kept(compat, counters, AllOnes(|counters|)), |counters|)
    ensures |visited| == AllOnes(|counters|) && forall k :: 0 <= k < |visited| ==> visited[k] == k + 1
  {
    var n := |counters|;
    var bitmask := CreateBitmask(n);
    ValueZero(bitmask[..]);
    maxs, visited := [], [];
    var isLast := false;
    while !isLast
      invariant bitmask.Length == n && fresh(bitmask) && Bits(bitmask[..])
      invariant |visited| == Value(bitmask[..]) <= AllOnes(n)
      invariant isLast <==> Value(bitmask[..]) == AllOnes(n)
      invariant forall k :: 0 <= k < |visited| ==> visited[k] == k + 1
      invariant Spells(maxs, Kept(compat, counters, Value(bitmask[..])), n)
      decreases AllOnes(n) - Value(bitmask[..])
    {
      NextValue(bitmask);
      visited := visited + [Value(bitmask[..])];
      maxs := Keep(compat, counters, bitmask, maxs);
      isLast := IsLastValue(bitmask);
    }
  }
}
