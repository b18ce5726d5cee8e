/** Sets of counters as bit masks: bit i of a mask selects entry i of a list. */
module Masks {
  function Pow2(n: nat): (r: nat)
    ensures r > 0
  {
    if n == 0 then 1 else 2 * Pow2(n - 1)
  }

  /** Number of bits set. */
  function Pop(m: nat): nat {
    if m == 0 then 0 else m % 2 + Pop(m / 2)
  }

  function Selected<T>(cs: seq<T>, m: nat): seq<T>
    decreases |cs|
  {
    if cs == [] then [] else (if m % 2 == 1 then [cs[0]] else []) + Selected(cs[1..], m / 2)
  }

  function Unselected<T>(cs: seq<T>, m: nat): seq<T>
    decreases |cs|
  {
    if cs == [] then [] else (if m % 2 == 1 then [] else [cs[0]]) + Unselected(cs[1..], m / 2)
  }

  lemma {:induction false} SelectedSize<T>(cs: seq<T>, m: nat)
    requires m < Pow2(|cs|)
    ensures |Selected(cs, m)| == Pop(m) && |Unselected(cs, m)| == |cs| - Pop(m)
    decreases |cs|
  {
    if cs != [] {
      SelectedSize(cs[1..], m / 2);
    }
  }

  /** Selecting and removing share out the list. */
  lemma {:induction false} SharesOut<T>(cs: seq<T>, m: nat)
    ensures multiset(Selected(cs, m)) + multiset(Unselected(cs, m)) == multiset(cs)
    decreases |cs|
  {
    if cs != [] {
      SharesOut(cs[1..], m / 2);
      assert cs == [cs[0]] + cs[1..];
    }
  }

  lemma {:induction false} UnselectNone<T>(cs: seq<T>)
    ensures Unselected(cs, 0) == cs && Selected(cs, 0) == []
    decreases |cs|
  {
    if cs != [] {
      UnselectNone(cs[1..]);
    }
  }

  /** The mask over cs that selects what m' selects from the entries m leaves. */
  function Lift<T>(cs: seq<T>, m: nat, m': nat): nat
    decreases |cs|
  {
    if cs == [] then 0
    else if m % 2 == 1 then 2 * Lift(cs[1..], m / 2, m')
    else m' % 2 + 2 * Lift(cs[1..], m / 2, m' / 2)
  }

  lemma Unhalf(bit: nat, half: nat)
    requires bit <= 1
    ensures (bit + 2 * half) % 2 == bit && (bit + 2 * half) / 2 == half
  {
  }

  lemma {:induction false} LiftSelects<T>(cs: seq<T>, m: nat, m': nat)
    requires m' < Pow2(|Unselected(cs, m)|)
    ensures Lift(cs, m, m') < Pow2(|cs|)
    ensures Selected(cs, Lift(cs, m, m')) == Selected(Unselected(cs, m), m')
    ensures Pop(Lift(cs, m, m')) == Pop(m')
    decreases |cs|
  {
    if cs != [] {
      if m % 2 == 1 {
        LiftSelects(cs[1..], m / 2, m');
        assert Unselected(cs, m) == Unselected(cs[1..], m / 2);
        Unhalf(0, Lift(cs[1..], m / 2, m'));
      } else {
        assert Unselected(cs, m)[1..] == Unselected(cs[1..], m / 2);
        LiftSelects(cs[1..], m / 2, m' / 2);
        Unhalf(m' % 2, Lift(cs[1..], m / 2, m' / 2));
      }
    }
  }

  lemma {:induction false} PopZero(m: nat)
    ensures Pop(m) == 0 <==> m == 0
  {
    if m != 0 {
      PopZero(m / 2);
    }
  }

  // ---------------------------------------------------------------- masks and sublists

  /** s results from cs by leaving out entries. */
  ghost predicate Sublist<T>(s: seq<T>, cs: seq<T>)
    decreases |cs|
  {
    if cs == [] then s == []
    else (s != [] && s[0] == cs[0] && Sublist(s[1..], cs[1..])) || Sublist(s, cs[1..])
  }

  /** What a mask selects is a sublist. */
  lemma {:induction false} SelectedIsSublist<T>(cs: seq<T>, m: nat)
    ensures Sublist(Selected(cs, m), cs)
    decreases |cs|
  {
    if cs != [] {
      SelectedIsSublist(cs[1..], m / 2);
      if m % 2 == 1 {
        assert Selected(cs, m)[1..] == Selected(cs[1..], m / 2);
      } else {
        assert Selected(cs, m) == Selected(cs[1..], m / 2);
      }
    }
  }

  /** So is what it leaves. */
  lemma {:induction false} UnselectedIsSublist<T>(cs: seq<T>, m: nat)
    ensures Sublist(Unselected(cs, m), cs)
    decreases |cs|
  {
    if cs != [] {
      UnselectedIsSublist(cs[1..], m / 2);
      if m % 2 == 1 {
        assert Unselected(cs, m) == Unselected(cs[1..], m / 2);
      } else {
        assert Unselected(cs, m)[1..] == Unselected(cs[1..], m / 2);
      }
    }
  }

  /** Every sublist is what some mask selects, with one bit for every entry. */
  lemma {:induction false} SublistIsSelected<T>(s: seq<T>, cs: seq<T>) returns (m: nat)
    requires Sublist(s, cs)
    ensures m < Pow2(|cs|) && Selected(cs, m) == s && Pop(m) == |s|
    decreases |cs|
  {
    if cs == [] {
      m := 0;
    } else if s != [] && s[0] == cs[0] && Sublist(s[1..], cs[1..]) {
      var rest := SublistIsSelected(s[1..], cs[1..]);
      m := 1 + 2 * rest;
      Unhalf(1, rest);
      assert [cs[0]] + s[1..] == s;
    } else {
      var rest := SublistIsSelected(s, cs[1..]);
      m := 0 + 2 * rest;
      Unhalf(0, rest);
      assert [] + s == s;
    }
  }
}
