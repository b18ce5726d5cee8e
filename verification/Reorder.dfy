/** Runs of steps over a list of work items, and when two orders of the items give the same run. */
module Reorder {
  import opened Common

  function Run<S, C>(step: (S, C) -> S, st: S, cs: seq<C>): S
    decreases |cs|
  {
    if cs == [] then st else step(Run(step, st, cs[..|cs| - 1]), cs[|cs| - 1])
  }

  ghost predicate Commute<S(!new), C>(step: (S, C) -> S, a: C, b: C) {
    forall st :: step(step(st, a), b) == step(step(st, b), a)
  }

  lemma RunSnoc<S, C>(step: (S, C) -> S, st: S, cs: seq<C>, c: C)
    ensures Run(step, st, cs + [c]) == step(Run(step, st, cs), c)
  {
    assert (cs + [c])[..|cs|] == cs;
  }

  lemma {:induction false} RunConcat<S, C>(step: (S, C) -> S, st: S, a: seq<C>, b: seq<C>)
    ensures Run(step, st, a + b) == Run(step, Run(step, st, a), b)
    decreases |b|
  {
    if b == [] {
      assert a + b == a;
    } else {
      var n := |b| - 1;
      assert (a + b)[..|a + b| - 1] == a + b[..n];
      RunConcat(step, st, a, b[..n]);
    }
  }

  /** An item that commutes with every item of a list can be done before or after the list. */
  lemma {:induction false} RunPast<S(!new), C>(step: (S, C) -> S, st: S, c: C, cs: seq<C>)
    requires forall k :: 0 <= k < |cs| ==> Commute(step, c, cs[k])
    ensures Run(step, step(st, c), cs) == step(Run(step, st, cs), c)
    decreases |cs|
  {
    if cs != [] {
      var n := |cs| - 1;
      RunPast(step, st, c, cs[..n]);
      assert Commute(step, c, cs[n]);
    }
  }

  /** Two lists whose items all commute can be exchanged. */
  lemma {:induction false} RunSwap<S(!new), C>(step: (S, C) -> S, st: S, a: seq<C>, b: seq<C>)
    requires forall x, y :: x in a && y in b ==> Commute(step, x, y)
    ensures Run(step, Run(step, st, a), b) == Run(step, Run(step, st, b), a)
    decreases |a|
  {
    if a != [] {
      var n := |a| - 1;
      RunPast(step, Run(step, st, a[..n]), a[n], b);
      RunSwap(step, st, a[..n], b);
    }
  }

  /** Items the two orders do in opposite order commute. */
  ghost predicate Agree<S(!new), C>(step: (S, C) -> S, s: seq<C>, t: seq<C>) {
    forall a, b, c, d :: 0 <= a < b < |s| && 0 <= c < d < |t| && s[a] == t[d] && s[b] == t[c]
      ==> Commute(step, s[a], s[b])
  }

  lemma FirstItem<C>(t: seq<C>)
    requires t != []
    ensures t[0] in t
  {
  }

  lemma NoItems<C(!new)>(t: seq<C>)
    requires forall c :: c !in t
    ensures t == []
  {
    if t != [] {
      FirstItem(t);
      assert false;
    }
  }

  /** An item that commutes with everything after it can be done last. */
  lemma PullOut<S(!new), C>(step: (S, C) -> S, st: S, t: seq<C>, p: nat)
    requires p < |t| && forall k :: p < k < |t| ==> Commute(step, t[p], t[k])
    ensures Run(step, st, t) == step(Run(step, st, t[..p] + t[p + 1..]), t[p])
  {
    var before, after := t[..p], t[p + 1..];
    assert t == (before + [t[p]]) + after;
    RunConcat(step, st, before + [t[p]], after);
    RunSnoc(step, st, before, t[p]);
    RunPast(step, Run(step, st, before), t[p], after);
    RunConcat(step, st, before, after);
  }

  /** The order of the items only matters for pairs that do not commute. */
  lemma {:induction false} SameRun<S(!new), C(!new)>(step: (S, C) -> S, st: S, s: seq<C>, t: seq<C>)
    requires NoDup(s) && NoDup(t) && (forall c :: c in s <==> c in t) && Agree(step, s, t)
    ensures Run(step, st, s) == Run(step, st, t)
    decreases |s|
  {
    if s == [] {
      NoItems(t);
    } else {
      var n := |s| - 1;
      assert s[n] in t;
      var p :| 0 <= p < |t| && t[p] == s[n];
      forall k | p < k < |t|
        ensures Commute(step, t[p], t[k])
      {
        LaterCommutes(step, s, t, p, k);
      }
      PullOut(step, st, t, p);
      RestAgrees(step, s, t, p);
      SameRun(step, st, s[..n], t[..p] + t[p + 1..]);
    }
  }

  lemma LaterCommutes<S(!new), C>(step: (S, C) -> S, s: seq<C>, t: seq<C>, p: nat, k: nat)
    requires s != [] && p < k < |t| && t[p] == s[|s| - 1]
    requires NoDup(t) && t[k] in s && Agree(step, s, t)
    ensures Commute(step, t[p], t[k])
  {
    var n := |s| - 1;
    var a :| 0 <= a < |s| && s[a] == t[k];
    assert a != n;
    assert s[a] == t[k] && s[n] == t[p];
    assert Commute(step, s[a], s[n]);
  }

  lemma RestAgrees<S(!new), C(!new)>(step: (S, C) -> S, s: seq<C>, t: seq<C>, p: nat)
    requires s != [] && p < |t| && t[p] == s[|s| - 1]
    requires NoDup(s) && NoDup(t) && (forall c :: c in s <==> c in t) && Agree(step, s, t)
    ensures var s' := s[..|s| - 1];
      var t' := t[..p] + t[p + 1..];
      NoDup(s') && NoDup(t') && (forall c :: c in s' <==> c in t') && Agree(step, s', t')
  {
    var s' := s[..|s| - 1];
    var t' := t[..p] + t[p + 1..];
    assert forall k :: 0 <= k < |t'| ==> t'[k] == t[if k < p then k else k + 1];
    forall c | c in s'
      ensures c in t'
    {
      var a :| 0 <= a < |s'| && s'[a] == c;
      assert s[a] in t && s[a] != s[|s| - 1];
      var k :| 0 <= k < |t| && t[k] == c;
      assert t'[if k < p then k else k - 1] == c;
    }
    forall c | c in t'
      ensures c in s'
    {
      var k :| 0 <= k < |t'| && t'[k] == c;
      assert c in s && c != t[p];
    }
    forall a, b, c, d | 0 <= a < b < |s'| && 0 <= c < d < |t'| && s'[a] == t'[d] && s'[b] == t'[c]
      ensures Commute(step, s'[a], s'[b])
    {
      var c', d' := if c < p then c else c + 1, if d < p then d else d + 1;
      assert s[a] == t[d'] && s[b] == t[c'];
    }
  }

  /** If all items commute, any order will do. */
  lemma AnyOrder<S(!new), C(!new)>(step: (S, C) -> S, st: S, s: seq<C>, t: seq<C>)
    requires NoDup(s) && NoDup(t) && (forall c :: c in s <==> c in t)
    requires forall a, b :: a in s && b in s && a != b ==> Commute(step, a, b)
    ensures Run(step, st, s) == Run(step, st, t)
  {
    assert forall a, b :: 0 <= a < b < |s| ==> s[a] in s && s[b] in s && s[a] != s[b];
    SameRun(step, st, s, t);
  }
}
