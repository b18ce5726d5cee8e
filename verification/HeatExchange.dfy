/** The exchange of halo rows in heat-mpi-ompss.c: every process swaps a row with the process below
    it and then with the one above. A call blocks until the partner has started the matching one,
    but need not wait for it to complete. */
module HeatExchange {
  import opened Common
  import opened HeatRows

  function Count(i: int, q: nat, r: nat): int { q + if i < r then 1 else 0 }

  lemma NextFirst(i: int, q: nat, r: nat, np: nat)
    requires i >= 0
    ensures First(i + 1, q, r) == First(i, q, r) + Count(i, q, r)
    ensures (First(i + 1, q, r) - 1) * np == (First(i, q, r) - 1) * np + Count(i, q, r) * np
  {
    MulNext(i, q);
    assert (First(i, q, r) - 1 + Count(i, q, r)) * np == (First(i, q, r) - 1) * np + Count(i, q, r) * np;
  }

  /** A strip has all its rows: the halo rows, the own rows and the products that locate them. */
  ghost predicate StripSize(strip: seq<real>, i: int, q: nat, r: nat, np: nat) {
    var rows := Count(i, q, r);
    && np > 0 && |strip| == (rows + 2) * np == (rows + 1) * np + np
    && (rows + 1) * np == rows * np + np && 0 <= rows * np && (rows > 0 ==> np <= rows * np)
  }

  lemma SizeOfStrip(strip: seq<real>, i: int, q: nat, r: nat, np: nat)
    requires np > 0 && |strip| == (Count(i, q, r) + 2) * np
    ensures StripSize(strip, i, q, r, np)
  {
    var rows := Count(i, q, r);
    MulLe(0, rows, np);
    if rows > 0 {
      MulLe(1, rows, np);
    }
    MulNext(rows, np);
    MulNext(rows + 1, np);
  }

  ghost predicate StripsSized(strips: seq<seq<real>>, q: nat, r: nat, np: nat) {
    forall k {:trigger StripSize(strips[k], k, q, r, np)} :: 0 <= k < |strips| ==> StripSize(strips[k], k, q, r, np)
  }

  // ---------------------------------------------------------------- one pair of calls

  /** The row a process sends to the one below: its last own row. */
  ghost function SentDown(strip: seq<real>, i: int, q: nat, r: nat, np: nat): (row: seq<real>)
    requires StripSize(strip, i, q, r, np)
    ensures |row| == np
  {
    strip[Count(i, q, r) * np..(Count(i, q, r) + 1) * np]
  }

  /** The row it sends to the one above: the row after its upper halo. */
  ghost function SentUp(strip: seq<real>, i: int, q: nat, r: nat, np: nat): (row: seq<real>)
    requires StripSize(strip, i, q, r, np)
    ensures |row| == np
  {
    strip[np..np + np]
  }

  ghost function WithBottom(strip: seq<real>, row: seq<real>, i: int, q: nat, r: nat, np: nat): (s: seq<real>)
    requires StripSize(strip, i, q, r, np) && |row| == np
    ensures StripSize(s, i, q, r, np)
    ensures forall p :: 0 <= p < |s| ==>
      s[p] == if p < (Count(i, q, r) + 1) * np then strip[p] else row[p - (Count(i, q, r) + 1) * np]
  {
    strip[..(Count(i, q, r) + 1) * np] + row
  }

  ghost function WithTop(strip: seq<real>, row: seq<real>, i: int, q: nat, r: nat, np: nat): (s: seq<real>)
    requires StripSize(strip, i, q, r, np) && |row| == np
    ensures StripSize(s, i, q, r, np)
    ensures forall p :: 0 <= p < |s| ==> s[p] == if p < np then row[p] else strip[p]
  {
    row + strip[np..]
  }

  // ---------------------------------------------------------------- the protocol

  /** The strips, how far each process is, and the rows sent down and up so far. A process is at 0
      before its call with the one below, at 1 in it, at 2 before its call with the one above, at 3
      in it, and at 4 after it. */
  datatype Protocol = Protocol(strips: seq<seq<real>>, at: seq<nat>, down: seq<Option<seq<real>>>,
                               up: seq<Option<seq<real>>>)

  /** The last process has no call with one below, the first none with one above. */
  function Start(i: int, n: nat): nat { if i == n - 1 then 2 else 0 }

  function End(i: int): nat { if i == 0 then 2 else 4 }

  predicate AllFinished(p: Protocol) {
    forall i :: 0 <= i < |p.at| ==> p.at[i] == End(i)
  }

  ghost predicate Shaped(p: Protocol, q: nat, r: nat, np: nat) {
    && |p.strips| == |p.at| == |p.down| == |p.up| && StripsSized(p.strips, q, r, np)
    && (forall i :: 0 <= i < |p.down| && p.down[i].Some? ==> |p.down[i].value| == np)
    && forall i :: 0 <= i < |p.up| && p.up[i].Some? ==> |p.up[i].value| == np
  }

  /** A process can start its next call; it can complete one as soon as the partner has sent its
      row, whether or not the partner goes on at once. */
  predicate CanMove(p: Protocol, i: int) {
    && 0 <= i < |p.at| == |p.down| == |p.up| && p.at[i] < End(i)
    && (p.at[i] == 1 ==> i + 1 < |p.at| && p.up[i + 1].Some?)
    && (p.at[i] == 3 ==> i > 0 && p.down[i - 1].Some?)
  }

  ghost function Moved(p: Protocol, i: nat, q: nat, r: nat, np: nat): Protocol
    requires Shaped(p, q, r, np) && CanMove(p, i)
  {
    assert StripSize(p.strips[i], i, q, r, np);
    var p' := p.(at := p.at[i := p.at[i] + 1]);
    if p.at[i] == 0 then p'.(down := p.down[i := Some(SentDown(p.strips[i], i, q, r, np))])
    else if p.at[i] == 1 then
      p'.(strips := p.strips[i := WithBottom(p.strips[i], p.up[i + 1].value, i, q, r, np)])
    else if p.at[i] == 2 then p'.(up := p.up[i := Some(SentUp(p.strips[i], i, q, r, np))])
    else p'.(strips := p.strips[i := WithTop(p.strips[i], p.down[i - 1].value, i, q, r, np)])
  }

  ghost predicate Moves(p: Protocol, p': Protocol, i: nat, q: nat, r: nat, np: nat) {
    Shaped(p, q, r, np) && CanMove(p, i) && p' == Moved(p, i, q, r, np)
  }

  ghost predicate SomeMove(p: Protocol, p': Protocol, q: nat, r: nat, np: nat) {
    exists i :: Moves(p, p', i, q, r, np)
  }

  ghost predicate IsStep(run: seq<Protocol>, t: int, q: nat, r: nat, np: nat) {
    0 < t < |run| && SomeMove(run[t - 1], run[t], q, r, np)
  }

  ghost predicate IsStart(p: Protocol, strips: seq<seq<real>>) {
    && p.strips == strips && |p.at| == |p.down| == |p.up| == |strips|
    && forall i :: 0 <= i < |strips| ==> p.at[i] == Start(i, |strips|) && p.down[i] == None && p.up[i] == None
  }

  /** Any order in which calls may start and complete. */
  ghost predicate IsRun(run: seq<Protocol>, strips: seq<seq<real>>, q: nat, r: nat, np: nat) {
    && |run| > 0 && |strips| > 0 && StripsSized(strips, q, r, np) && IsStart(run[0], strips)
    && forall t {:trigger IsStep(run, t, q, r, np)} :: 0 < t < |run| ==> IsStep(run, t, q, r, np)
  }

  /** Strip i once process i has the row from below. */
  ghost function Below(strips: seq<seq<real>>, i: nat, q: nat, r: nat, np: nat): (s: seq<real>)
    requires i < |strips| && StripsSized(strips, q, r, np)
    ensures StripSize(s, i, q, r, np)
    decreases |strips| - i
  {
    assert StripSize(strips[i], i, q, r, np);
    if i + 1 == |strips| then strips[i]
    else WithBottom(strips[i], SentUp(Below(strips, i + 1, q, r, np), i + 1, q, r, np), i, q, r, np)
  }

  /** Strip i of a process that has got so far. */
  ghost function StripAt(strips: seq<seq<real>>, i: nat, at: nat, q: nat, r: nat, np: nat): (s: seq<real>)
    requires i < |strips| && StripsSized(strips, q, r, np)
    ensures StripSize(s, i, q, r, np)
  {
    assert StripSize(strips[i], i, q, r, np);
    assert i > 0 ==> StripSize(strips[i - 1], i - 1, q, r, np);
    var below := Below(strips, i, q, r, np);
    if at < 2 then strips[i]
    else if at < 4 || i == 0 then below
    else WithTop(below, SentDown(strips[i - 1], i - 1, q, r, np), i, q, r, np)
  }

  /** All there is to know of process i, from how far it is. */
  ghost predicate Placed(p: Protocol, i: nat, strips: seq<seq<real>>, q: nat, r: nat, np: nat)
    requires i < |strips| == |p.strips| == |p.at| == |p.down| == |p.up| && StripsSized(strips, q, r, np)
  {
    assert StripSize(strips[i], i, q, r, np);
    && Start(i, |strips|) <= p.at[i] <= End(i) && p.strips[i] == StripAt(strips, i, p.at[i], q, r, np)
    && p.down[i] == (if i + 1 < |strips| && p.at[i] >= 1 then Some(SentDown(strips[i], i, q, r, np)) else None)
    && p.up[i] == (if p.at[i] >= 3 then Some(SentUp(Below(strips, i, q, r, np), i, q, r, np)) else None)
  }

  ghost predicate AllPlaced(p: Protocol, strips: seq<seq<real>>, q: nat, r: nat, np: nat)
    requires StripsSized(strips, q, r, np)
  {
    && |strips| == |p.strips| == |p.at| == |p.down| == |p.up|
    && forall i {:trigger Placed(p, i, strips, q, r, np)} :: 0 <= i < |strips| ==> Placed(p, i, strips, q, r, np)
  }

  lemma MoveKeepsPlaced(p: Protocol, i: nat, strips: seq<seq<real>>, q: nat, r: nat, np: nat)
    requires StripsSized(strips, q, r, np) && AllPlaced(p, strips, q, r, np)
    requires Shaped(p, q, r, np) && CanMove(p, i)
    ensures AllPlaced(Moved(p, i, q, r, np), strips, q, r, np)
  {
    var p' := Moved(p, i, q, r, np);
    forall j | 0 <= j < |strips|
      ensures Placed(p', j, strips, q, r, np)
    {
      assert Placed(p, j, strips, q, r, np);
      if j == i {
        MoverPlaced(p, i, strips, q, r, np);
      }
    }
  }

  lemma MoverPlaced(p: Protocol, i: nat, strips: seq<seq<real>>, q: nat, r: nat, np: nat)
    requires StripsSized(strips, q, r, np) && AllPlaced(p, strips, q, r, np)
    requires Shaped(p, q, r, np) && CanMove(p, i)
    ensures Placed(Moved(p, i, q, r, np), i, strips, q, r, np)
  {
    assert Placed(p, i, strips, q, r, np);
    if p.at[i] == 1 {
      assert Placed(p, i + 1, strips, q, r, np);
      GotFromBelow(p, i, strips, q, r, np);
    } else if p.at[i] == 3 {
      assert Placed(p, i - 1, strips, q, r, np);
      GotFromAbove(p, i, strips, q, r, np);
    }
  }

  lemma GotFromBelow(p: Protocol, i: nat, strips: seq<seq<real>>, q: nat, r: nat, np: nat)
    requires StripsSized(strips, q, r, np) && |strips| == |p.strips| == |p.at| == |p.down| == |p.up|
    requires Shaped(p, q, r, np) && CanMove(p, i) && p.at[i] == 1
    requires Placed(p, i, strips, q, r, np) && Placed(p, i + 1, strips, q, r, np)
    ensures Placed(Moved(p, i, q, r, np), i, strips, q, r, np)
  {
    assert StripAt(strips, i, 2, q, r, np) == Below(strips, i, q, r, np);
  }

  lemma GotFromAbove(p: Protocol, i: nat, strips: seq<seq<real>>, q: nat, r: nat, np: nat)
    requires StripsSized(strips, q, r, np) && |strips| == |p.strips| == |p.at| == |p.down| == |p.up|
    requires Shaped(p, q, r, np) && CanMove(p, i) && p.at[i] == 3
    requires Placed(p, i, strips, q, r, np) && Placed(p, i - 1, strips, q, r, np)
    ensures Placed(Moved(p, i, q, r, np), i, strips, q, r, np)
  {
    assert StripAt(strips, i, 3, q, r, np) == Below(strips, i, q, r, np);
  }

  /** Whatever the order, how far the processes are determines the strips and the rows sent. */
  lemma {:induction false} RunsAreAlike(run: seq<Protocol>, strips: seq<seq<real>>, q: nat, r: nat, np: nat, t: nat)
    requires IsRun(run, strips, q, r, np) && t < |run|
    ensures AllPlaced(run[t], strips, q, r, np) && Total(run[t].at, |strips|) == 2 + t
  {
    if t == 0 {
      forall i | 0 <= i < |strips|
        ensures Placed(run[0], i, strips, q, r, np)
      {
      }
      TotalStart(run[0].at, |strips|);
    } else {
      RunsAreAlike(run, strips, q, r, np, t - 1);
      assert IsStep(run, t, q, r, np);
      var i: nat :| Moves(run[t - 1], run[t], i, q, r, np);
      MoveKeepsPlaced(run[t - 1], i, strips, q, r, np);
      TotalMove(run[t - 1].at, i, |strips|);
    }
  }

  /** How far the first k processes are, together. */
  function Total(at: seq<nat>, k: nat): nat
    requires k <= |at|
  {
    if k == 0 then 0 else Total(at, k - 1) + at[k - 1]
  }

  lemma {:induction false} TotalBelowLast(at: seq<nat>, k: nat)
    requires k < |at| && forall i :: 0 <= i < |at| ==> at[i] == Start(i, |at|)
    ensures Total(at, k) == 0
  {
    if k > 0 {
      TotalBelowLast(at, k - 1);
    }
  }

  lemma TotalStart(at: seq<nat>, n: nat)
    requires |at| == n > 0 && forall i :: 0 <= i < n ==> at[i] == Start(i, n)
    ensures Total(at, n) == 2
  {
    TotalBelowLast(at, n - 1);
  }

  lemma {:induction false} TotalMove(at: seq<nat>, i: nat, k: nat)
    requires i < |at| && k <= |at|
    ensures Total(at[i := at[i] + 1], k) == Total(at, k) + if i < k then 1 else 0
  {
    if k > 0 {
      TotalMove(at, i, k - 1);
    }
  }

  lemma {:induction false} TotalEnd(at: seq<nat>, k: nat)
    requires 0 < k <= |at| && forall i :: 0 <= i < |at| ==> at[i] <= End(i)
    ensures Total(at, k) <= 4 * k - 2
    ensures Total(at, k) == 4 * k - 2 <==> forall i :: 0 <= i < k ==> at[i] == End(i)
  {
    if k == 1 {
      assert Total(at, 0) == 0;
    } else {
      TotalEnd(at, k - 1);
    }
  }

  /** Unless everybody has finished, somebody can go on. */
  lemma SomebodyCanMove(p: Protocol, strips: seq<seq<real>>, q: nat, r: nat, np: nat)
    requires StripsSized(strips, q, r, np) && AllPlaced(p, strips, q, r, np) && !AllFinished(p)
    ensures exists i :: CanMove(p, i)
  {
    var i := LastUnfinished(p.at, |p.at|);
    assert Placed(p, i, strips, q, r, np);
    if p.at[i] == 1 {
      assert Placed(p, i + 1, strips, q, r, np);
      assert CanMove(p, i);
    } else if p.at[i] == 3 {
      assert Placed(p, i - 1, strips, q, r, np);
      assert CanMove(p, if p.at[i - 1] == 0 then i - 1 else i);
    } else {
      assert CanMove(p, i);
    }
  }

  lemma {:induction false} LastUnfinished(at: seq<nat>, k: nat) returns (i: nat)
    requires k <= |at| && exists j :: 0 <= j < k && at[j] != End(j)
    ensures i < k && at[i] != End(i) && forall j :: i < j < k ==> at[j] == End(j)
  {
    if at[k - 1] != End(k - 1) {
      i := k - 1;
    } else {
      i := LastUnfinished(at, k - 1);
    }
  }

  /** Strip i once everybody has finished. */
  ghost function Final(strips: seq<seq<real>>, i: nat, q: nat, r: nat, np: nat): (s: seq<real>)
    requires i < |strips| && StripsSized(strips, q, r, np)
    ensures |s| == (Count(i, q, r) + 2) * np
  {
    StripAt(strips, i, End(i), q, r, np)
  }

  ghost function Exchanged(strips: seq<seq<real>>, q: nat, r: nat, np: nat): (s: seq<seq<real>>)
    requires StripsSized(strips, q, r, np)
    ensures |s| == |strips|
  {
    seq(|strips|, i requires 0 <= i < |strips| => Final(strips, i, q, r, np))
  }

  /** In whatever order calls start and complete, the exchange never gets stuck before everybody has
      finished, is over after two steps for every call, and leaves the same strips in every run. */
  lemma NoDeadlock(run: seq<Protocol>, strips: seq<seq<real>>, q: nat, r: nat, np: nat)
    requires IsRun(run, strips, q, r, np)
    ensures var last, steps := run[|run| - 1], 4 * (|strips| - 1);
      && |run| - 1 <= steps
      && (|run| - 1 < steps <==> exists i :: CanMove(last, i))
      && (|run| - 1 == steps <==> AllFinished(last))
      && (AllFinished(last) ==> last.strips == Exchanged(strips, q, r, np))
  {
    var last := run[|run| - 1];
    RunsAreAlike(run, strips, q, r, np, |run| - 1);
    forall i | 0 <= i < |strips|
      ensures last.at[i] <= End(i) && last.strips[i] == StripAt(strips, i, last.at[i], q, r, np)
    {
      assert Placed(last, i, strips, q, r, np);
    }
    TotalEnd(last.at, |strips|);
    if !AllFinished(last) {
      SomebodyCanMove(last, strips, q, r, np);
    }
  }

  // ---------------------------------------------------------------- what the exchange achieves

  /** Position p of strip i as a position of the grid. */
  function Global(p: int, i: int, q: nat, r: nat, np: nat): int { p + (First(i, q, r) - 1) * np }

  /** The strip reads at p as the grid G reads there. */
  ghost predicate ReadsAs(strip: seq<real>, G: seq<real>, p: int, i: int, q: nat, r: nat, np: nat) {
    0 <= p < |strip| && 0 <= Global(p, i, q, r, np) < |G| && strip[p] == G[Global(p, i, q, r, np)]
  }

  ghost predicate ReadsFrom(strip: seq<real>, G: seq<real>, lo: int, i: int, q: nat, r: nat, np: nat) {
    forall p {:trigger ReadsAs(strip, G, p, i, q, r, np)} :: lo <= p < |strip| ==> ReadsAs(strip, G, p, i, q, r, np)
  }

  /** The own rows read as the grid does. */
  ghost predicate OwnRowsAre(strip: seq<real>, G: seq<real>, i: int, q: nat, r: nat, np: nat) {
    && StripSize(strip, i, q, r, np)
    && forall p {:trigger ReadsAs(strip, G, p, i, q, r, np)} ::
         np <= p < (Count(i, q, r) + 1) * np ==> ReadsAs(strip, G, p, i, q, r, np)
  }

  /** The upper halo of a process without rows, but the first one, is nowhere used and may lag behind. */
  function FromWhere(i: int, q: nat, r: nat, np: nat): int { if i > 0 && Count(i, q, r) == 0 then np else 0 }

  /** What the strips need before the exchange: the own rows, and the first and last row of the grid. */
  ghost predicate Swept(strips: seq<seq<real>>, G: seq<real>, q: nat, r: nat, np: nat) {
    && |strips| > 0 && StripsSized(strips, q, r, np)
    && (forall k {:trigger OwnRowsAre(strips[k], G, k, q, r, np)} :: 0 <= k < |strips| ==>
        OwnRowsAre(strips[k], G, k, q, r, np))
    && (forall p {:trigger ReadsAs(strips[0], G, p, 0, q, r, np)} :: 0 <= p < np ==>
        ReadsAs(strips[0], G, p, 0, q, r, np))
    && var n := |strips| - 1;
       ReadsFrom(strips[n], G, (Count(n, q, r) + 1) * np, n, q, r, np)
  }

  lemma BottomReads(strip: seq<real>, below: seq<real>, G: seq<real>, k: nat, q: nat, r: nat, np: nat)
    requires OwnRowsAre(strip, G, k, q, r, np)
    requires StripSize(below, k + 1, q, r, np) && ReadsFrom(below, G, np, k + 1, q, r, np)
    ensures ReadsFrom(WithBottom(strip, SentUp(below, k + 1, q, r, np), k, q, r, np), G, np, k, q, r, np)
  {
    var rows, s := Count(k, q, r), WithBottom(strip, SentUp(below, k + 1, q, r, np), k, q, r, np);
    NextFirst(k, q, r, np);
    forall p | np <= p < |s|
      ensures ReadsAs(s, G, p, k, q, r, np)
    {
      if p < (rows + 1) * np {
        assert ReadsAs(strip, G, p, k, q, r, np);
      } else {
        assert ReadsAs(below, G, np + (p - (rows + 1) * np), k + 1, q, r, np);
      }
    }
  }

  lemma TopReads(strip: seq<real>, above: seq<real>, G: seq<real>, k: nat, q: nat, r: nat, np: nat)
    requires OwnRowsAre(above, G, k, q, r, np)
    requires StripSize(strip, k + 1, q, r, np) && ReadsFrom(strip, G, np, k + 1, q, r, np)
    ensures ReadsFrom(WithTop(strip, SentDown(above, k, q, r, np), k + 1, q, r, np), G, FromWhere(k + 1, q, r, np),
        k + 1, q, r, np)
  {
    var rows, s := Count(k, q, r), WithTop(strip, SentDown(above, k, q, r, np), k + 1, q, r, np);
    var i := k + 1;
    NextFirst(k, q, r, np);
    forall p | FromWhere(i, q, r, np) <= p < |s|
      ensures ReadsAs(s, G, p, i, q, r, np)
    {
      if p < np {
        assert ReadsAs(above, G, rows * np + p, k, q, r, np);
      } else {
        assert ReadsAs(strip, G, p, i, q, r, np);
      }
    }
  }

  /** With the row from below a strip reads as the grid from its own rows on. */
  lemma {:induction false} BelowReads(strips: seq<seq<real>>, G: seq<real>, i: nat, q: nat, r: nat, np: nat)
    requires Swept(strips, G, q, r, np) && i < |strips|
    ensures ReadsFrom(Below(strips, i, q, r, np), G, np, i, q, r, np)
    decreases |strips| - i
  {
    assert OwnRowsAre(strips[i], G, i, q, r, np);
    if i + 1 == |strips| {
      forall p | np <= p < |strips[i]|
        ensures ReadsAs(strips[i], G, p, i, q, r, np)
      {
      }
    } else {
      BelowReads(strips, G, i + 1, q, r, np);
      BottomReads(strips[i], Below(strips, i + 1, q, r, np), G, i, q, r, np);
    }
  }

  /** After the exchange every strip, halo included, reads as the grid does; but for the upper halo
      of a process without rows. */
  lemma ExchangeCompletes(strips: seq<seq<real>>, G: seq<real>, i: nat, q: nat, r: nat, np: nat)
    requires Swept(strips, G, q, r, np) && i < |strips|
    ensures ReadsFrom(Exchanged(strips, q, r, np)[i], G, FromWhere(i, q, r, np), i, q, r, np)
  {
    BelowReads(strips, G, i, q, r, np);
    if i > 0 {
      assert OwnRowsAre(strips[i - 1], G, i - 1, q, r, np);
      TopReads(Below(strips, i, q, r, np), strips[i - 1], G, i - 1, q, r, np);
    } else {
      FirstReads(strips, G, q, r, np);
    }
  }

  /** The first process keeps the first row of the grid. */
  lemma FirstReads(strips: seq<seq<real>>, G: seq<real>, q: nat, r: nat, np: nat)
    requires Swept(strips, G, q, r, np) && ReadsFrom(Below(strips, 0, q, r, np), G, np, 0, q, r, np)
    ensures ReadsFrom(Below(strips, 0, q, r, np), G, 0, 0, q, r, np)
  {
    var s := Below(strips, 0, q, r, np);
    assert StripSize(strips[0], 0, q, r, np);
    forall p | 0 <= p < |s|
      ensures ReadsAs(s, G, p, 0, q, r, np)
    {
      if p < np {
        assert ReadsAs(strips[0], G, p, 0, q, r, np);
      }
    }
  }
}
