/** Jacobi iterations of heat-mpi-ompss.c with the grid shared out by rows: every process relaxes
    its block, exchanges halo rows with its neighbours and copies the result back. */
module HeatRanks {
  import opened Common
  import opened Stencil
  import opened HeatRows
  import opened HeatExchange
  import opened HeatSweep

  // ---------------------------------------------------------------- processes in step with a grid

  ghost predicate Fits(k: int, q: nat, r: nat, np: nat) {
    1 <= First(k, q, r) && First(k, q, r) + Count(k, q, r) + 1 <= np
  }

  /** Process k holds its part of the grid; without rows of its own, it may lack the upper halo. */
  ghost predicate InPlace(ranks: seq<Rank>, g: Grid, k: int, q: nat, r: nat, np: nat) {
    && 0 <= k < |ranks| && Sized(g, np) && Fits(k, q, r, np)
    && |ranks[k].u| == |ranks[k].uhelp| == (Count(k, q, r) + 2) * np
    && ReadsFrom(ranks[k].u, g.u, FromWhere(k, q, r, np), k, q, r, np)
    && ReadsFrom(ranks[k].uhelp, g.uhelp, FromWhere(k, q, r, np), k, q, r, np)
  }

  ghost predicate AllMirror(ranks: seq<Rank>, g: Grid, q: nat, r: nat, np: nat) {
    && Sized(g, np) && |ranks| > 1 && np == |ranks| * q + r + 2 && r < |ranks|
    && forall k {:trigger InPlace(ranks, g, k, q, r, np)} :: 0 <= k < |ranks| ==> InPlace(ranks, g, k, q, r, np)
  }

  lemma ShareFits(k: nat, n: nat, q: nat, r: nat, np: nat)
    requires k < n && r < n && np == n * q + r + 2
    ensures Fits(k, q, r, np) && np >= 2
    ensures k == n - 1 ==> First(k, q, r) + Count(k, q, r) + 1 == np
  {
    MulLe(0, n, q);
    assert n * q == q * n;
    BlocksAreContiguous(np - 2, n, q, r, k);
  }

  /** A process with rows of its own has its whole strip. */
  lemma InPlaceMirrors(ranks: seq<Rank>, g: Grid, k: nat, q: nat, r: nat, np: nat)
    requires InPlace(ranks, g, k, q, r, np) && FromWhere(k, q, r, np) == 0
    ensures Mirrors(ranks[k], g, First(k, q, r), Count(k, q, r), np)
  {
    var s := ranks[k];
    forall p | 0 <= p < (Count(k, q, r) + 2) * np
      ensures StripInside(p, First(k, q, r), Count(k, q, r), np)
      ensures s.u[p] == g.u[p + (First(k, q, r) - 1) * np] && s.uhelp[p] == g.uhelp[p + (First(k, q, r) - 1) * np]
    {
      assert ReadsAs(s.u, g.u, p, k, q, r, np) && ReadsAs(s.uhelp, g.uhelp, p, k, q, r, np);
    }
  }

  // ---------------------------------------------------------------- one iteration

  /** Every process relaxes its strip. */
  function RelaxAll(ranks: seq<Rank>, q: nat, r: nat, np: nat, jhi: int): (sts: seq<State>)
    ensures |sts| == |ranks|
    ensures forall k :: 0 <= k < |ranks| ==> sts[k] == Relaxed(ranks[k], Count(k, q, r), np, jhi)
  {
    if ranks == [] then []
    else
      var n := |ranks| - 1;
      RelaxAll(ranks[..n], q, r, np, jhi) + [Relaxed(ranks[n], Count(n, q, r), np, jhi)]
  }

  function Strips(sts: seq<State>): (strips: seq<seq<real>>)
    ensures |strips| == |sts| && forall k :: 0 <= k < |sts| ==> strips[k] == sts[k].u
  {
    if sts == [] then [] else Strips(sts[..|sts| - 1]) + [sts[|sts| - 1].u]
  }

  /** The sum MPI_Allreduce gives every process. */
  function TotalResidual(sts: seq<State>): real {
    if sts == [] then 0.0 else TotalResidual(sts[..|sts| - 1]) + sts[|sts| - 1].sum
  }

  /** uhelp is copied into u. */
  function Copied(strips: seq<seq<real>>): (ranks: seq<Rank>)
    ensures |ranks| == |strips| && forall k :: 0 <= k < |ranks| ==> ranks[k] == Rank(strips[k], strips[k])
  {
    if strips == [] then [] else Copied(strips[..|strips| - 1]) + [Rank(strips[|strips| - 1], strips[|strips| - 1])]
  }

  ghost predicate AllSized(ranks: seq<Rank>, q: nat, r: nat, np: nat) {
    && |ranks| > 0 && np > 0
    && forall k :: 0 <= k < |ranks| ==> |ranks[k].u| == |ranks[k].uhelp| == (Count(k, q, r) + 2) * np
  }

  function SweptStrips(ranks: seq<Rank>, q: nat, r: nat, np: nat, jhi: int): (strips: seq<seq<real>>)
    ensures |strips| == |ranks|
    ensures forall k :: 0 <= k < |ranks| ==> strips[k] == Relaxed(ranks[k], Count(k, q, r), np, jhi).u
  {
    Strips(RelaxAll(ranks, q, r, np, jhi))
  }

  lemma SweptSized(ranks: seq<Rank>, q: nat, r: nat, np: nat, jhi: int)
    requires AllSized(ranks, q, r, np)
    ensures StripsSized(SweptStrips(ranks, q, r, np, jhi), q, r, np)
  {
    var strips := SweptStrips(ranks, q, r, np, jhi);
    forall k | 0 <= k < |ranks|
      ensures StripSize(strips[k], k, q, r, np)
    {
      var rows, s := Count(k, q, r), ranks[k];
      RunSum(s.u, rows + 2, np, State(s.uhelp, 0.0), Stencil.Block(1, rows + 1, 1, jhi));
      SizeOfStrip(strips[k], k, q, r, np);
    }
  }

  /** One iteration of all processes: sweep, exchange as `HeatExchange.NoDeadlock` says, copy. */
  ghost function StepRanks(ranks: seq<Rank>, q: nat, r: nat, np: nat, jhi: int): (ranks': seq<Rank>)
    requires AllSized(ranks, q, r, np)
    ensures |ranks'| == |ranks| && AllSized(ranks', q, r, np)
  {
    SweptSized(ranks, q, r, np, jhi);
    var swept := SweptStrips(ranks, q, r, np, jhi);
    Copied(Exchanged(swept, q, r, np))
  }

  /** The halo rows of a strip read as the process had them. */
  ghost predicate HaloKept(strip: seq<real>, kept: seq<real>, rows: int, np: int) {
    |strip| == |kept| && forall p :: 0 <= p < |strip| && !(np <= p < (rows + 1) * np) ==> strip[p] == kept[p]
  }

  ghost predicate SweptAt(strip: seq<real>, G: seq<real>, kept: seq<real>, p: int, first: int, rows: int, np: int) {
    && |strip| == |kept| == (rows + 2) * np && |G| == np * np && 0 <= p < |strip| && StripInside(p, first, rows, np)
    && strip[p] == if np <= p < (rows + 1) * np then G[p + (first - 1) * np] else kept[p]
  }

  lemma FromSwept(strip: seq<real>, G: seq<real>, kept: seq<real>, k: nat, q: nat, r: nat, np: nat)
    requires StripSize(strip, k, q, r, np)
    requires forall p :: 0 <= p < |strip| ==> SweptAt(strip, G, kept, p, First(k, q, r), Count(k, q, r), np)
    ensures OwnRowsAre(strip, G, k, q, r, np) && HaloKept(strip, kept, Count(k, q, r), np)
  {
    assert SweptAt(strip, G, kept, 0, First(k, q, r), Count(k, q, r), np);
    forall p | np <= p < (Count(k, q, r) + 1) * np
      ensures ReadsAs(strip, G, p, k, q, r, np)
    {
      assert SweptAt(strip, G, kept, p, First(k, q, r), Count(k, q, r), np);
    }
    forall p | 0 <= p < |strip| && !(np <= p < (Count(k, q, r) + 1) * np)
      ensures strip[p] == kept[p]
    {
      assert SweptAt(strip, G, kept, p, First(k, q, r), Count(k, q, r), np);
    }
  }

  /** A sweep writes the own rows of every process as the whole sweep does, and no halo row. */
  lemma SweptRows(ranks: seq<Rank>, g: Grid, k: nat, q: nat, r: nat, np: nat, jhi: int)
    requires np > 0 && InPlace(ranks, g, k, q, r, np) && jhi <= np - 1
    ensures var strip := Relaxed(ranks[k], Count(k, q, r), np, jhi).u;
      OwnRowsAre(strip, RelaxWhole(g, np, jhi).u, k, q, r, np) && HaloKept(strip, ranks[k].uhelp, Count(k, q, r), np)
  {
    var s, rows, first := ranks[k], Count(k, q, r), First(k, q, r);
    var strip, G := Relaxed(s, rows, np, jhi).u, RelaxWhole(g, np, jhi).u;
    RunSum(s.u, rows + 2, np, State(s.uhelp, 0.0), Stencil.Block(1, rows + 1, 1, jhi));
    SizeOfStrip(strip, k, q, r, np);
    if rows > 0 {
      InPlaceMirrors(ranks, g, k, q, r, np);
      forall p | 0 <= p < (rows + 2) * np
        ensures SweptAt(strip, G, s.uhelp, p, first, rows, np)
      {
        RelaxedStrip(s, g, first, rows, np, jhi, p);
      }
      FromSwept(strip, G, s.uhelp, k, q, r, np);
    }
  }

  /** After the sweep the strips are ready for the exchange. */
  lemma AllSwept(ranks: seq<Rank>, g: Grid, q: nat, r: nat, np: nat, jhi: int)
    requires AllMirror(ranks, g, q, r, np) && AllSized(ranks, q, r, np) && jhi <= np - 1
    ensures Swept(SweptStrips(ranks, q, r, np, jhi), RelaxWhole(g, np, jhi).u, q, r, np)
  {
    var strips, G, n := SweptStrips(ranks, q, r, np, jhi), RelaxWhole(g, np, jhi).u, |ranks| - 1;
    SweptSized(ranks, q, r, np, jhi);
    forall k | 0 <= k < |strips|
      ensures OwnRowsAre(strips[k], G, k, q, r, np)
    {
      assert InPlace(ranks, g, k, q, r, np);
      SweptRows(ranks, g, k, q, r, np, jhi);
    }
    assert InPlace(ranks, g, 0, q, r, np);
    SweptRows(ranks, g, 0, q, r, np, jhi);
    TopReady(ranks[0], strips[0], g, G, q, r, np, jhi);
    assert InPlace(ranks, g, n, q, r, np);
    SweptRows(ranks, g, n, q, r, np, jhi);
    ShareFits(n, |ranks|, q, r, np);
    BottomReady(ranks[n], strips[n], g, n, q, r, np, jhi);
  }

  lemma TopReady(s: Rank, strip: seq<real>, g: Grid, G: seq<real>, q: nat, r: nat, np: nat, jhi: int)
    requires Sized(g, np) && np >= 2 && jhi <= np - 1 && G == RelaxWhole(g, np, jhi).u
    requires StripSize(strip, 0, q, r, np) && HaloKept(strip, s.uhelp, Count(0, q, r), np)
    requires ReadsFrom(s.uhelp, g.uhelp, 0, 0, q, r, np)
    ensures forall p :: 0 <= p < np ==> ReadsAs(strip, G, p, 0, q, r, np)
  {
    assert First(0, q, r) == 1 && (First(0, q, r) - 1) * np == 0;
    MulLe(1, np, np);
    forall p | 0 <= p < np
      ensures ReadsAs(strip, G, p, 0, q, r, np)
    {
      assert ReadsAs(s.uhelp, g.uhelp, p, 0, q, r, np);
      EdgesKept(g, np, jhi, p);
    }
  }

  lemma BottomReady(s: Rank, strip: seq<real>, g: Grid, k: nat, q: nat, r: nat, np: nat, jhi: int)
    requires Sized(g, np) && np >= 2 && jhi <= np - 1 && First(k, q, r) + Count(k, q, r) + 1 == np
    requires StripSize(strip, k, q, r, np) && HaloKept(strip, s.uhelp, Count(k, q, r), np)
    requires ReadsFrom(s.uhelp, g.uhelp, np, k, q, r, np)
    ensures ReadsFrom(strip, RelaxWhole(g, np, jhi).u, (Count(k, q, r) + 1) * np, k, q, r, np)
  {
    var lo, G := (Count(k, q, r) + 1) * np, RelaxWhole(g, np, jhi).u;
    forall p | lo <= p < |strip|
      ensures ReadsAs(strip, G, p, k, q, r, np)
    {
      assert ReadsAs(s.uhelp, g.uhelp, p, k, q, r, np);
      InLastRow(p, k, q, r, np);
      EdgesKept(g, np, jhi, Global(p, k, q, r, np));
    }
  }

  lemma InLastRow(p: int, k: nat, q: nat, r: nat, np: nat)
    requires First(k, q, r) + Count(k, q, r) + 1 == np && (Count(k, q, r) + 1) * np <= p
    ensures (np - 1) * np <= Global(p, k, q, r, np)
  {
    assert (Count(k, q, r) + 1) * np + (First(k, q, r) - 1) * np == (np - 1) * np;
  }

  /** One iteration keeps every process in step with the whole grid. */
  lemma StepMirrors(ranks: seq<Rank>, g: Grid, q: nat, r: nat, np: nat, jhi: int)
    requires AllMirror(ranks, g, q, r, np) && AllSized(ranks, q, r, np) && jhi <= np - 1
    ensures AllMirror(StepRanks(ranks, q, r, np, jhi), StepGrid(g, np, jhi), q, r, np)
  {
    var ranks', g' := StepRanks(ranks, q, r, np, jhi), StepGrid(g, np, jhi);
    var strips, G := SweptStrips(ranks, q, r, np, jhi), RelaxWhole(g, np, jhi).u;
    SweptSized(ranks, q, r, np, jhi);
    AllSwept(ranks, g, q, r, np, jhi);
    RunSum(g.u, np, np, State(g.uhelp, 0.0), Stencil.Block(1, np - 1, 1, jhi));
    forall k | 0 <= k < |ranks'|
      ensures InPlace(ranks', g', k, q, r, np)
    {
      ShareFits(k, |ranks|, q, r, np);
      ExchangeCompletes(strips, G, k, q, r, np);
    }
  }

  // ---------------------------------------------------------------- the residual

  /** The sums of the first n processes add up to the sum over the rows they own. */
  lemma {:induction false} ResidualOfRows(ranks: seq<Rank>, g: Grid, q: nat, r: nat, np: nat, jhi: int, n: nat)
    requires AllMirror(ranks, g, q, r, np) && jhi <= np - 1 && n <= |ranks|
    ensures TotalResidual(RelaxAll(ranks[..n], q, r, np, jhi))
         == DiffSum(g.u, np, np, Stencil.Block(1, First(n, q, r), 1, jhi))
  {
    if n > 0 {
      var k := n - 1;
      ResidualOfRows(ranks, g, q, r, np, jhi, k);
      assert ranks[..n][..k] == ranks[..k];
      ResidualOfRank(ranks, g, q, r, np, jhi, k);
    }
  }

  lemma ResidualOfRank(ranks: seq<Rank>, g: Grid, q: nat, r: nat, np: nat, jhi: int, k: nat)
    requires AllMirror(ranks, g, q, r, np) && jhi <= np - 1 && k < |ranks|
    ensures DiffSum(g.u, np, np, Stencil.Block(1, First(k + 1, q, r), 1, jhi))
         == DiffSum(g.u, np, np, Stencil.Block(1, First(k, q, r), 1, jhi))
            + Relaxed(ranks[k], Count(k, q, r), np, jhi).sum
  {
    var first, rows := First(k, q, r), Count(k, q, r);
    assert InPlace(ranks, g, k, q, r, np);
    NextFirst(k, q, r, np);
    if rows > 0 {
      InPlaceMirrors(ranks, g, k, q, r, np);
      ResidualOfStrip(ranks[k], g, first, rows, np, jhi);
      BlockSplit(1, first, first + rows, 1, jhi);
      DiffSumConcat(g.u, np, np, Stencil.Block(1, first, 1, jhi), Stencil.Block(first, first + rows, 1, jhi));
    }
  }

  /** The reduced residual is the residual of the whole sweep, so all processes stop when one
      process with the whole grid would. */
  lemma ResidualsAgree(ranks: seq<Rank>, g: Grid, q: nat, r: nat, np: nat, jhi: int)
    requires AllMirror(ranks, g, q, r, np) && jhi <= np - 1
    ensures TotalResidual(RelaxAll(ranks, q, r, np, jhi)) == RelaxWhole(g, np, jhi).sum
  {
    ResidualOfRows(ranks, g, q, r, np, jhi, |ranks|);
    assert ranks[..|ranks|] == ranks;
    ShareFits(|ranks| - 1, |ranks|, q, r, np);
    NextFirst(|ranks| - 1, q, r, np);
    RunSum(g.u, np, np, State(g.uhelp, 0.0), Stencil.Block(1, np - 1, 1, jhi));
  }

  // ---------------------------------------------------------------- whole runs

  /** What the first process sends out: every block with its halo rows. */
  ghost predicate Scattered(ranks: seq<Rank>, g: Grid, q: nat, r: nat, np: nat) {
    forall k :: 0 <= k < |ranks| ==>
      var s := HaloSlice(HeatRows.Block(k, q, r), np);
      Inside(s, |g.u|) && Inside(s, |g.uhelp|)
      && ranks[k] == Rank(g.u[s.start..s.start + s.length], g.uhelp[s.start..s.start + s.length])
  }

  /** Two or more processes share the rows of the grid, however few these are. */
  ghost predicate Shared(ranks: seq<Rank>, g: Grid, q: nat, r: nat, np: nat) {
    np >= 2 && Sized(g, np) && |ranks| > 1 && Shares(np - 2, |ranks|, q, r)
  }

  lemma ScatterMirrors(ranks: seq<Rank>, g: Grid, q: nat, r: nat, np: nat)
    requires Shared(ranks, g, q, r, np) && Scattered(ranks, g, q, r, np)
    ensures AllMirror(ranks, g, q, r, np)
  {
    assert q * |ranks| == |ranks| * q;
    forall k | 0 <= k < |ranks|
      ensures InPlace(ranks, g, k, q, r, np)
    {
      ShareFits(k, |ranks|, q, r, np);
      var s := HaloSlice(HeatRows.Block(k, q, r), np);
      SliceReads(g.u, k, q, r, np);
      SliceReads(g.uhelp, k, q, r, np);
    }
  }

  lemma SliceReads(G: seq<real>, k: nat, q: nat, r: nat, np: nat)
    requires |G| == np * np && Fits(k, q, r, np) && Inside(HaloSlice(HeatRows.Block(k, q, r), np), |G|)
    ensures var h := HaloSlice(HeatRows.Block(k, q, r), np);
      h.length == (Count(k, q, r) + 2) * np && ReadsFrom(G[h.start..h.start + h.length], G, 0, k, q, r, np)
  {
    var h := HaloSlice(HeatRows.Block(k, q, r), np);
    var s := G[h.start..h.start + h.length];
    forall p | 0 <= p < |s|
      ensures ReadsAs(s, G, p, k, q, r, np)
    {
    }
  }

  lemma MirrorsSized(ranks: seq<Rank>, g: Grid, q: nat, r: nat, np: nat)
    requires AllMirror(ranks, g, q, r, np)
    ensures AllSized(ranks, q, r, np)
  {
    ShareFits(0, |ranks|, q, r, np);
    forall k | 0 <= k < |ranks|
      ensures |ranks[k].u| == |ranks[k].uhelp| == (Count(k, q, r) + 2) * np
    {
      assert InPlace(ranks, g, k, q, r, np);
    }
  }

  /** The t-th iteration of the processes. */
  ghost predicate RanksStep(run: seq<seq<Rank>>, t: int, q: nat, r: nat, np: nat, jhi: int) {
    1 <= t < |run| && AllSized(run[t - 1], q, r, np) && run[t] == StepRanks(run[t - 1], q, r, np, jhi)
  }

  /** The t-th iteration of one process with the whole grid. */
  ghost predicate GridStep(grids: seq<Grid>, t: int, np: nat, jhi: int) {
    1 <= t < |grids| && grids[t] == StepGrid(grids[t - 1], np, jhi)
  }

  /** A run of the processes and one on the whole grid, from the same start. */
  ghost predicate Runs(run: seq<seq<Rank>>, grids: seq<Grid>, q: nat, r: nat, np: nat, jhi: int) {
    && |run| == |grids| > 0
    && Shared(run[0], grids[0], q, r, np) && Scattered(run[0], grids[0], q, r, np) && grids[0].u == grids[0].uhelp
    && (forall t {:trigger RanksStep(run, t, q, r, np, jhi)} :: 1 <= t < |run| ==> RanksStep(run, t, q, r, np, jhi))
    && (forall t {:trigger GridStep(grids, t, np, jhi)} :: 1 <= t < |grids| ==> GridStep(grids, t, np, jhi))
  }

  /** However many iterations are run, the processes hold together what one process would. */
  lemma RunsMirror(run: seq<seq<Rank>>, grids: seq<Grid>, q: nat, r: nat, np: nat, jhi: int, t: nat)
    requires Runs(run, grids, q, r, np, jhi) && jhi <= np - 1 && t < |run|
    ensures AllMirror(run[t], grids[t], q, r, np)
  {
    ScatterMirrors(run[0], grids[0], q, r, np);
    StepsMirror(run, grids, q, r, np, jhi, t);
  }

  lemma {:induction false} StepsMirror(run: seq<seq<Rank>>, grids: seq<Grid>, q: nat, r: nat, np: nat, jhi: int, t: nat)
    requires t < |run| == |grids| && AllMirror(run[0], grids[0], q, r, np) && jhi <= np - 1
    requires forall i {:trigger RanksStep(run, i, q, r, np, jhi)} :: 1 <= i <= t ==> RanksStep(run, i, q, r, np, jhi)
    requires forall i {:trigger GridStep(grids, i, np, jhi)} :: 1 <= i <= t ==> GridStep(grids, i, np, jhi)
    ensures AllMirror(run[t], grids[t], q, r, np)
  {
    if t > 0 {
      StepsMirror(run, grids, q, r, np, jhi, t - 1);
      assert RanksStep(run, t, q, r, np, jhi) && GridStep(grids, t, np, jhi);
      StepMirrors(run[t - 1], grids[t - 1], q, r, np, jhi);
    }
  }

  /** The first and last row of the grid stay what they were. */
  lemma {:induction false} EdgesStay(grids: seq<Grid>, np: nat, jhi: int, t: nat, p: int)
    requires t < |grids| && np >= 2 && Sized(grids[0], np) && grids[0].u == grids[0].uhelp && jhi <= np - 1
    requires forall i {:trigger GridStep(grids, i, np, jhi)} :: 1 <= i < |grids| ==> GridStep(grids, i, np, jhi)
    requires 0 <= p < np * np && (p < np || (np - 1) * np <= p)
    ensures Sized(grids[t], np) && grids[t].u == grids[t].uhelp && grids[t].u[p] == grids[0].u[p]
  {
    if t > 0 {
      EdgesStay(grids, np, jhi, t - 1, p);
      assert GridStep(grids, t, np, jhi);
      EdgesKept(grids[t - 1], np, jhi, p);
    }
  }

  /** The test that ends the loop, made every tenth iteration. */
  predicate Stop(iter: nat, residual: real, maxiter: nat) {
    iter % 10 == 0 && (residual < 0.00005 || (maxiter > 0 && iter >= maxiter))
  }

  /** The loop is left after n iterations, with these residuals. */
  ghost predicate EndsAfter(n: nat, residuals: seq<real>, maxiter: nat) {
    && 0 < n <= |residuals| && Stop(n, residuals[n - 1], maxiter)
    && forall k {:trigger residuals[k]} :: 0 <= k < n - 1 ==> !Stop(k + 1, residuals[k], maxiter)
  }

  /** That is the first multiple of ten whose residual is below 0.00005 or that reaches the limit;
      with a limit there is one no more than nine iterations beyond it. */
  lemma EndsExactly(n: nat, residuals: seq<real>, maxiter: nat)
    ensures EndsAfter(n, residuals, maxiter) <==>
      && 0 < n <= |residuals| && n % 10 == 0 && (residuals[n - 1] < 0.00005 || 0 < maxiter <= n)
      && forall k {:trigger residuals[k]} :: 0 <= k < n - 1 && (k + 1) % 10 == 0 ==>
           residuals[k] >= 0.00005 && (maxiter == 0 || k + 1 < maxiter)
    ensures maxiter > 0 && |residuals| >= maxiter + 9 ==>
      exists m :: 0 < m <= maxiter + 9 && EndsAfter(m, residuals, maxiter)
  {
    if maxiter > 0 && |residuals| >= maxiter + 9 {
      var last := maxiter + 9 - (maxiter + 9) % 10;
      var m := FirstStop(last, residuals, maxiter);
    }
  }

  lemma {:induction false} FirstStop(last: nat, residuals: seq<real>, maxiter: nat) returns (m: nat)
    requires 0 < last <= |residuals| && Stop(last, residuals[last - 1], maxiter)
    ensures 0 < m <= last && EndsAfter(m, residuals, maxiter)
  {
    if k :| 0 <= k < last - 1 && Stop(k + 1, residuals[k], maxiter) {
      m := FirstStop(k + 1, residuals, maxiter);
    } else {
      m := last;
    }
  }

  /** The reduced residual is that of the whole sweep, so the processes leave the loop in the
      iteration in which one process would. */
  lemma StopTogether(run: seq<seq<Rank>>, grids: seq<Grid>, q: nat, r: nat, np: nat, jhi: int, t: nat, maxiter: nat)
    requires Runs(run, grids, q, r, np, jhi) && jhi <= np - 1 && t < |run|
    ensures Stop(t + 1, TotalResidual(RelaxAll(run[t], q, r, np, jhi)), maxiter)
       <==> Stop(t + 1, RelaxWhole(grids[t], np, jhi).sum, maxiter)
  {
    RunsMirror(run, grids, q, r, np, jhi, t);
    ResidualsAgree(run[t], grids[t], q, r, np, jhi);
  }

  /** The processes leave the loop after just as many iterations as one process would. */
  lemma EndTogether(run: seq<seq<Rank>>, grids: seq<Grid>, residuals: seq<real>, single: seq<real>, q: nat, r: nat,
                    np: nat, jhi: int, n: nat, maxiter: nat)
    requires Runs(run, grids, q, r, np, jhi) && jhi <= np - 1 && |residuals| == |single| == |run|
    requires forall k :: 0 <= k < |run| ==> residuals[k] == TotalResidual(RelaxAll(run[k], q, r, np, jhi))
    requires forall k :: 0 <= k < |run| ==> single[k] == RelaxWhole(grids[k], np, jhi).sum
    ensures EndsAfter(n, residuals, maxiter) <==> EndsAfter(n, single, maxiter)
  {
    forall k | 0 <= k < |run|
      ensures residuals[k] == single[k]
    {
      RunsMirror(run, grids, q, r, np, jhi, k);
      ResidualsAgree(run[k], grids[k], q, r, np, jhi);
    }
    assert residuals == single;
  }

  /** Where the own rows of process k lie in the grid. */
  ghost predicate OwnBounds(k: nat, q: nat, r: nat, np: nat) {
    && np <= First(k, q, r) * np <= First(k + 1, q, r) * np <= np * np
    && First(k, q, r) * np == (First(k, q, r) - 1) * np + np
    && First(k + 1, q, r) * np == First(k, q, r) * np + Count(k, q, r) * np
    && (Count(k, q, r) + 1) * np == Count(k, q, r) * np + np
  }

  lemma RowBounds(k: nat, n: nat, q: nat, r: nat, np: nat)
    requires k < n && r < n && np == n * q + r + 2
    ensures OwnBounds(k, q, r, np)
  {
    ShareFits(k, n, q, r, np);
    NextFirst(k, q, r, np);
    MulNext(First(k, q, r) - 1, np);
    MulNext(First(k + 1, q, r) - 1, np);
    MulNext(Count(k, q, r), np);
    MulLe(1, First(k, q, r), np);
    MulLe(0, Count(k, q, r), np);
    MulLe(First(k + 1, q, r), np, np);
  }

  lemma OwnRowsOf(ranks: seq<Rank>, g: Grid, k: nat, q: nat, r: nat, np: nat)
    requires AllMirror(ranks, g, q, r, np) && AllSized(ranks, q, r, np) && k < |ranks|
    ensures StripSize(ranks[k].u, k, q, r, np) && 0 <= First(k, q, r) * np <= First(k + 1, q, r) * np <= np * np
    ensures ranks[k].u[np..(Count(k, q, r) + 1) * np] == g.u[First(k, q, r) * np..First(k + 1, q, r) * np]
  {
    RowBounds(k, |ranks|, q, r, np);
    SizeOfStrip(ranks[k].u, k, q, r, np);
    assert InPlace(ranks, g, k, q, r, np);
    OwnSliceIs(ranks[k].u, g.u, k, q, r, np);
  }

  lemma OwnSliceIs(strip: seq<real>, G: seq<real>, k: nat, q: nat, r: nat, np: nat)
    requires |G| == np * np && StripSize(strip, k, q, r, np) && OwnBounds(k, q, r, np)
    requires ReadsFrom(strip, G, FromWhere(k, q, r, np), k, q, r, np)
    ensures strip[np..(Count(k, q, r) + 1) * np] == G[First(k, q, r) * np..First(k + 1, q, r) * np]
  {
    var a, b := strip[np..(Count(k, q, r) + 1) * np], G[First(k, q, r) * np..First(k + 1, q, r) * np];
    forall x | 0 <= x < |a|
      ensures a[x] == b[x]
    {
      assert ReadsAs(strip, G, np + x, k, q, r, np);
    }
  }

  /** The messages all processes but the first send in the end: their own rows. */
  ghost predicate Sent(ranks: seq<Rank>, messages: seq<seq<real>>, q: nat, r: nat, np: nat) {
    && |messages| == |ranks|
    && forall k {:trigger SentBy(ranks, messages, k, q, r, np)} :: 1 <= k < |ranks| ==>
         SentBy(ranks, messages, k, q, r, np)
  }

  ghost predicate SentBy(ranks: seq<Rank>, messages: seq<seq<real>>, k: nat, q: nat, r: nat, np: nat) {
    && k < |ranks| == |messages| && np <= (Count(k, q, r) + 1) * np <= |ranks[k].u|
    && messages[k] == ranks[k].u[np..(Count(k, q, r) + 1) * np]
  }

  /** The grid of the first process before it receives: its strip, and the rows it never touched. */
  ghost function FirstGrid(ranks: seq<Rank>, g: Grid): seq<real>
    requires ranks != [] && |ranks[0].u| <= |g.u|
  {
    ranks[0].u + g.u[|ranks[0].u|..]
  }

  /** The message of process k fits and holds its part of the grid G. */
  ghost predicate Carries(G: seq<real>, message: seq<real>, k: nat, q: nat, r: nat, np: nat) {
    && Fitting(|G|, message, k, q, r, np) && 0 <= First(k, q, r) * np <= First(k + 1, q, r) * np <= |G|
    && message == G[First(k, q, r) * np..First(k + 1, q, r) * np]
  }

  lemma MessageCarries(ranks: seq<Rank>, g: Grid, messages: seq<seq<real>>, k: nat, q: nat, r: nat, np: nat)
    requires AllMirror(ranks, g, q, r, np) && Sent(ranks, messages, q, r, np) && 1 <= k < |ranks|
    ensures Carries(g.u, messages[k], k, q, r, np)
  {
    MirrorsSized(ranks, g, q, r, np);
    OwnRowsOf(ranks, g, k, q, r, np);
    RowBounds(k, |ranks|, q, r, np);
    assert SentBy(ranks, messages, k, q, r, np);
  }

  /** A message that continues what is right so far. */
  lemma WrittenExtends(u: seq<real>, v: seq<real>, s: Slice, b: nat)
    requires 0 <= s.start && s.start + s.length == b && s.start <= b <= |u| == |v|
    ensures Written(v[..s.start] + u[s.start..], s, v[s.start..b]) == v[..b] + u[b..]
  {
  }

  lemma OneMoreMessage(G: seq<real>, u: seq<real>, message: seq<real>, k: nat, q: nat, r: nat, np: nat)
    requires |u| == |G| && Carries(G, message, k, q, r, np)
    ensures var a, b := First(k, q, r) * np, First(k + 1, q, r) * np;
      Written(G[..a] + u[a..], OwnSlice(HeatRows.Block(k, q, r), np), message) == G[..b] + u[b..]
  {
    NextFirst(k, q, r, np);
    WrittenExtends(u, G, OwnSlice(HeatRows.Block(k, q, r), np), First(k + 1, q, r) * np);
  }

  /** v is the grid G up to `end`, and what u was beyond. */
  ghost predicate RightUpTo(G: seq<real>, u: seq<real>, v: seq<real>, end: int) {
    |u| == |G| && 0 <= end <= |u| && v == G[..end] + u[end..]
  }

  /** With the messages of the first n processes the grid is right up to their last row. */
  lemma {:induction false} ReceivedIs(G: seq<real>, u: seq<real>, messages: seq<seq<real>>, n: nat,
                                      q: nat, r: nat, np: nat)
    requires 1 <= n <= |messages| && RightUpTo(G, u, u, First(1, q, r) * np)
    requires forall k :: 1 <= k < n ==> Carries(G, messages[k], k, q, r, np)
    ensures forall k :: 1 <= k < n ==> Fitting(|u|, messages[k], k, q, r, np)
    ensures RightUpTo(G, u, Received(u, messages, n, q, r, np), First(n, q, r) * np)
  {
    forall k | 1 <= k < n
      ensures Fitting(|u|, messages[k], k, q, r, np)
    {
      assert Carries(G, messages[k], k, q, r, np);
    }
    if n > 1 {
      var k := n - 1;
      ReceivedIs(G, u, messages, k, q, r, np);
      assert Carries(G, messages[k], k, q, r, np);
      OneMoreMessage(G, u, messages[k], k, q, r, np);
    }
  }

  /** Once the first process has all messages it holds the whole grid. */
  lemma GatherGives(ranks: seq<Rank>, g: Grid, g0: Grid, messages: seq<seq<real>>, q: nat, r: nat, np: nat)
    requires AllMirror(ranks, g, q, r, np) && Sent(ranks, messages, q, r, np) && Sized(g0, np)
    requires forall p :: (np - 1) * np <= p < np * np ==> g.u[p] == g0.u[p]
    ensures |ranks[0].u| <= |g0.u|
    ensures forall k :: 1 <= k < |ranks| ==> Fitting(np * np, messages[k], k, q, r, np)
    ensures Received(FirstGrid(ranks, g0), messages, |ranks|, q, r, np) == g.u
  {
    var n := |ranks|;
    FirstGridReads(ranks, g, g0, q, r, np);
    forall k | 1 <= k < n
      ensures Carries(g.u, messages[k], k, q, r, np)
    {
      MessageCarries(ranks, g, messages, k, q, r, np);
    }
    ReceivedIs(g.u, FirstGrid(ranks, g0), messages, n, q, r, np);
    ShareFits(n - 1, n, q, r, np);
    NextFirst(n - 1, q, r, np);
    assert First(n, q, r) == np - 1;
  }

  /** What the processes compute together, scattered, iterated and gathered, is what one process
      computes on the whole grid. */
  lemma DistributedIsSingle(run: seq<seq<Rank>>, grids: seq<Grid>, messages: seq<seq<real>>, q: nat, r: nat, np: nat,
                            jhi: int, t: nat)
    requires Runs(run, grids, q, r, np, jhi) && jhi <= np - 1 && t < |run| && Sent(run[t], messages, q, r, np)
    ensures run[t] != [] && |run[t][0].u| <= |grids[0].u| == np * np
    ensures forall k :: 1 <= k < |run[t]| ==> Fitting(np * np, messages[k], k, q, r, np)
    ensures Received(FirstGrid(run[t], grids[0]), messages, |run[t]|, q, r, np) == grids[t].u
  {
    RunsMirror(run, grids, q, r, np, jhi, t);
    forall p | (np - 1) * np <= p < np * np
      ensures |grids[t].u| == np * np && grids[t].u[p] == grids[0].u[p]
    {
      LastRowStays(grids, np, jhi, t, p);
    }
    GatherGives(run[t], grids[t], grids[0], messages, q, r, np);
  }

  lemma LastRowStays(grids: seq<Grid>, np: nat, jhi: int, t: nat, p: int)
    requires t < |grids| && np >= 2 && Sized(grids[0], np) && grids[0].u == grids[0].uhelp && jhi <= np - 1
    requires forall i {:trigger GridStep(grids, i, np, jhi)} :: 1 <= i < |grids| ==> GridStep(grids, i, np, jhi)
    requires (np - 1) * np <= p < np * np
    ensures Sized(grids[t], np) && grids[t].u[p] == grids[0].u[p]
  {
    MulLe(0, np - 1, np);
    EdgesStay(grids, np, jhi, t, p);
  }

  /** The first process has its own rows and those above, and the last row of all. */
  lemma FirstGridReads(ranks: seq<Rank>, g: Grid, g0: Grid, q: nat, r: nat, np: nat)
    requires AllMirror(ranks, g, q, r, np) && Sized(g0, np)
    requires forall p :: (np - 1) * np <= p < np * np ==> g.u[p] == g0.u[p]
    ensures |ranks[0].u| <= np * np && 0 <= First(1, q, r) * np <= (np - 1) * np <= np * np
    ensures var u := FirstGrid(ranks, g0);
      u[..First(1, q, r) * np] == g.u[..First(1, q, r) * np] && u[(np - 1) * np..] == g.u[(np - 1) * np..]
  {
    FirstStrip(ranks, g, q, r, np);
    var u, a, b := FirstGrid(ranks, g0), First(1, q, r) * np, (np - 1) * np;
    forall p | 0 <= p < a
      ensures u[p] == g.u[p]
    {
    }
    forall p | b <= p < np * np
      ensures u[p] == g.u[p]
    {
    }
    assert u[..a] == g.u[..a];
    assert u[b..] == g.u[b..];
  }

  lemma FirstStrip(ranks: seq<Rank>, g: Grid, q: nat, r: nat, np: nat)
    requires AllMirror(ranks, g, q, r, np)
    ensures var size := |ranks[0].u|; First(1, q, r) * np <= size <= np * np
    ensures 0 <= First(1, q, r) * np <= (np - 1) * np <= np * np
    ensures forall p :: 0 <= p < |ranks[0].u| ==> ranks[0].u[p] == g.u[p]
  {
    ShareFits(0, |ranks|, q, r, np);
    assert InPlace(ranks, g, 0, q, r, np);
    assert First(0, q, r) == 1 && First(1, q, r) == Count(0, q, r) + 1;
    MulLe(First(1, q, r), First(1, q, r) + 1, np);
    MulLe(First(1, q, r) + 1, np, np);
    MulLe(First(1, q, r), np - 1, np);
    MulLe(0, First(1, q, r), np);
    MulLe(np - 1, np, np);
    forall p | 0 <= p < |ranks[0].u|
      ensures ranks[0].u[p] == g.u[p]
    {
      assert ReadsAs(ranks[0].u, g.u, p, 0, q, r, np);
      assert (First(0, q, r) - 1) * np == 0;
    }
  }
}
