/** The Jacobi sweep of heat-mpi-ompss.c on the strip of rows of one process, and on the whole grid. */
module HeatSweep {
  import opened Common
  import opened Reorder
  import opened Stencil
  import opened Solver

  /** The two arrays of one process: its rows and one row of halo on either side. */
  datatype Rank = Rank(u: seq<real>, uhelp: seq<real>)

  /** The grid of np * np values held whole. */
  datatype Grid = Grid(u: seq<real>, uhelp: seq<real>)

  /** One sweep over rows 1..rows and columns 1..jhi-1 of a strip of rows + 2 rows. */
  function Relaxed(s: Rank, rows: int, np: int, jhi: int): State {
    Run(JacobiStep(s.u, rows + 2, np), State(s.uhelp, 0.0), Stencil.Block(1, rows + 1, 1, jhi))
  }

  /** That is the blocked Jacobi step of the solver on the strip. */
  lemma RelaxedIsJacobi(s: Rank, rows: int, np: int, bw: int, nb: int)
    requires rows >= 0
    ensures Relaxed(s, rows, np, Edge(nb, bw, np) + 1)
      == Run(JacobiStep(s.u, rows + 2, np), State(s.uhelp, 0.0), Sweep(rows + 2, np, rows + 2, bw, 1, nb))
  {
  }

  ghost predicate Sized(g: Grid, np: int) { |g.u| == |g.uhelp| == np * np }

  /** A process holds its part of the grid. */
  ghost predicate Mirrors(s: Rank, g: Grid, first: int, rows: int, np: int)
    requires Sized(g, np) && 1 <= first && 0 <= rows && first + rows + 1 <= np
  {
    && |s.u| == |s.uhelp| == (rows + 2) * np
    && forall p :: 0 <= p < (rows + 2) * np ==>
         StripInside(p, first, rows, np) && s.u[p] == g.u[p + (first - 1) * np]
         && s.uhelp[p] == g.uhelp[p + (first - 1) * np]
  }

  /** A position of the strip is a position of the grid. */
  predicate StripInside(p: int, first: int, rows: int, np: int) {
    0 <= p + (first - 1) * np < np * np
  }

  lemma InStrip(p: int, first: int, rows: int, np: int)
    requires 1 <= first && 0 <= rows && first + rows + 1 <= np && 0 <= p < (rows + 2) * np
    ensures StripInside(p, first, rows, np)
  {
    MulLe(0, first - 1, np);
    MulLe(first + rows + 1, np, np);
    assert (first - 1) * np + (rows + 2) * np == (first + rows + 1) * np;
  }

  /** Row and column of a position. */
  lemma Split(p: int, n: int, np: int) returns (a: int, j: int)
    requires 0 <= p < n * np && 0 < np
    ensures 0 <= a < n && 0 <= j < np && p == At(a, j, np)
  {
    a, j := p / np, p % np;
    if a >= n {
      MulLe(n, a, np);
    }
  }

  /** Relaxing the strip relaxes the block's own rows as relaxing the whole grid does, and leaves
      the halo rows alone. */
  lemma RelaxedStrip(s: Rank, g: Grid, first: int, rows: int, np: int, jhi: int, p: int)
    requires Sized(g, np) && 1 <= first && 1 <= rows && first + rows + 1 <= np && jhi <= np - 1
    requires Mirrors(s, g, first, rows, np) && 0 <= p < (rows + 2) * np
    ensures StripInside(p, first, rows, np)
    ensures |Relaxed(s, rows, np, jhi).u| == (rows + 2) * np &&
        |Relaxed(Rank(g.u, g.uhelp), np - 2, np, jhi).u| == np * np
    ensures np <= p < (rows + 1) * np ==>
      Relaxed(s, rows, np, jhi).u[p] == Relaxed(Rank(g.u, g.uhelp), np - 2, np, jhi).u[p + (first - 1) * np]
    ensures !(np <= p < (rows + 1) * np) ==> Relaxed(s, rows, np, jhi).u[p] == s.uhelp[p]
  {
    var a, j := Split(p, rows + 2, np);
    InStrip(p, first, rows, np);
    OwnRow(a, j, rows, np);
    RelaxedCell(s, g, first, rows, np, jhi, a, j, p, (first - 1) * np);
  }

  lemma RelaxedCell(s: Rank, g: Grid, first: int, rows: int, np: int, jhi: int, a: int, j: int, p: int, off: int)
    requires Sized(g, np) && 1 <= first && 1 <= rows && first + rows + 1 <= np && jhi <= np - 1
    requires Mirrors(s, g, first, rows, np) && 0 <= a < rows + 2 && 0 <= j < np
    requires p == At(a, j, np) && off == (first - 1) * np
    ensures var v, G := Relaxed(s, rows, np, jhi).u, Relaxed(Rank(g.u, g.uhelp), np - 2, np, jhi).u;
      && |v| == (rows + 2) * np && |G| == np * np && 0 <= p < |v| && 0 <= p + off < |G|
      && v[p] == if 1 <= a <= rows then G[p + off] else s.uhelp[p]
  {
    AtShift(a, j, first - 1, np);
    RelaxedAt(s, rows, np, jhi, a, j);
    RelaxedAt(Rank(g.u, g.uhelp), np - 2, np, jhi, first - 1 + a, j);
    assert StripInside(p, first, rows, np);
    if 1 <= a <= rows && 1 <= j < jhi {
      MeanMirrors(s, g, first, rows, np, p, off);
    }
  }

  /** The stencil reads the same four values in the strip and in the grid. */
  lemma MeanMirrors(s: Rank, g: Grid, first: int, rows: int, np: int, p: int, off: int)
    requires Sized(g, np) && 1 <= first && 1 <= rows && first + rows + 1 <= np && off == (first - 1) * np
    requires Mirrors(s, g, first, rows, np) && 0 < np <= p && p + np < |s.u|
    ensures 0 < np <= p + off && p + off + np < |g.u| && Mean(s.u, p, np) == Mean(g.u, p + off, np)
  {
    assert StripInside(p - np, first, rows, np) && StripInside(p + np, first, rows, np);
    assert StripInside(p - 1, first, rows, np) && StripInside(p + 1, first, rows, np);
  }

  /** What a sweep leaves in one place. */
  lemma RelaxedAt(s: Rank, rows: int, np: int, jhi: int, a: int, j: int)
    requires |s.u| == |s.uhelp| == (rows + 2) * np && 0 <= a < rows + 2 && 0 <= j < np && jhi <= np - 1
    ensures var p, v := At(a, j, np), Relaxed(s, rows, np, jhi).u;
      && |v| == (rows + 2) * np && 0 <= p < |v|
      && if 1 <= a <= rows && 1 <= j < jhi then 0 < np <= p && p + np < |v| && v[p] == Mean(s.u, p, np)
         else v[p] == s.uhelp[p]
  {
    var cells := Stencil.Block(1, rows + 1, 1, jhi);
    forall x | x in cells
      ensures Inner(x, rows + 2, np)
    {
      BlockMember(1, rows + 1, 1, jhi, x);
    }
    BlockMember(1, rows + 1, 1, jhi, Cell(a, j));
    JacobiDirect(s.u, rows + 2, np, State(s.uhelp, 0.0), cells, Cell(a, j));
  }

  lemma OwnRow(a: int, j: int, rows: int, np: int)
    requires 0 <= j < np
    ensures np <= At(a, j, np) < (rows + 1) * np <==> 1 <= a <= rows
  {
    if a < 1 {
      MulLe(a, 0, np);
    } else {
      MulLe(1, a, np);
    }
    if a > rows {
      MulLe(rows + 1, a, np);
    } else {
      MulLe(a + 1, rows + 1, np);
      MulNext(a, np);
    }
  }

  // ---------------------------------------------------------------- the residual

  /** The squared changes a Jacobi pass over some cells sums up. */
  function DiffSum(u: seq<real>, h: int, w: int, cs: seq<Cell>): real
    decreases |cs|
  {
    if cs == [] then 0.0 else DiffSum(u, h, w, cs[..|cs| - 1]) + Square(Change(u, h, w, cs[|cs| - 1]))
  }

  function Change(u: seq<real>, h: int, w: int, c: Cell): real {
    if Inner(c, h, w) && |u| == h * w then
      InnerInRange(c, h, w);
      Mean(u, At(c.i, c.j, w), w) - u[At(c.i, c.j, w)]
    else 0.0
  }

  lemma JacobiAdds(u: seq<real>, h: int, w: int, st: State, c: Cell)
    requires |u| == |st.u| == h * w
    ensures Jacobi(u, h, w, st, c).sum == st.sum + Square(Change(u, h, w, c)) && |Jacobi(u, h, w, st, c).u| == |u|
  {
    if Inner(c, h, w) {
      InnerInRange(c, h, w);
      var diff := Mean(u, At(c.i, c.j, w), w) - u[At(c.i, c.j, w)];
      assert Jacobi(u, h, w, st, c).sum == st.sum + Square(diff);
    }
  }

  lemma {:induction false} RunSum(u: seq<real>, h: int, w: int, st: State, cs: seq<Cell>)
    requires |u| == |st.u| == h * w
    ensures var r := Run(JacobiStep(u, h, w), st, cs);
      r.sum == st.sum + DiffSum(u, h, w, cs) && |r.u| == |u|
    decreases |cs|
  {
    if cs != [] {
      var n := |cs| - 1;
      RunSum(u, h, w, st, cs[..n]);
      JacobiAdds(u, h, w, Run(JacobiStep(u, h, w), st, cs[..n]), cs[n]);
    }
  }

  lemma {:induction false} DiffSumConcat(u: seq<real>, h: int, w: int, a: seq<Cell>, b: seq<Cell>)
    ensures DiffSum(u, h, w, a + b) == DiffSum(u, h, w, a) + DiffSum(u, h, w, b)
    decreases |b|
  {
    if b == [] {
      assert a + b == a;
    } else {
      assert (a + b)[..|a + b| - 1] == a + b[..|b| - 1];
      DiffSumConcat(u, h, w, a, b[..|b| - 1]);
    }
  }

  lemma {:induction false} BlockSplit(lo: int, mid: int, hi: int, jlo: int, jhi: int)
    requires lo <= mid <= hi
    ensures Stencil.Block(lo, hi, jlo, jhi) == Stencil.Block(lo, mid, jlo, jhi) + Stencil.Block(mid, hi, jlo, jhi)
    decreases hi - mid
  {
    if mid < hi {
      BlockSplit(lo, mid, hi - 1, jlo, jhi);
    }
  }

  /** A cell of the block changes in the strip as it does in the grid. */
  lemma DiffMirrors(s: Rank, g: Grid, first: int, rows: int, np: int, a: int, j: int)
    requires Sized(g, np) && 1 <= first && 1 <= rows && first + rows + 1 <= np
    requires Mirrors(s, g, first, rows, np) && 1 <= a <= rows && 1 <= j <= np - 2
    ensures Change(s.u, rows + 2, np, Cell(a, j)) == Change(g.u, np, np, Cell(first - 1 + a, j))
  {
    var p, off := At(a, j, np), (first - 1) * np;
    ChangeIs(s.u, rows + 2, np, Cell(a, j), p);
    AtShift(a, j, first - 1, np);
    ChangeIs(g.u, np, np, Cell(first - 1 + a, j), p + off);
    ChangeAt(s, g, first, rows, np, p, off);
  }

  lemma ChangeIs(u: seq<real>, h: int, w: int, c: Cell, p: int)
    requires Inner(c, h, w) && |u| == h * w && p == At(c.i, c.j, w)
    ensures 0 < w <= p && p + w < |u| && Change(u, h, w, c) == Mean(u, p, w) - u[p]
  {
    InnerInRange(c, h, w);
  }

  lemma AtShift(a: int, j: int, d: int, np: int)
    ensures At(d + a, j, np) == At(a, j, np) + d * np
  {
  }

  lemma ChangeAt(s: Rank, g: Grid, first: int, rows: int, np: int, p: int, off: int)
    requires Sized(g, np) && 1 <= first && 1 <= rows && first + rows + 1 <= np && off == (first - 1) * np
    requires Mirrors(s, g, first, rows, np) && 0 < np <= p && p + np < |s.u|
    ensures 0 < np <= p + off && p + off + np < |g.u|
    ensures Mean(s.u, p, np) - s.u[p] == Mean(g.u, p + off, np) - g.u[p + off]
  {
    MeanMirrors(s, g, first, rows, np, p, off);
    assert StripInside(p, first, rows, np);
  }

  lemma {:induction false} RowSumMirrors(s: Rank, g: Grid, first: int, rows: int, np: int, a: int, jhi: int)
    requires Sized(g, np) && 1 <= first && 1 <= rows && first + rows + 1 <= np && jhi <= np - 1
    requires Mirrors(s, g, first, rows, np) && 1 <= a <= rows
    ensures DiffSum(s.u, rows + 2, np, Row(a, 1, jhi)) == DiffSum(g.u, np, np, Row(first - 1 + a, 1, jhi))
    decreases jhi
  {
    if jhi > 1 {
      RowSumMirrors(s, g, first, rows, np, a, jhi - 1);
      DiffMirrors(s, g, first, rows, np, a, jhi - 1);
      DiffSumSnoc(s.u, rows + 2, np, Row(a, 1, jhi - 1), Cell(a, jhi - 1));
      DiffSumSnoc(g.u, np, np, Row(first - 1 + a, 1, jhi - 1), Cell(first - 1 + a, jhi - 1));
    }
  }

  lemma DiffSumSnoc(u: seq<real>, h: int, w: int, cs: seq<Cell>, c: Cell)
    ensures DiffSum(u, h, w, cs + [c]) == DiffSum(u, h, w, cs) + Square(Change(u, h, w, c))
  {
    assert (cs + [c])[..|cs|] == cs;
  }

  lemma {:induction false} BlockSumMirrors(s: Rank, g: Grid, first: int, rows: int, np: int, a: int, jhi: int)
    requires Sized(g, np) && 1 <= first && 1 <= rows && first + rows + 1 <= np && jhi <= np - 1
    requires Mirrors(s, g, first, rows, np) && 0 <= a <= rows
    ensures DiffSum(s.u, rows + 2, np, Stencil.Block(1, a + 1, 1, jhi))
         == DiffSum(g.u, np, np, Stencil.Block(first, first + a, 1, jhi))
    decreases a
  {
    if a > 0 {
      BlockSumMirrors(s, g, first, rows, np, a - 1, jhi);
      RowSumMirrors(s, g, first, rows, np, a, jhi);
      DiffSumConcat(s.u, rows + 2, np, Stencil.Block(1, a, 1, jhi), Row(a, 1, jhi));
      DiffSumConcat(g.u, np, np, Stencil.Block(first, first + a - 1, 1, jhi), Row(first - 1 + a, 1, jhi));
    }
  }

  lemma ResidualOfStrip(s: Rank, g: Grid, first: int, rows: int, np: int, jhi: int)
    requires Sized(g, np) && 1 <= first && 1 <= rows && first + rows + 1 <= np && jhi <= np - 1
    requires Mirrors(s, g, first, rows, np)
    ensures Relaxed(s, rows, np, jhi).sum == DiffSum(g.u, np, np, Stencil.Block(first, first + rows, 1, jhi))
  {
    RunSum(s.u, rows + 2, np, State(s.uhelp, 0.0), Stencil.Block(1, rows + 1, 1, jhi));
    BlockSumMirrors(s, g, first, rows, np, rows, jhi);
  }

  // ---------------------------------------------------------------- the whole grid

  /** The same iteration on the whole grid. */
  function RelaxWhole(g: Grid, np: nat, jhi: int): State { Relaxed(Rank(g.u, g.uhelp), np - 2, np, jhi) }

  function StepGrid(g: Grid, np: nat, jhi: int): Grid { Grid(RelaxWhole(g, np, jhi).u, RelaxWhole(g, np, jhi).u) }

  /** The whole grid is the strip of a process that owns every row. */
  lemma WholeMirrors(g: Grid, np: int)
    requires Sized(g, np) && np >= 3
    ensures Mirrors(Rank(g.u, g.uhelp), g, 1, np - 2, np)
  {
    var rows := np - 2;
    forall p | 0 <= p < np * np
      ensures StripInside(p, 1, rows, np)
    {
      InStrip(p, 1, rows, np);
    }
  }

  /** The whole sweep leaves the first and last row of the grid alone. */
  lemma EdgesKept(g: Grid, np: nat, jhi: int, p: int)
    requires Sized(g, np) && np >= 2 && jhi <= np - 1 && 0 <= p < np * np
    ensures var G := RelaxWhole(g, np, jhi).u;
      |G| == np * np && (p < np || (np - 1) * np <= p ==> G[p] == g.uhelp[p])
  {
    if np >= 3 {
      WholeMirrors(g, np);
      RelaxedStrip(Rank(g.u, g.uhelp), g, 1, np - 2, np, jhi, p);
    }
  }
}
