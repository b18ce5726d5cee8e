/** One relaxation of one cell on a flat row-major grid, and the geometry of tiles. */
module Stencil {
  import opened Common
  import opened Reorder

  datatype Cell = Cell(i: int, j: int)

  /** Grid of h rows of w columns, stored flat, with the residual gathered so far. */
  datatype State = State(u: seq<real>, sum: real)

  function At(i: int, j: int, w: int): int { i * w + j }

  predicate Inner(c: Cell, h: int, w: int) {
    1 <= c.i <= h - 2 && 1 <= c.j <= w - 2
  }

  lemma AtInRange(i: int, j: int, h: int, w: int)
    requires 0 <= i < h && 0 <= j < w
    ensures 0 <= At(i, j, w) < h * w
  {
    MulLe(0, i, w);
    MulLe(i + 1, h, w);
    MulNext(i, w);
  }

  lemma AtInjective(i: int, j: int, k: int, l: int, w: int)
    requires 0 <= j < w && 0 <= l < w && At(i, j, w) == At(k, l, w)
    ensures i == k && j == l
  {
    if i < k {
      MulLe(i + 1, k, w);
      MulNext(i, w);
    } else if k < i {
      MulLe(k + 1, i, w);
      MulNext(k, w);
    }
  }

  lemma AtNeighbours(i: int, j: int, w: int)
    ensures At(i, j - 1, w) == At(i, j, w) - 1 && At(i, j + 1, w) == At(i, j, w) + 1
    ensures At(i - 1, j, w) == At(i, j, w) - w && At(i + 1, j, w) == At(i, j, w) + w
  {
  }

  /** The four-point mean around flat index p. */
  function Mean(u: seq<real>, p: int, w: int): real
    requires 0 < w <= p && p + w < |u|
  {
    0.25 * (u[p - 1] + u[p + 1] + u[p - w] + u[p + w])
  }

  lemma InnerInRange(c: Cell, h: int, w: int)
    requires Inner(c, h, w)
    ensures 0 < w <= At(c.i, c.j, w) && At(c.i, c.j, w) + w < h * w
  {
    AtInRange(c.i - 1, c.j, h, w);
    AtInRange(c.i + 1, c.j, h, w);
    AtNeighbours(c.i, c.j, w);
  }

  function Square(x: real): real { x * x }

  /** Relaxing one cell in place; cells outside the interior are never touched. */
  function Relax(h: int, w: int, st: State, c: Cell): State {
    if Inner(c, h, w) && |st.u| == h * w then
      InnerInRange(c, h, w);
      var p := At(c.i, c.j, w);
      var unew := Mean(st.u, p, w);
      var diff := unew - st.u[p];
      State(st.u[p := unew], st.sum + Square(diff))
    else st
  }

  function RelaxStep(h: int, w: int): (State, Cell) -> State {
    (st: State, c: Cell) => Relax(h, w, st, c)
  }

  /** Cell a is the upper or left neighbour of cell b. */
  predicate Feeds(a: Cell, b: Cell) {
    (a.i == b.i && a.j + 1 == b.j) || (a.i + 1 == b.i && a.j == b.j)
  }

  /** Relaxing two cells that are not neighbours commutes, residual included. */
  lemma RelaxCommutes(h: int, w: int, a: Cell, b: Cell)
    requires !Feeds(a, b) && !Feeds(b, a)
    ensures Commute(RelaxStep(h, w), a, b)
  {
    if a != b && Inner(a, h, w) && Inner(b, h, w) {
      var p, q := At(a.i, a.j, w), At(b.i, b.j, w);
      InnerInRange(a, h, w);
      InnerInRange(b, h, w);
      Apart(a, b, h, w);
      forall st: State
        ensures Relax(h, w, Relax(h, w, st, a), b) == Relax(h, w, Relax(h, w, st, b), a)
      {
        if |st.u| == h * w {
          RelaxTwice(st.u, st.sum, p, q, w);
        }
      }
    }
  }

  lemma Apart(a: Cell, b: Cell, h: int, w: int)
    requires a != b && !Feeds(a, b) && !Feeds(b, a) && Inner(a, h, w) && Inner(b, h, w)
    ensures var p, q := At(a.i, a.j, w), At(b.i, b.j, w); q !in {p, p - 1, p + 1, p - w, p + w}
  {
    AtNeighbours(a.i, a.j, w);
    var q := At(b.i, b.j, w);
    if q == At(a.i, a.j, w) { AtInjective(b.i, b.j, a.i, a.j, w); }
    if q == At(a.i, a.j - 1, w) { AtInjective(b.i, b.j, a.i, a.j - 1, w); }
    if q == At(a.i, a.j + 1, w) { AtInjective(b.i, b.j, a.i, a.j + 1, w); }
    if q == At(a.i - 1, a.j, w) { AtInjective(b.i, b.j, a.i - 1, a.j, w); }
    if q == At(a.i + 1, a.j, w) { AtInjective(b.i, b.j, a.i + 1, a.j, w); }
  }

  lemma RelaxTwice(u: seq<real>, sum: real, p: int, q: int, w: int)
    requires 0 < w <= p && p + w < |u| && w <= q && q + w < |u|
    requires q !in {p, p - 1, p + 1, p - w, p + w}
    ensures Mean(u[p := Mean(u, p, w)], q, w) == Mean(u, q, w) && Mean(u[q := Mean(u, q, w)], p, w) == Mean(u, p, w)
    ensures u[p := Mean(u, p, w)][q := Mean(u, q, w)] == u[q := Mean(u, q, w)][p := Mean(u, p, w)]
  {
  }

  // ---------------------------------------------------------------- orders of cells

  function Row(i: int, lo: int, hi: int): seq<Cell>
    decreases hi - lo
  {
    if hi <= lo then [] else Row(i, lo, hi - 1) + [Cell(i, hi - 1)]
  }

  /** A rectangle of cells, row by row. */
  function Block(ilo: int, ihi: int, jlo: int, jhi: int): seq<Cell>
    decreases ihi - ilo
  {
    if ihi <= ilo then [] else Block(ilo, ihi - 1, jlo, jhi) + Row(ihi - 1, jlo, jhi)
  }

  lemma {:induction false} RowMember(i: int, lo: int, hi: int, c: Cell)
    ensures c in Row(i, lo, hi) <==> c.i == i && lo <= c.j < hi
    decreases hi - lo
  {
    if lo < hi {
      RowMember(i, lo, hi - 1, c);
    }
  }

  lemma {:induction false} BlockMember(ilo: int, ihi: int, jlo: int, jhi: int, c: Cell)
    ensures c in Block(ilo, ihi, jlo, jhi) <==> ilo <= c.i < ihi && jlo <= c.j < jhi
    decreases ihi - ilo
  {
    if ilo < ihi {
      BlockMember(ilo, ihi - 1, jlo, jhi, c);
      RowMember(ihi - 1, jlo, jhi, c);
    }
  }

  /** No cell twice, and none before the upper or left neighbour it reads. */
  ghost predicate Ascending(s: seq<Cell>) {
    forall a, b :: 0 <= a < b < |s| ==> s[a] != s[b] && !Feeds(s[b], s[a])
  }

  lemma AscendingConcat(s: seq<Cell>, t: seq<Cell>)
    requires Ascending(s) && Ascending(t)
    requires forall x, y :: x in s && y in t ==> x != y && !Feeds(y, x)
    ensures Ascending(s + t)
  {
    forall a, b | 0 <= a < b < |s + t|
      ensures (s + t)[a] != (s + t)[b] && !Feeds((s + t)[b], (s + t)[a])
    {
      if a < |s| <= b {
        assert (s + t)[a] in s && (s + t)[b] in t;
      }
    }
  }

  lemma {:induction false} RowAscending(i: int, lo: int, hi: int)
    ensures Ascending(Row(i, lo, hi))
    decreases hi - lo
  {
    if lo < hi {
      RowAscending(i, lo, hi - 1);
      var left := Row(i, lo, hi - 1);
      forall x | x in left
        ensures x != Cell(i, hi - 1) && !Feeds(Cell(i, hi - 1), x)
      {
        RowMember(i, lo, hi - 1, x);
      }
      AscendingConcat(Row(i, lo, hi - 1), [Cell(i, hi - 1)]);
    }
  }

  lemma {:induction false} BlockAscending(ilo: int, ihi: int, jlo: int, jhi: int)
    ensures Ascending(Block(ilo, ihi, jlo, jhi))
    decreases ihi - ilo
  {
    if ilo < ihi {
      BlockAscending(ilo, ihi - 1, jlo, jhi);
      RowAscending(ihi - 1, jlo, jhi);
      var above, row := Block(ilo, ihi - 1, jlo, jhi), Row(ihi - 1, jlo, jhi);
      forall x, y | x in above && y in row
        ensures x != y && !Feeds(y, x)
      {
        BlockMember(ilo, ihi - 1, jlo, jhi, x);
        RowMember(ihi - 1, jlo, jhi, y);
      }
      AscendingConcat(Block(ilo, ihi - 1, jlo, jhi), Row(ihi - 1, jlo, jhi));
    }
  }

  /** Two ascending orders of the same cells relax to the same grid and residual. */
  lemma AscendingSameRun(h: int, w: int, st: State, s: seq<Cell>, t: seq<Cell>)
    requires Ascending(s) && Ascending(t) && forall c :: c in s <==> c in t
    ensures Run(RelaxStep(h, w), st, s) == Run(RelaxStep(h, w), st, t)
  {
    forall a, b, c, d | 0 <= a < b < |s| && 0 <= c < d < |t| && s[a] == t[d] && s[b] == t[c]
      ensures Commute(RelaxStep(h, w), s[a], s[b])
    {
      RelaxCommutes(h, w, s[a], s[b]);
    }
    SameRun(RelaxStep(h, w), st, s, t);
  }

  // ---------------------------------------------------------------- tiles

  datatype Tile = Tile(ii: int, jj: int)

  /** Last row or column of the n-th tile along an axis of `size` points in blocks of b. */
  function Edge(n: int, b: int, size: int): int { Min(n * b, size - 2) }

  predicate InTile(h: int, w: int, bh: int, bw: int, t: Tile, c: Cell) {
    t.ii * bh < c.i <= Edge(t.ii + 1, bh, h) && t.jj * bw < c.j <= Edge(t.jj + 1, bw, w)
  }

  function TileCells(h: int, w: int, bh: int, bw: int, t: Tile): seq<Cell> {
    Block(1 + t.ii * bh, Edge(t.ii + 1, bh, h) + 1, 1 + t.jj * bw, Edge(t.jj + 1, bw, w) + 1)
  }

  lemma TileMember(h: int, w: int, bh: int, bw: int, t: Tile, c: Cell)
    ensures c in TileCells(h, w, bh, bw, t) <==> InTile(h, w, bh, bw, t, c)
  {
    BlockMember(1 + t.ii * bh, Edge(t.ii + 1, bh, h) + 1, 1 + t.jj * bw, Edge(t.jj + 1, bw, w) + 1, c);
  }

  function TileStep(h: int, w: int, bh: int, bw: int): (State, Tile) -> State {
    (st: State, t: Tile) => Run(RelaxStep(h, w), st, TileCells(h, w, bh, bw, t))
  }

  function AllCells(h: int, w: int, bh: int, bw: int, tiles: seq<Tile>): seq<Cell>
    decreases |tiles|
  {
    if tiles == [] then []
    else AllCells(h, w, bh, bw, tiles[..|tiles| - 1]) + TileCells(h, w, bh, bw, tiles[|tiles| - 1])
  }

  /** Relaxing tile by tile is relaxing the cells of the tiles one after the other. */
  lemma {:induction false} TilesAreCells(h: int, w: int, bh: int, bw: int, st: State, tiles: seq<Tile>)
    ensures Run(TileStep(h, w, bh, bw), st, tiles) == Run(RelaxStep(h, w), st, AllCells(h, w, bh, bw, tiles))
    decreases |tiles|
  {
    if tiles != [] {
      var n := |tiles| - 1;
      TilesAreCells(h, w, bh, bw, st, tiles[..n]);
      RunConcat(RelaxStep(h, w), st, AllCells(h, w, bh, bw, tiles[..n]), TileCells(h, w, bh, bw, tiles[n]));
    }
  }

  lemma {:induction false} TileOfCell(h: int, w: int, bh: int, bw: int, tiles: seq<Tile>, c: Cell) returns (k: nat)
    requires c in AllCells(h, w, bh, bw, tiles)
    ensures k < |tiles| && c in TileCells(h, w, bh, bw, tiles[k])
    decreases |tiles|
  {
    var n := |tiles| - 1;
    if c in TileCells(h, w, bh, bw, tiles[n]) {
      k := n;
    } else {
      k := TileOfCell(h, w, bh, bw, tiles[..n], c);
    }
  }

  lemma {:induction false} CellOfTile(h: int, w: int, bh: int, bw: int, tiles: seq<Tile>, c: Cell, k: nat)
    requires k < |tiles| && c in TileCells(h, w, bh, bw, tiles[k])
    ensures c in AllCells(h, w, bh, bw, tiles)
    decreases |tiles|
  {
    var n := |tiles| - 1;
    if k < n {
      CellOfTile(h, w, bh, bw, tiles[..n], c, k);
    }
  }

  /** Along one axis, the tile a point lies in orders the points. */
  lemma TileOrder(x: int, y: int, n: int, m: int, b: int)
    requires n * b < x <= (n + 1) * b && m * b < y <= (m + 1) * b
    ensures n < m ==> x < y
    ensures y == x + 1 ==> m == n || m == n + 1
  {
    MulNext(n, b);
    MulNext(m, b);
    if n < m {
      MulLe(n + 1, m, b);
    }
    if m < n {
      MulLe(m + 1, n, b);
    }
    if m > n + 1 {
      MulLe(n + 2, m, b);
      MulNext(n + 1, b);
    }
  }

  lemma SameTileAxis(x: int, n: int, m: int, b: int)
    requires n * b < x <= (n + 1) * b && m * b < x <= (m + 1) * b
    ensures n == m
  {
    TileOrder(x, x, n, m, b);
    TileOrder(x, x, m, n, b);
  }

  /** A cell lies in one tile only. */
  lemma TilesDisjoint(h: int, w: int, bh: int, bw: int, t: Tile, t': Tile, c: Cell)
    requires c in TileCells(h, w, bh, bw, t) && c in TileCells(h, w, bh, bw, t')
    ensures t == t'
  {
    TileMember(h, w, bh, bw, t, c);
    TileMember(h, w, bh, bw, t', c);
    SameTileAxis(c.i, t.ii, t'.ii, bh);
    SameTileAxis(c.j, t.jj, t'.jj, bw);
  }

  /** Cells of a tile further down, or right in the same row, feed no cell of this one. */
  lemma LaterTileFeedsNot(h: int, w: int, bh: int, bw: int, t: Tile, t': Tile, x: Cell, y: Cell)
    requires t.ii < t'.ii || (t.ii == t'.ii && t.jj < t'.jj)
    requires x in TileCells(h, w, bh, bw, t) && y in TileCells(h, w, bh, bw, t')
    ensures x != y && !Feeds(y, x)
  {
    TileMember(h, w, bh, bw, t, x);
    TileMember(h, w, bh, bw, t', y);
    TileOrder(x.i, y.i, t.ii, t'.ii, bh);
    TileOrder(x.j, y.j, t.jj, t'.jj, bw);
  }

  /** Neighbouring cells of different tiles lie in tiles of different colour. */
  lemma ColoursApart(h: int, w: int, bh: int, bw: int, t: Tile, t': Tile, c: Cell, c': Cell)
    requires c in TileCells(h, w, bh, bw, t) && c' in TileCells(h, w, bh, bw, t') && Feeds(c, c')
    ensures t == t' || (t.ii + t.jj) % 2 != (t'.ii + t'.jj) % 2
  {
    TileMember(h, w, bh, bw, t, c);
    TileMember(h, w, bh, bw, t', c');
    if c.i == c'.i {
      SameTileAxis(c.i, t.ii, t'.ii, bh);
      TileOrder(c.j, c'.j, t.jj, t'.jj, bw);
    } else {
      SameTileAxis(c.j, t.jj, t'.jj, bw);
      TileOrder(c.i, c'.i, t.ii, t'.ii, bh);
    }
  }

  lemma SameColourCommutes(h: int, w: int, bh: int, bw: int, t: Tile, t': Tile)
    requires t != t' && (t.ii + t.jj) % 2 == (t'.ii + t'.jj) % 2
    ensures Commute(TileStep(h, w, bh, bw), t, t')
  {
    var a, b := TileCells(h, w, bh, bw, t), TileCells(h, w, bh, bw, t');
    forall x: Cell, y: Cell | x in a && y in b
      ensures Commute(RelaxStep(h, w), x, y)
    {
      if Feeds(x, y) { ColoursApart(h, w, bh, bw, t, t', x, y); }
      if Feeds(y, x) { ColoursApart(h, w, bh, bw, t', t, y, x); }
      RelaxCommutes(h, w, x, y);
    }
    forall st: State
      ensures TileStep(h, w, bh, bw)(TileStep(h, w, bh, bw)(st, t), t') ==
          TileStep(h, w, bh, bw)(TileStep(h, w, bh, bw)(st, t'), t)
    {
      RunSwap(RelaxStep(h, w), st, a, b);
    }
  }

  /** However distinct tiles are ordered, no cell is relaxed twice. */
  lemma {:induction false} CellsOnce(h: int, w: int, bh: int, bw: int, tiles: seq<Tile>)
    requires NoDup(tiles)
    ensures NoDup(AllCells(h, w, bh, bw, tiles))
    decreases |tiles|
  {
    if tiles != [] {
      var n := |tiles| - 1;
      var a, b := AllCells(h, w, bh, bw, tiles[..n]), TileCells(h, w, bh, bw, tiles[n]);
      CellsOnce(h, w, bh, bw, tiles[..n]);
      BlockAscending(1 + tiles[n].ii * bh, Edge(tiles[n].ii + 1, bh, h) + 1,
                     1 + tiles[n].jj * bw, Edge(tiles[n].jj + 1, bw, w) + 1);
      forall x | x in a && x in b
        ensures false
      {
        var k := TileOfCell(h, w, bh, bw, tiles[..n], x);
        TilesDisjoint(h, w, bh, bw, tiles[k], tiles[n], x);
        assert false;
      }
      assert forall i :: 0 <= i < |a| ==> a[i] in a;
      assert forall i :: 0 <= i < |b| ==> b[i] in b;
    }
  }
}
