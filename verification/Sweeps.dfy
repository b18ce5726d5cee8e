/** What the sweeps compute, said without the sweeps: the equation every cell satisfies afterwards, the
    residual as the sum of the squared changes, and when nothing changes. */
module Sweeps {
  import opened Common
  import opened Reorder
  import opened Stencil
  import opened Solver

  predicate OnGrid(c: Cell, h: int, w: int) { 0 <= c.i < h && 0 <= c.j < w }

  function Left(c: Cell): Cell { Cell(c.i, c.j - 1) }

  function Right(c: Cell): Cell { Cell(c.i, c.j + 1) }

  function Above(c: Cell): Cell { Cell(c.i - 1, c.j) }

  function Below(c: Cell): Cell { Cell(c.i + 1, c.j) }

  /** The value at row i, column j of a flat grid with rows of w values. */
  function Value(u: seq<real>, c: Cell, w: int): real {
    if 0 <= c.i * w + c.j < |u| then u[c.i * w + c.j] else 0.0
  }

  lemma ValueAt(u: seq<real>, c: Cell, h: int, w: int)
    requires |u| == h * w && OnGrid(c, h, w)
    ensures 0 <= At(c.i, c.j, w) < |u| && Value(u, c, w) == u[At(c.i, c.j, w)]
  {
    AtInRange(c.i, c.j, h, w);
  }

  /** The mean of the four neighbours. */
  function Average(u: seq<real>, c: Cell, w: int): real {
    0.25 * (Value(u, Left(c), w) + Value(u, Right(c), w) + Value(u, Above(c), w) + Value(u, Below(c), w))
  }

  /** Relaxing a cell writes that mean there and nothing elsewhere. */
  lemma RelaxValue(h: int, w: int, st: State, c: Cell, d: Cell)
    requires |st.u| == h * w && Inner(c, h, w) && OnGrid(d, h, w)
    ensures var r := Relax(h, w, st, c).u;
      |r| == |st.u| && Value(r, d, w) == if d == c then Average(st.u, c, w) else Value(st.u, d, w)
  {
    FourValues(st.u, h, w, c);
    ValueAt(st.u, d, h, w);
    ValueAt(Relax(h, w, st, c).u, d, h, w);
    if At(c.i, c.j, w) == At(d.i, d.j, w) {
      AtInjective(c.i, c.j, d.i, d.j, w);
    }
  }

  lemma FourValues(u: seq<real>, h: int, w: int, c: Cell)
    requires |u| == h * w && Inner(c, h, w)
    ensures var p := At(c.i, c.j, w);
      && 0 < w <= p && p + w < |u| && Value(u, c, w) == u[p]
      && Value(u, Left(c), w) == u[p - 1] && Value(u, Right(c), w) == u[p + 1]
      && Value(u, Above(c), w) == u[p - w] && Value(u, Below(c), w) == u[p + w]
  {
    InnerInRange(c, h, w);
    AtNeighbours(c.i, c.j, w);
    ValueAt(u, c, h, w);
    ValueAt(u, Left(c), h, w);
    ValueAt(u, Right(c), h, w);
    ValueAt(u, Above(c), h, w);
    ValueAt(u, Below(c), h, w);
  }

  ghost predicate AllInner(cs: seq<Cell>, h: int, w: int) { forall c :: c in cs ==> Inner(c, h, w) }

  /** A cell that is not in the list keeps its value. */
  lemma {:induction false} RunKeeps(h: int, w: int, st: State, cs: seq<Cell>, d: Cell)
    requires |st.u| == h * w && AllInner(cs, h, w) && OnGrid(d, h, w)
    ensures var r := Run(RelaxStep(h, w), st, cs);
      |r.u| == |st.u| && (d !in cs ==> Value(r.u, d, w) == Value(st.u, d, w))
    decreases |cs|
  {
    if cs != [] {
      var n := |cs| - 1;
      RunKeeps(h, w, st, cs[..n], d);
      assert cs[n] in cs;
      RelaxValue(h, w, Run(RelaxStep(h, w), st, cs[..n]), cs[n], d);
    }
  }

  /** What a cell with the given ones before it reads at d: the new value if d is one of them. */
  function Seen(u: seq<real>, r: seq<real>, before: seq<Cell>, d: Cell, w: int): real {
    if d in before then Value(r, d, w) else Value(u, d, w)
  }

  /** In any order that has no cell twice, every cell gets the mean of its neighbours, new for those
      before it and old for the others. */
  lemma RelaxedOnce(h: int, w: int, st: State, before: seq<Cell>, c: Cell, after: seq<Cell>)
    requires |st.u| == h * w && AllInner(before + [c] + after, h, w) && NoDup(before + [c] + after)
    ensures var u, r := st.u, Run(RelaxStep(h, w), st, before + [c] + after).u;
      |r| == |u| && Value(r, c, w) == 0.25 * (Seen(u, r, before, Left(c), w) + Seen(u, r, before, Right(c), w)
                                              + Seen(u, r, before, Above(c), w) + Seen(u, r, before, Below(c), w))
  {
    var step := RelaxStep(h, w);
    assert (before + [c] + after)[|before|] == c;
    RunConcat(step, st, before + [c], after);
    RunSnoc(step, st, before, c);
    Parts(h, w, before, c, after);
    var mid := Run(step, st, before);
    RunKeeps(h, w, st, before, c);
    RelaxValue(h, w, mid, c, c);
    RunKeeps(h, w, Relax(h, w, mid, c), after, c);
    SeenIs(h, w, st, before, c, after, Left(c));
    SeenIs(h, w, st, before, c, after, Right(c));
    SeenIs(h, w, st, before, c, after, Above(c));
    SeenIs(h, w, st, before, c, after, Below(c));
  }

  lemma Parts(h: int, w: int, before: seq<Cell>, c: Cell, after: seq<Cell>)
    requires AllInner(before + [c] + after, h, w) && NoDup(before + [c] + after)
    ensures AllInner(before, h, w) && AllInner(after, h, w) && Inner(c, h, w) && c !in before && c !in after
    ensures forall d :: d in before ==> d !in after
  {
    var all, n := before + [c] + after, |before|;
    assert all[n] == c && c in all;
    forall k | 0 <= k < n
      ensures before[k] != c && before[k] !in after && Inner(before[k], h, w)
    {
      assert all[k] == before[k] && before[k] in all;
      forall l | 0 <= l < |after|
        ensures after[l] != before[k]
      {
        assert all[n + 1 + l] == after[l];
      }
    }
    forall l | 0 <= l < |after|
      ensures after[l] != c && Inner(after[l], h, w)
    {
      assert all[n + 1 + l] == after[l] && after[l] in all;
    }
  }

  /** What the cell reads at d. */
  lemma SeenIs(h: int, w: int, st: State, before: seq<Cell>, c: Cell, after: seq<Cell>, d: Cell)
    requires |st.u| == h * w && AllInner(before + [c] + after, h, w) && NoDup(before + [c] + after)
    requires OnGrid(d, h, w) && d != c
    ensures var r := Run(RelaxStep(h, w), st, before + [c] + after).u;
      Value(Run(RelaxStep(h, w), st, before).u, d, w) == Seen(st.u, r, before, d, w)
  {
    var step := RelaxStep(h, w);
    RunConcat(step, st, before + [c], after);
    RunSnoc(step, st, before, c);
    Parts(h, w, before, c, after);
    var mid := Run(step, st, before);
    RunKeeps(h, w, st, before, d);
    RelaxValue(h, w, mid, c, d);
    RunKeeps(h, w, Relax(h, w, mid, c), after, d);
  }

  // ---------------------------------------------------------------- Gauss-Seidel

  lemma AscendingOnce(s: seq<Cell>, k: nat)
    requires Ascending(s) && k < |s|
    ensures NoDup(s) && s == s[..k] + [s[k]] + s[k + 1..]
    ensures Left(s[k]) !in s[k + 1..] && Above(s[k]) !in s[k + 1..]
    ensures Right(s[k]) !in s[..k] && Below(s[k]) !in s[..k]
  {
    var c := s[k];
    forall a | 0 <= a < k
      ensures s[a] != Right(c) && s[a] != Below(c)
    {
      assert !Feeds(s[k], s[a]);
    }
    forall b | k < b < |s|
      ensures s[b] != Left(c) && s[b] != Above(c)
    {
      assert !Feeds(s[b], s[k]);
    }
  }

  /** In an order that does no cell before its upper or left neighbour, these two are read new. */
  lemma AscendingEquation(h: int, w: int, st: State, s: seq<Cell>, k: nat)
    requires |st.u| == h * w && AllInner(s, h, w) && Ascending(s) && k < |s|
    ensures var u, r, c := st.u, Run(RelaxStep(h, w), st, s).u, s[k];
      Value(r, c, w)
      == 0.25 * (Value(r, Left(c), w) + Value(u, Right(c), w) + Value(r, Above(c), w) + Value(u, Below(c), w))
  {
    var c := s[k];
    AscendingOnce(s, k);
    assert c in s;
    RelaxedOnce(h, w, st, s[..k], c, s[k + 1..]);
    RunKeeps(h, w, st, s, Left(c));
    RunKeeps(h, w, st, s, Above(c));
  }

  lemma SweepInner(h: int, w: int, bh: int, bw: int, rows: int, nb: int)
    ensures AllInner(Sweep(h, w, bh, bw, rows, nb), h, w)
  {
    forall c | c in Sweep(h, w, bh, bw, rows, nb)
      ensures Inner(c, h, w)
    {
      SweepMember(h, w, bh, bw, rows, nb, c);
    }
  }

  /** After a Gauss-Seidel step every covered cell is the mean of its left and upper neighbours as
      they are now and its right and lower ones as they were; no other cell has changed. */
  lemma GaussEquation(h: int, w: int, nb: int, st: State, c: Cell)
    requires h >= 2 && w >= 2 && nb > 0 && |st.u| == h * w && OnGrid(c, h, w)
    ensures var u, r := st.u, Run(RelaxStep(h, w), st, Sweep(h, w, h / nb, w / nb, nb, nb)).u;
      Value(r, c, w) == if Covered(c, h, w, h / nb, w / nb, nb, nb)
        then 0.25 * (Value(r, Left(c), w) + Value(u, Right(c), w) + Value(r, Above(c), w) + Value(u, Below(c), w))
        else Value(u, c, w)
  {
    var s := Sweep(h, w, h / nb, w / nb, nb, nb);
    SweepInner(h, w, h / nb, w / nb, nb, nb);
    SweepMember(h, w, h / nb, w / nb, nb, nb, c);
    if c in s {
      var k :| 0 <= k < |s| && s[k] == c;
      BlockAscending(1, Edge(nb, h / nb, h) + 1, 1, Edge(nb, w / nb, w) + 1);
      AscendingEquation(h, w, st, s, k);
    } else {
      RunKeeps(h, w, st, s, c);
    }
  }

  // ---------------------------------------------------------------- red-black

  lemma {:induction false} AllCellsConcat(h: int, w: int, bh: int, bw: int, a: seq<Tile>, b: seq<Tile>)
    ensures AllCells(h, w, bh, bw, a + b) == AllCells(h, w, bh, bw, a) + AllCells(h, w, bh, bw, b)
    decreases |b|
  {
    if b == [] {
      assert a + b == a;
    } else {
      assert (a + b)[..|a + b| - 1] == a + b[..|b| - 1];
      AllCellsConcat(h, w, bh, bw, a, b[..|b| - 1]);
    }
  }

  lemma OneTile(h: int, w: int, bh: int, bw: int, t: Tile)
    ensures AllCells(h, w, bh, bw, [t]) == TileCells(h, w, bh, bw, t)
  {
    assert [t][..0] == [];
    assert AllCells(h, w, bh, bw, []) == [];
  }

  /** The cells before the m-th one of tile t, when t comes after the tiles a. */
  function Before(h: int, w: int, bh: int, bw: int, a: seq<Tile>, t: Tile, m: nat): seq<Cell>
    requires m <= |TileCells(h, w, bh, bw, t)|
  {
    AllCells(h, w, bh, bw, a) + TileCells(h, w, bh, bw, t)[..m]
  }

  lemma CellsAround(h: int, w: int, bh: int, bw: int, a: seq<Tile>, t: Tile, b: seq<Tile>, m: nat)
    requires m < |TileCells(h, w, bh, bw, t)|
    ensures var cells := TileCells(h, w, bh, bw, t);
      AllCells(h, w, bh, bw, a + [t] + b)
      == Before(h, w, bh, bw, a, t, m) + [cells[m]] + (cells[m + 1..] + AllCells(h, w, bh, bw, b))
  {
    AllCellsConcat(h, w, bh, bw, a + [t], b);
    AllCellsConcat(h, w, bh, bw, a, [t]);
    OneTile(h, w, bh, bw, t);
    Regroup(AllCells(h, w, bh, bw, a), TileCells(h, w, bh, bw, t), m, AllCells(h, w, bh, bw, b));
  }

  lemma Regroup<T>(a: seq<T>, s: seq<T>, m: nat, b: seq<T>)
    requires m < |s|
    ensures a + s + b == (a + s[..m]) + [s[m]] + (s[m + 1..] + b)
  {
    assert s == s[..m] + [s[m]] + s[m + 1..];
  }

  lemma TileAscending(h: int, w: int, bh: int, bw: int, t: Tile)
    ensures Ascending(TileCells(h, w, bh, bw, t))
  {
    BlockAscending(1 + t.ii * bh, Edge(t.ii + 1, bh, h) + 1, 1 + t.jj * bw, Edge(t.jj + 1, bw, w) + 1);
  }

  /** Cells of other tiles next to this one are not among those of earlier tiles of its colour. */
  lemma NotInSameColour(h: int, w: int, bh: int, bw: int, a: seq<Tile>, t: Tile, c: Cell, d: Cell)
    requires c in TileCells(h, w, bh, bw, t) && (Feeds(c, d) || Feeds(d, c)) && t !in a
    requires forall x :: x in a ==> (x.ii + x.jj) % 2 == (t.ii + t.jj) % 2
    ensures d !in AllCells(h, w, bh, bw, a)
  {
    if d in AllCells(h, w, bh, bw, a) {
      var k := TileOfCell(h, w, bh, bw, a, d);
      assert a[k] in a;
      if Feeds(c, d) {
        ColoursApart(h, w, bh, bw, t, a[k], c, d);
      } else {
        ColoursApart(h, w, bh, bw, a[k], t, d, c);
      }
      assert false;
    }
  }

  lemma InSplit<T>(s: seq<T>, m: nat, d: T)
    requires m < |s| && d in s && d != s[m] && d !in s[m + 1..]
    ensures d in s[..m]
  {
    assert s == s[..m] + [s[m]] + s[m + 1..];
  }

  /** Of its neighbours in the tile, the left and upper ones come before a cell, the others do not. */
  lemma NeighboursInTile(h: int, w: int, bh: int, bw: int, a: seq<Tile>, t: Tile, m: nat, d: Cell)
    requires m < |TileCells(h, w, bh, bw, t)| && t !in a && d in TileCells(h, w, bh, bw, t)
    ensures var c, before := TileCells(h, w, bh, bw, t)[m], Before(h, w, bh, bw, a, t, m);
      && (d == Left(c) || d == Above(c) ==> d in before)
      && (d == Right(c) || d == Below(c) ==> d !in before)
  {
    var cells := TileCells(h, w, bh, bw, t);
    TileAscending(h, w, bh, bw, t);
    AscendingOnce(cells, m);
    if d == Left(cells[m]) || d == Above(cells[m]) {
      InSplit(cells, m, d);
    } else if d in AllCells(h, w, bh, bw, a) {
      var k := TileOfCell(h, w, bh, bw, a, d);
      TilesDisjoint(h, w, bh, bw, a[k], t, d);
      assert false;
    }
  }

  ghost predicate OfColour(tiles: seq<Tile>, t: Tile) {
    forall x :: x in tiles ==> (x.ii + x.jj) % 2 == (t.ii + t.jj) % 2
  }

  ghost predicate NextTo(c: Cell, d: Cell) { d == Left(c) || d == Right(c) || d == Above(c) || d == Below(c) }

  /** If only tiles of its own colour come first, a cell sees other tiles as they were. */
  lemma SeenFromRed(h: int, w: int, bh: int, bw: int, a: seq<Tile>, t: Tile, m: nat, d: Cell, u: seq<real>,
                    r: seq<real>)
    requires m < |TileCells(h, w, bh, bw, t)| && t !in a && OfColour(a, t)
    requires NextTo(TileCells(h, w, bh, bw, t)[m], d)
    ensures var c := TileCells(h, w, bh, bw, t)[m];
      Seen(u, r, Before(h, w, bh, bw, a, t, m), d, w)
      == if InTile(h, w, bh, bw, t, d) && (d == Left(c) || d == Above(c)) then Value(r, d, w) else Value(u, d, w)
  {
    var cells := TileCells(h, w, bh, bw, t);
    TileMember(h, w, bh, bw, t, d);
    if d in cells {
      NeighboursInTile(h, w, bh, bw, a, t, m, d);
    } else {
      assert cells[m] in cells;
      NotInSameColour(h, w, bh, bw, a, t, cells[m], d);
    }
  }

  /** If all tiles of the other colour come first, a cell sees other tiles as they are. */
  lemma SeenFromBlack(h: int, w: int, bh: int, bw: int, a: seq<Tile>, t: Tile, b: seq<Tile>, m: nat, d: Cell, st: State)
    requires m < |TileCells(h, w, bh, bw, t)| && t !in a && t !in b && OfColour(b, t)
    requires NextTo(TileCells(h, w, bh, bw, t)[m], d) && |st.u| == h * w && OnGrid(d, h, w)
    requires AllInner(AllCells(h, w, bh, bw, a + [t] + b), h, w)
    ensures var c, r := TileCells(h, w, bh, bw, t)[m],
        Run(RelaxStep(h, w), st, AllCells(h, w, bh, bw, a + [t] + b)).u;
      Seen(st.u, r, Before(h, w, bh, bw, a, t, m), d, w)
      == if InTile(h, w, bh, bw, t, d) && (d == Right(c) || d == Below(c)) then Value(st.u, d, w) else Value(r, d, w)
  {
    var cells, all := TileCells(h, w, bh, bw, t), AllCells(h, w, bh, bw, a + [t] + b);
    TileMember(h, w, bh, bw, t, d);
    if d in cells {
      NeighboursInTile(h, w, bh, bw, a, t, m, d);
    } else {
      assert cells[m] in cells;
      NotInSameColour(h, w, bh, bw, b, t, cells[m], d);
      CellsAround(h, w, bh, bw, a, t, b, m);
      RunKeeps(h, w, st, all, d);
    }
  }

  /** The tiles of both colours, taken apart at one of them. */
  lemma SplitTiles(s: seq<Tile>, x: nat)
    requires x < |s| && NoDup(s)
    ensures s == s[..x] + [s[x]] + s[x + 1..] && s[x] !in s[..x] && s[x] !in s[x + 1..]
  {
  }

  lemma TilesFirst(s: seq<Tile>, x: nat, others: seq<Tile>)
    requires x < |s|
    ensures s + others == s[..x] + [s[x]] + (s[x + 1..] + others)
  {
    assert s == s[..x] + [s[x]] + s[x + 1..];
  }

  lemma TilesInner(h: int, w: int, bh: int, bw: int, nb: int, red: seq<Tile>, black: seq<Tile>)
    requires bh >= 0 && bw >= 0 && nb > 0
    requires Rearranged(red, Tiles(nb, nb, Red)) && Rearranged(black, Tiles(nb, nb, Black))
    ensures AllInner(AllCells(h, w, bh, bw, red + black), h, w) && NoDup(AllCells(h, w, bh, bw, red + black))
  {
    forall c | c in AllCells(h, w, bh, bw, red + black)
      ensures Inner(c, h, w)
    {
      RedBlackOnce(h, w, bh, bw, nb, red, black, c);
    }
    RedBlackOnce(h, w, bh, bw, nb, red, black, Cell(0, 0));
  }

  lemma RedTiles(nb: int, red: seq<Tile>, t: Tile)
    requires Rearranged(red, Tiles(nb, nb, Red))
    ensures t in red <==> 0 <= t.ii < nb && 0 <= t.jj < nb && (t.ii + t.jj) % 2 == 0
  {
    assert t in red <==> t in Tiles(nb, nb, Red);
    TilesMember(nb, nb, Red, t);
  }

  lemma BlackTiles(nb: int, black: seq<Tile>, t: Tile)
    requires Rearranged(black, Tiles(nb, nb, Black))
    ensures t in black <==> 0 <= t.ii < nb && 0 <= t.jj < nb && (t.ii + t.jj) % 2 == 1
  {
    assert t in black <==> t in Tiles(nb, nb, Black);
    TilesMember(nb, nb, Black, t);
  }

  /** How a cell c of tile t ends up when it reads cells of other tiles old, or new. */
  ghost predicate TileEquation(h: int, w: int, bh: int, bw: int, t: Tile, u: seq<real>, r: seq<real>, c: Cell) {
    var red, black := (t.ii + t.jj) % 2 == 0, (t.ii + t.jj) % 2 == 1;
    var left := if black || InTile(h, w, bh, bw, t, Left(c)) then Value(r, Left(c), w) else Value(u, Left(c), w);
    var above := if black || InTile(h, w, bh, bw, t, Above(c)) then Value(r, Above(c), w) else Value(u, Above(c), w);
    var right := if red || InTile(h, w, bh, bw, t, Right(c)) then Value(u, Right(c), w) else Value(r, Right(c), w);
    var below := if red || InTile(h, w, bh, bw, t, Below(c)) then Value(u, Below(c), w) else Value(r, Below(c), w);
    Value(r, c, w) == 0.25 * (left + right + above + below)
  }

  /** After a red-black step, whatever the order within a colour: tiles with ii + jj even have read
      their surroundings as they were, the others as they are now; inside a tile the left and upper
      neighbour are read new, the others old. */
  lemma RedBlackEquation(h: int, w: int, bh: int, bw: int, nb: int, st: State, red: seq<Tile>, black: seq<Tile>,
                         t: Tile, c: Cell)
    requires bh >= 0 && bw >= 0 && nb > 0 && |st.u| == h * w
    requires Rearranged(red, Tiles(nb, nb, Red)) && Rearranged(black, Tiles(nb, nb, Black))
    requires 0 <= t.ii < nb && 0 <= t.jj < nb && InTile(h, w, bh, bw, t, c)
    ensures TileEquation(h, w, bh, bw, t, st.u, Run(TileStep(h, w, bh, bw), st, red + black).u, c)
  {
    TilesAreCells(h, w, bh, bw, st, red + black);
    TilesInner(h, w, bh, bw, nb, red, black);
    RedTiles(nb, red, t);
    BlackTiles(nb, black, t);
    TileMember(h, w, bh, bw, t, c);
    var cells := TileCells(h, w, bh, bw, t);
    var m :| 0 <= m < |cells| && cells[m] == c;
    if t in red {
      var x :| 0 <= x < |red| && red[x] == t;
      RedEquation(h, w, bh, bw, nb, st, red, black, x, m);
    } else {
      var x :| 0 <= x < |black| && black[x] == t;
      BlackEquation(h, w, bh, bw, nb, st, red, black, x, m);
    }
  }

  lemma AllOfColour(nb: int, red: seq<Tile>, black: seq<Tile>)
    requires Rearranged(red, Tiles(nb, nb, Red)) && Rearranged(black, Tiles(nb, nb, Black))
    ensures forall t :: t in red ==> (t.ii + t.jj) % 2 == 0 && t !in black
    ensures forall t :: t in black ==> (t.ii + t.jj) % 2 == 1 && t !in red
  {
    forall t
      ensures t in red ==> (t.ii + t.jj) % 2 == 0 && t !in black
      ensures t in black ==> (t.ii + t.jj) % 2 == 1 && t !in red
    {
      RedTiles(nb, red, t);
      BlackTiles(nb, black, t);
    }
  }

  lemma RedEquation(h: int, w: int, bh: int, bw: int, nb: int, st: State, red: seq<Tile>, black: seq<Tile>, x: nat,
                    m: nat)
    requires bh >= 0 && bw >= 0 && nb > 0 && |st.u| == h * w
    requires Rearranged(red, Tiles(nb, nb, Red)) && Rearranged(black, Tiles(nb, nb, Black))
    requires AllInner(AllCells(h, w, bh, bw, red + black), h, w) && NoDup(AllCells(h, w, bh, bw, red + black))
    requires x < |red| && m < |TileCells(h, w, bh, bw, red[x])|
    ensures TileEquation(h, w, bh, bw, red[x], st.u, Run(RelaxStep(h, w), st, AllCells(h, w, bh, bw, red + black)).u,
        TileCells(h, w, bh, bw, red[x])[m])
  {
    var a, t, b := red[..x], red[x], red[x + 1..] + black;
    SplitTiles(red, x);
    TilesFirst(red, x, black);
    AllOfColour(nb, red, black);
    assert t in red && OfColour(a, t);
    CellSees(h, w, bh, bw, st, a, t, b, m);
    var u, r := st.u, Run(RelaxStep(h, w), st, AllCells(h, w, bh, bw, a + [t] + b)).u;
    var c := TileCells(h, w, bh, bw, t)[m];
    SeenFromRed(h, w, bh, bw, a, t, m, Left(c), u, r);
    SeenFromRed(h, w, bh, bw, a, t, m, Right(c), u, r);
    SeenFromRed(h, w, bh, bw, a, t, m, Above(c), u, r);
    SeenFromRed(h, w, bh, bw, a, t, m, Below(c), u, r);
  }

  lemma CellSees(h: int, w: int, bh: int, bw: int, st: State, a: seq<Tile>, t: Tile, b: seq<Tile>, m: nat)
    requires |st.u| == h * w && m < |TileCells(h, w, bh, bw, t)|
    requires AllInner(AllCells(h, w, bh, bw, a + [t] + b), h, w) && NoDup(AllCells(h, w, bh, bw, a + [t] + b))
    ensures var u, r := st.u, Run(RelaxStep(h, w), st, AllCells(h, w, bh, bw, a + [t] + b)).u;
      var c, before := TileCells(h, w, bh, bw, t)[m], Before(h, w, bh, bw, a, t, m);
      && Inner(c, h, w)
      && Value(r, c, w) == 0.25 * (Seen(u, r, before, Left(c), w) + Seen(u, r, before, Right(c), w)
                                   + Seen(u, r, before, Above(c), w) + Seen(u, r, before, Below(c), w))
  {
    var cells := TileCells(h, w, bh, bw, t);
    CellsAround(h, w, bh, bw, a, t, b, m);
    var before, after := Before(h, w, bh, bw, a, t, m), cells[m + 1..] + AllCells(h, w, bh, bw, b);
    RelaxedOnce(h, w, st, before, cells[m], after);
    Parts(h, w, before, cells[m], after);
  }

  lemma BlackEquation(h: int, w: int, bh: int, bw: int, nb: int, st: State, red: seq<Tile>, black: seq<Tile>, x: nat,
                      m: nat)
    requires bh >= 0 && bw >= 0 && nb > 0 && |st.u| == h * w
    requires Rearranged(red, Tiles(nb, nb, Red)) && Rearranged(black, Tiles(nb, nb, Black))
    requires AllInner(AllCells(h, w, bh, bw, red + black), h, w) && NoDup(AllCells(h, w, bh, bw, red + black))
    requires x < |black| && m < |TileCells(h, w, bh, bw, black[x])|
    ensures TileEquation(h, w, bh, bw, black[x], st.u, Run(RelaxStep(h, w), st, AllCells(h, w, bh, bw, red + black)).u,
        TileCells(h, w, bh, bw, black[x])[m])
  {
    var a, t, b := red + black[..x], black[x], black[x + 1..];
    SplitTiles(black, x);
    assert red + black == a + [t] + b;
    AllOfColour(nb, red, black);
    assert t in black && OfColour(b, t);
    CellSees(h, w, bh, bw, st, a, t, b, m);
    var c := TileCells(h, w, bh, bw, t)[m];
    SeenFromBlack(h, w, bh, bw, a, t, b, m, Left(c), st);
    SeenFromBlack(h, w, bh, bw, a, t, b, m, Right(c), st);
    SeenFromBlack(h, w, bh, bw, a, t, b, m, Above(c), st);
    SeenFromBlack(h, w, bh, bw, a, t, b, m, Below(c), st);
  }

  // ---------------------------------------------------------------- Jacobi

  lemma JacobiValue(u: seq<real>, h: int, w: int, st: State, c: Cell, d: Cell)
    requires |u| == |st.u| == h * w && Inner(c, h, w) && OnGrid(d, h, w)
    ensures var r := Jacobi(u, h, w, st, c).u;
      |r| == |u| && Value(r, d, w) == if d == c then Average(u, c, w) else Value(st.u, d, w)
  {
    FourValues(u, h, w, c);
    ValueAt(st.u, d, h, w);
    ValueAt(Jacobi(u, h, w, st, c).u, d, h, w);
    if At(c.i, c.j, w) == At(d.i, d.j, w) {
      AtInjective(c.i, c.j, d.i, d.j, w);
    }
  }

  /** After a Jacobi step every covered cell is the mean of its old neighbours, and no other cell of
      the target has changed. */
  lemma JacobiEquation(u: seq<real>, h: int, w: int, nb: int, st: State, c: Cell)
    requires h >= 2 && w >= 2 && nb > 0 && |u| == |st.u| == h * w && OnGrid(c, h, w)
    ensures var r := Run(JacobiStep(u, h, w), st, Sweep(h, w, h, w / nb, 1, nb)).u;
      Value(r, c, w) == if Covered(c, h, w, h, w / nb, 1, nb) then Average(u, c, w) else Value(st.u, c, w)
  {
    JacobiResult(u, h, w, nb, st, c);
    ValueAt(st.u, c, h, w);
    ValueAt(Run(JacobiStep(u, h, w), st, Sweep(h, w, h, w / nb, 1, nb)).u, c, h, w);
    if Inner(c, h, w) {
      FourValues(u, h, w, c);
    }
  }

  // ---------------------------------------------------------------- the residual

  /** The square of how much a cell differs. */
  function SquaredChange(u: seq<real>, v: seq<real>, w: int, c: Cell): real {
    (Value(v, c, w) - Value(u, c, w)) * (Value(v, c, w) - Value(u, c, w))
  }

  /** The sum of that over some cells. */
  function SquaredChanges(u: seq<real>, v: seq<real>, w: int, cs: seq<Cell>): real
    decreases |cs|
  {
    if cs == [] then 0.0 else SquaredChanges(u, v, w, cs[..|cs| - 1]) + SquaredChange(u, v, w, cs[|cs| - 1])
  }

  lemma {:induction false} SquaresSame(u: seq<real>, v: seq<real>, v': seq<real>, w: int, cs: seq<Cell>)
    requires forall c :: c in cs ==> Value(v, c, w) == Value(v', c, w)
    ensures SquaredChanges(u, v, w, cs) == SquaredChanges(u, v', w, cs)
    decreases |cs|
  {
    if cs != [] {
      var n := |cs| - 1;
      assert cs[n] in cs;
      SquaresSame(u, v, v', w, cs[..n]);
      SquareSame(u, v, u, v', w, cs[n]);
    }
  }

  lemma SquareSame(u: seq<real>, v: seq<real>, u': seq<real>, v': seq<real>, w: int, c: Cell)
    requires Value(u, c, w) == Value(u', c, w) && Value(v, c, w) == Value(v', c, w)
    ensures SquaredChange(u, v, w, c) == SquaredChange(u', v', w, c)
  {
  }

  lemma NoDupLast<T>(s: seq<T>)
    requires NoDup(s) && s != []
    ensures NoDup(s[..|s| - 1]) && s[|s| - 1] !in s[..|s| - 1] && s[|s| - 1] in s
  {
  }

  /** Relaxing a cell adds the square of its change. */
  lemma RelaxAdds(h: int, w: int, st: State, c: Cell)
    requires |st.u| == h * w && Inner(c, h, w)
    ensures var r := Relax(h, w, st, c); |r.u| == |st.u| && r.sum == st.sum + SquaredChange(st.u, r.u, w, c)
  {
    var u, r, p := st.u, Relax(h, w, st, c), At(c.i, c.j, w);
    FourValues(u, h, w, c);
    ValueAt(r.u, c, h, w);
    SquareIs(Mean(u, p, w) - u[p], Value(r.u, c, w) - Value(u, c, w));
  }

  lemma SquareIs(x: real, y: real)
    requires x == y
    ensures Square(x) == y * y
  {
  }

  lemma JacobiAdds(u: seq<real>, h: int, w: int, st: State, c: Cell)
    requires |u| == |st.u| == h * w && Inner(c, h, w)
    ensures var r := Jacobi(u, h, w, st, c); |r.u| == |st.u| && r.sum == st.sum + SquaredChange(u, r.u, w, c)
  {
    var r, p := Jacobi(u, h, w, st, c), At(c.i, c.j, w);
    FourValues(u, h, w, c);
    ValueAt(r.u, c, h, w);
    SquareIs(Mean(u, p, w) - u[p], Value(r.u, c, w) - Value(u, c, w));
  }

  /** The residual of a sweep that does no cell twice is the sum of the squares of its changes. */
  lemma {:induction false} ResidualIs(h: int, w: int, st: State, cs: seq<Cell>)
    requires |st.u| == h * w && AllInner(cs, h, w) && NoDup(cs)
    ensures var r := Run(RelaxStep(h, w), st, cs); r.sum == st.sum + SquaredChanges(st.u, r.u, w, cs)
    decreases |cs|
  {
    if cs != [] {
      var n := |cs| - 1;
      NoDupLast(cs);
      ResidualIs(h, w, st, cs[..n]);
      RunKeeps(h, w, st, cs[..n], cs[n]);
      ResidualStep(h, w, st.u, Run(RelaxStep(h, w), st, cs[..n]), cs[..n], cs[n]);
    }
  }

  lemma ResidualStep(h: int, w: int, u: seq<real>, mid: State, cs: seq<Cell>, c: Cell)
    requires |mid.u| == h * w && AllInner(cs, h, w) && Inner(c, h, w) && c !in cs
    requires Value(mid.u, c, w) == Value(u, c, w)
    ensures var r := Relax(h, w, mid, c);
      r.sum == mid.sum - SquaredChanges(u, mid.u, w, cs) + SquaredChanges(u, r.u, w, cs) + SquaredChange(u, r.u, w, c)
  {
    var r := Relax(h, w, mid, c);
    RelaxAdds(h, w, mid, c);
    forall d | d in cs
      ensures Value(mid.u, d, w) == Value(r.u, d, w)
    {
      RelaxValue(h, w, mid, c, d);
    }
    SquaresSame(u, mid.u, r.u, w, cs);
    SquareSame(mid.u, r.u, u, r.u, w, c);
  }

  lemma {:induction false} JacobiResidualIs(u: seq<real>, h: int, w: int, st: State, cs: seq<Cell>)
    requires |u| == |st.u| == h * w && AllInner(cs, h, w) && NoDup(cs)
    ensures var r := Run(JacobiStep(u, h, w), st, cs);
      |r.u| == |u| && r.sum == st.sum + SquaredChanges(u, r.u, w, cs)
    decreases |cs|
  {
    if cs != [] {
      var n := |cs| - 1;
      NoDupLast(cs);
      JacobiResidualIs(u, h, w, st, cs[..n]);
      JacobiResidualStep(u, h, w, Run(JacobiStep(u, h, w), st, cs[..n]), cs[..n], cs[n]);
    }
  }

  lemma JacobiResidualStep(u: seq<real>, h: int, w: int, mid: State, cs: seq<Cell>, c: Cell)
    requires |u| == |mid.u| == h * w && AllInner(cs, h, w) && Inner(c, h, w) && c !in cs
    ensures var r := Jacobi(u, h, w, mid, c);
      && |r.u| == |u|
      && r.sum
      == mid.sum - SquaredChanges(u, mid.u, w, cs) + SquaredChanges(u, r.u, w, cs) + SquaredChange(u, r.u, w, c)
  {
    var r := Jacobi(u, h, w, mid, c);
    JacobiAdds(u, h, w, mid, c);
    forall d | d in cs
      ensures Value(mid.u, d, w) == Value(r.u, d, w)
    {
      JacobiValue(u, h, w, mid, c, d);
    }
    SquaresSame(u, mid.u, r.u, w, cs);
  }

  // ---------------------------------------------------------------- when nothing changes

  /** The cell is the mean of its neighbours. */
  ghost predicate Balanced(u: seq<real>, c: Cell, w: int) {
    4.0 * Value(u, c, w) == Value(u, Left(c), w) + Value(u, Right(c), w) + Value(u, Above(c), w) + Value(u, Below(c), w)
  }

  lemma SameValues(u: seq<real>, v: seq<real>, h: int, w: int)
    requires |u| == |v| == h * w && w > 0
    requires forall d :: OnGrid(d, h, w) ==> Value(u, d, w) == Value(v, d, w)
    ensures u == v
  {
    forall p | 0 <= p < |u|
      ensures u[p] == v[p]
    {
      var d := Cell(p / w, p % w);
      assert p == d.i * w + d.j;
      if d.i >= h {
        MulLe(h, d.i, w);
      }
      assert OnGrid(d, h, w);
    }
  }

  lemma SquareZero(x: real, y: real, square: real)
    requires x == y && square == x * y
    ensures square >= 0.0 && (square == 0.0 <==> x == 0.0)
  {
    if x > 0.0 {
      ProductPositive(x, y, square);
    } else if x < 0.0 {
      ProductPositive(-x, -y, square);
    } else {
      ProductZero(x, y, square);
    }
  }

  lemma ProductPositive(x: real, y: real, p: real)
    requires x > 0.0 && y > 0.0 && p == x * y
    ensures p > 0.0
  {
  }

  lemma ProductZero(x: real, y: real, p: real)
    requires x == 0.0 && p == x * y
    ensures p == 0.0
  {
  }

  lemma NoChange(u: seq<real>, v: seq<real>, w: int, c: Cell)
    ensures SquaredChange(u, v, w, c) >= 0.0 && (SquaredChange(u, v, w, c) == 0.0 <==> Value(u, c, w) == Value(v, c, w))
  {
    var x := Value(v, c, w) - Value(u, c, w);
    SquareZero(x, x, SquaredChange(u, v, w, c));
  }

  /** Relaxing a cell adds nothing to the residual if and only if it is balanced, and then it changes
      nothing at all. */
  lemma BalancedStays(h: int, w: int, st: State, c: Cell)
    requires |st.u| == h * w && Inner(c, h, w)
    ensures var r := Relax(h, w, st, c);
      && r.sum >= st.sum && (r.sum == st.sum <==> Balanced(st.u, c, w)) && (r.sum == st.sum ==> r == st)
  {
    var u, r := st.u, Relax(h, w, st, c);
    RelaxValue(h, w, st, c, c);
    RelaxAdds(h, w, st, c);
    NoChange(u, r.u, w, c);
    if Balanced(u, c, w) {
      forall d | OnGrid(d, h, w)
        ensures Value(r.u, d, w) == Value(u, d, w)
      {
        RelaxValue(h, w, st, c, d);
      }
      SameValues(r.u, u, h, w);
    }
  }

  /** A Gauss-Seidel or red-black step reports residual zero if and only if all cells it covers were
      balanced before, and then it has changed nothing. */
  lemma {:induction false} ZeroResidual(h: int, w: int, st: State, cs: seq<Cell>)
    requires |st.u| == h * w && AllInner(cs, h, w)
    ensures var r := Run(RelaxStep(h, w), st, cs);
      && r.sum >= st.sum && (r.sum == st.sum ==> r == st)
      && (r.sum == st.sum <==> forall c :: c in cs ==> Balanced(st.u, c, w))
    decreases |cs|
  {
    if cs != [] {
      var n := |cs| - 1;
      var mid := Run(RelaxStep(h, w), st, cs[..n]);
      ZeroResidual(h, w, st, cs[..n]);
      assert cs[n] in cs && cs == cs[..n] + [cs[n]];
      RunKeeps(h, w, st, cs[..n], cs[n]);
      BalancedStays(h, w, mid, cs[n]);
    }
  }

  /** A Jacobi step reports residual zero if and only if all cells it covers are balanced, and then
      copies them. */
  lemma {:induction false} JacobiZeroResidual(u: seq<real>, h: int, w: int, st: State, cs: seq<Cell>, d: Cell)
    requires |u| == |st.u| == h * w && AllInner(cs, h, w) && OnGrid(d, h, w)
    ensures var r := Run(JacobiStep(u, h, w), st, cs);
      && |r.u| == |u| && r.sum >= st.sum && (r.sum == st.sum <==> forall c :: c in cs ==> Balanced(u, c, w))
      && (r.sum == st.sum ==> Value(r.u, d, w) == Value(if d in cs then u else st.u, d, w))
    decreases |cs|
  {
    if cs != [] {
      var n := |cs| - 1;
      var c, mid := cs[n], Run(JacobiStep(u, h, w), st, cs[..n]);
      JacobiZeroResidual(u, h, w, st, cs[..n], d);
      assert c in cs && cs == cs[..n] + [c];
      JacobiValue(u, h, w, mid, c, d);
      BalancedAdds(u, h, w, mid, c);
    }
  }

  lemma {:induction false} JacobiSize(u: seq<real>, h: int, w: int, st: State, cs: seq<Cell>)
    requires |u| == |st.u| == h * w && AllInner(cs, h, w)
    ensures |Run(JacobiStep(u, h, w), st, cs).u| == |u|
    decreases |cs|
  {
    if cs != [] {
      var n := |cs| - 1;
      assert cs[n] in cs;
      JacobiSize(u, h, w, st, cs[..n]);
      JacobiAdds(u, h, w, Run(JacobiStep(u, h, w), st, cs[..n]), cs[n]);
    }
  }

  lemma BalancedAdds(u: seq<real>, h: int, w: int, st: State, c: Cell)
    requires |u| == |st.u| == h * w && Inner(c, h, w)
    ensures var r := Jacobi(u, h, w, st, c);
      r.sum >= st.sum && (r.sum == st.sum <==> Balanced(u, c, w))
  {
    JacobiValue(u, h, w, st, c, c);
    JacobiAdds(u, h, w, st, c);
    NoChange(u, Jacobi(u, h, w, st, c).u, w, c);
  }

  /** The residual a Gauss-Seidel step returns is the sum of its squared changes; it is zero if and
      only if every covered cell was balanced, and then the grid is as before. */
  lemma GaussResidual(u: seq<real>, h: int, w: int, nb: int)
    requires h >= 2 && w >= 2 && nb > 0 && |u| == h * w
    ensures var s := Sweep(h, w, h / nb, w / nb, nb, nb);
      var r := Run(RelaxStep(h, w), State(u, 0.0), s);
      && r.sum == SquaredChanges(u, r.u, w, s) && (r.sum == 0.0 ==> r.u == u)
      && (r.sum == 0.0 <==> forall c :: Covered(c, h, w, h / nb, w / nb, nb, nb) ==> Balanced(u, c, w))
  {
    var s := Sweep(h, w, h / nb, w / nb, nb, nb);
    SweepInner(h, w, h / nb, w / nb, nb, nb);
    BlockAscending(1, Edge(nb, h / nb, h) + 1, 1, Edge(nb, w / nb, w) + 1);
    ResidualIs(h, w, State(u, 0.0), s);
    ZeroResidual(h, w, State(u, 0.0), s);
    forall c
      ensures c in s <==> Covered(c, h, w, h / nb, w / nb, nb, nb)
    {
      SweepMember(h, w, h / nb, w / nb, nb, nb, c);
    }
  }

  /** The same of a red-black step, whatever the order within a colour. */
  lemma RedBlackResidual(u: seq<real>, h: int, w: int, bh: int, bw: int, nb: int, red: seq<Tile>, black: seq<Tile>)
    requires bh >= 0 && bw >= 0 && nb > 0 && |u| == h * w
    requires Rearranged(red, Tiles(nb, nb, Red)) && Rearranged(black, Tiles(nb, nb, Black))
    ensures var r := Run(TileStep(h, w, bh, bw), State(u, 0.0), red + black);
      && r.sum == SquaredChanges(u, r.u, w, AllCells(h, w, bh, bw, red + black)) && (r.sum == 0.0 ==> r.u == u)
      && (r.sum == 0.0 <==> forall c :: Covered(c, h, w, bh, bw, nb, nb) ==> Balanced(u, c, w))
  {
    var s := AllCells(h, w, bh, bw, red + black);
    TilesAreCells(h, w, bh, bw, State(u, 0.0), red + black);
    TilesInner(h, w, bh, bw, nb, red, black);
    ResidualIs(h, w, State(u, 0.0), s);
    ZeroResidual(h, w, State(u, 0.0), s);
    forall c
      ensures c in s <==> Covered(c, h, w, bh, bw, nb, nb)
    {
      RedBlackOnce(h, w, bh, bw, nb, red, black, c);
    }
  }

  /** The residual of a Jacobi step is the sum of the squares of how much the covered cells of the
      target differ from the source; it is zero if and only if they were all balanced. */
  lemma JacobiResidual(u: seq<real>, v: seq<real>, h: int, w: int, nb: int)
    requires h >= 2 && w >= 2 && nb > 0 && |u| == |v| == h * w
    ensures var s := Sweep(h, w, h, w / nb, 1, nb);
      var r := Run(JacobiStep(u, h, w), State(v, 0.0), s);
      && r.sum == SquaredChanges(u, r.u, w, s)
      && (r.sum == 0.0 <==> forall c :: Covered(c, h, w, h, w / nb, 1, nb) ==> Balanced(u, c, w))
  {
    var s := Sweep(h, w, h, w / nb, 1, nb);
    SweepInner(h, w, h, w / nb, 1, nb);
    BlockAscending(1, Edge(1, h, h) + 1, 1, Edge(nb, w / nb, w) + 1);
    JacobiResidualIs(u, h, w, State(v, 0.0), s);
    JacobiZeroResidual(u, h, w, State(v, 0.0), s, Cell(0, 0));
    forall c
      ensures c in s <==> Covered(c, h, w, h, w / nb, 1, nb)
    {
      SweepMember(h, w, h, w / nb, 1, nb, c);
    }
  }

  /** A discrete solution of the heat equation: a plane and a saddle. */
  function Solution(k: real, x: real, y: real, z: real, i: real, j: real): real {
    k + x * i + y * j + z * (i * i - j * j)
  }

  ghost predicate IsSolution(u: seq<real>, h: int, w: int, k: real, x: real, y: real, z: real) {
    && |u| == h * w
    && forall c: Cell :: OnGrid(c, h, w) ==> Value(u, c, w) == Solution(k, x, y, z, c.i as real, c.j as real)
  }

  lemma SaddleBalanced(k: real, x: real, y: real, z: real, i: real, j: real)
    ensures 4.0 * Solution(k, x, y, z, i, j)
      == Solution(k, x, y, z, i, j - 1.0) + Solution(k, x, y, z, i, j + 1.0)
       + Solution(k, x, y, z, i - 1.0, j) + Solution(k, x, y, z, i + 1.0, j)
  {
  }

  lemma SolutionBalanced(u: seq<real>, h: int, w: int, k: real, x: real, y: real, z: real, c: Cell)
    requires IsSolution(u, h, w, k, x, y, z) && Inner(c, h, w)
    ensures Balanced(u, c, w)
  {
    var i, j := c.i as real, c.j as real;
    SaddleBalanced(k, x, y, z, i, j);
    Neighbours(c);
    assert Value(u, Left(c), w) == Solution(k, x, y, z, i, j - 1.0);
    assert Value(u, Right(c), w) == Solution(k, x, y, z, i, j + 1.0);
    assert Value(u, Above(c), w) == Solution(k, x, y, z, i - 1.0, j);
    assert Value(u, Below(c), w) == Solution(k, x, y, z, i + 1.0, j);
  }

  lemma Neighbours(c: Cell)
    ensures (c.i - 1) as real == c.i as real - 1.0 && (c.i + 1) as real == c.i as real + 1.0
    ensures (c.j - 1) as real == c.j as real - 1.0 && (c.j + 1) as real == c.j as real + 1.0
  {
  }

  /** Such a grid is left as it is by every sweep, with residual zero. */
  lemma SolutionStays(u: seq<real>, h: int, w: int, k: real, x: real, y: real, z: real, cs: seq<Cell>)
    requires IsSolution(u, h, w, k, x, y, z) && AllInner(cs, h, w)
    ensures Run(RelaxStep(h, w), State(u, 0.0), cs) == State(u, 0.0)
    ensures w > 0 ==> Run(JacobiStep(u, h, w), State(u, 0.0), cs) == State(u, 0.0)
  {
    forall c | c in cs
      ensures Balanced(u, c, w)
    {
      SolutionBalanced(u, h, w, k, x, y, z, c);
    }
    ZeroResidual(h, w, State(u, 0.0), cs);
    if w > 0 {
      JacobiSize(u, h, w, State(u, 0.0), cs);
      forall d | OnGrid(d, h, w)
        ensures Value(Run(JacobiStep(u, h, w), State(u, 0.0), cs).u, d, w) == Value(u, d, w)
      {
        JacobiZeroResidual(u, h, w, State(u, 0.0), cs, d);
      }
      SameValues(Run(JacobiStep(u, h, w), State(u, 0.0), cs).u, u, h, w);
    }
  }
}
