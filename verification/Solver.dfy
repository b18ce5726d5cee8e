/** The blocked relaxation sweeps of solver-mpi-ompss.c; solver-ompss.c has the same bodies. */
module Solver {
  import opened Common
  import opened Reorder
  import opened Stencil

  // ---------------------------------------------------------------- lists of tiles

  predicate AnyColour(t: Tile) { true }

  predicate Red(t: Tile) { (t.ii + t.jj) % 2 == 0 }

  predicate Black(t: Tile) { (t.ii + t.jj) % 2 == 1 }

  /** Tiles of one row of tiles, left to right, that are wanted. */
  function RowTiles(ii: int, n: int, want: Tile -> bool): seq<Tile>
    decreases n
  {
    if n <= 0 then [] else RowTiles(ii, n - 1, want) + if want(Tile(ii, n - 1)) then [Tile(ii, n - 1)] else []
  }

  function Tiles(m: int, nb: int, want: Tile -> bool): seq<Tile>
    decreases m
  {
    if m <= 0 then [] else Tiles(m - 1, nb, want) + RowTiles(m - 1, nb, want)
  }

  lemma {:induction false} RowTilesMember(ii: int, n: int, want: Tile -> bool, t: Tile)
    ensures t in RowTiles(ii, n, want) <==> t.ii == ii && 0 <= t.jj < n && want(t)
    decreases n
  {
    if n > 0 {
      RowTilesMember(ii, n - 1, want, t);
    }
  }

  lemma {:induction false} TilesMember(m: int, nb: int, want: Tile -> bool, t: Tile)
    ensures t in Tiles(m, nb, want) <==> 0 <= t.ii < m && 0 <= t.jj < nb && want(t)
    decreases m
  {
    if m > 0 {
      TilesMember(m - 1, nb, want, t);
      RowTilesMember(m - 1, nb, want, t);
      InConcat(t, Tiles(m - 1, nb, want), RowTiles(m - 1, nb, want));
    }
  }

  predicate TileBefore(a: Tile, b: Tile) { a.ii < b.ii || (a.ii == b.ii && a.jj < b.jj) }

  ghost predicate Sorted(tiles: seq<Tile>) {
    forall a, b :: 0 <= a < b < |tiles| ==> TileBefore(tiles[a], tiles[b])
  }

  lemma SortedConcat(s: seq<Tile>, t: seq<Tile>)
    requires Sorted(s) && Sorted(t) && forall x, y :: x in s && y in t ==> TileBefore(x, y)
    ensures Sorted(s + t)
  {
    forall a, b | 0 <= a < b < |s + t|
      ensures TileBefore((s + t)[a], (s + t)[b])
    {
      if a < |s| <= b {
        assert (s + t)[a] in s && (s + t)[b] in t;
      }
    }
  }

  lemma {:induction false} RowTilesSorted(ii: int, n: int, want: Tile -> bool)
    ensures Sorted(RowTiles(ii, n, want))
    decreases n
  {
    if n > 0 {
      RowTilesSorted(ii, n - 1, want);
      var left := RowTiles(ii, n - 1, want);
      forall x | x in left
        ensures TileBefore(x, Tile(ii, n - 1))
      {
        RowTilesMember(ii, n - 1, want, x);
      }
      SortedConcat(RowTiles(ii, n - 1, want), if want(Tile(ii, n - 1)) then [Tile(ii, n - 1)] else []);
    }
  }

  lemma {:induction false} TilesSorted(m: int, nb: int, want: Tile -> bool)
    ensures Sorted(Tiles(m, nb, want)) && NoDup(Tiles(m, nb, want))
    decreases m
  {
    if m > 0 {
      TilesSorted(m - 1, nb, want);
      RowTilesSorted(m - 1, nb, want);
      RowsBefore(m - 1, nb, want);
      SortedConcat(Tiles(m - 1, nb, want), RowTiles(m - 1, nb, want));
    }
  }

  lemma RowsBefore(m: int, nb: int, want: Tile -> bool)
    ensures forall x, y :: x in Tiles(m, nb, want) && y in RowTiles(m, nb, want) ==> TileBefore(x, y)
  {
    forall x, y | x in Tiles(m, nb, want) && y in RowTiles(m, nb, want)
      ensures TileBefore(x, y)
    {
      TilesMember(m, nb, want, x);
      RowTilesMember(m, nb, want, y);
    }
  }

  // ---------------------------------------------------------------- which cells are covered

  predicate Covered(c: Cell, h: int, w: int, bh: int, bw: int, rows: int, nb: int) {
    1 <= c.i <= Edge(rows, bh, h) && 1 <= c.j <= Edge(nb, bw, w)
  }

  lemma AxisTile(x: int, n: int, b: int, size: int) returns (k: int)
    requires 1 <= x <= Edge(n, b, size) && n > 0
    ensures 0 <= k < n && k * b < x <= Edge(k + 1, b, size)
  {
    if b <= 0 {
      MulLe(b, 0, n);
      assert false;
    } else {
      k := (x - 1) / b;
      MulNext(k, b);
      assert k * b <= x - 1 < k * b + b;
      if k >= n {
        MulLe(n, k, b);
      }
    }
  }

  lemma EdgeGrows(k: int, n: int, b: int, size: int)
    requires 0 <= k < n && 0 <= b
    ensures 0 <= k * b && Edge(k + 1, b, size) <= Edge(n, b, size)
  {
    MulLe(k + 1, n, b);
    MulLe(0, k, b);
  }

  ghost predicate AllTiles(tiles: seq<Tile>, rows: int, nb: int) {
    forall t :: t in tiles <==> 0 <= t.ii < rows && 0 <= t.jj < nb
  }

  /** The tiles of all rows and both colours hold exactly the cells up to the last full tile. */
  lemma TilesCover(h: int, w: int, bh: int, bw: int, rows: int, nb: int, tiles: seq<Tile>, c: Cell)
    requires bh >= 0 && bw >= 0 && rows > 0 && nb > 0 && AllTiles(tiles, rows, nb)
    ensures c in AllCells(h, w, bh, bw, tiles) <==> Covered(c, h, w, bh, bw, rows, nb)
  {
    if c in AllCells(h, w, bh, bw, tiles) {
      var k := TileOfCell(h, w, bh, bw, tiles, c);
      var t := tiles[k];
      assert t in tiles;
      TileMember(h, w, bh, bw, t, c);
      EdgeGrows(t.ii, rows, bh, h);
      EdgeGrows(t.jj, nb, bw, w);
    }
    if Covered(c, h, w, bh, bw, rows, nb) {
      var ii := AxisTile(c.i, rows, bh, h);
      var jj := AxisTile(c.j, nb, bw, w);
      assert Tile(ii, jj) in tiles;
      var k :| 0 <= k < |tiles| && tiles[k] == Tile(ii, jj);
      TileMember(h, w, bh, bw, Tile(ii, jj), c);
      CellOfTile(h, w, bh, bw, tiles, c, k);
    }
  }

  /** Dividing by the number of tiles drops the remainder, so the last rows or columns of the interior stay
      untouched unless the size is at most two more than a multiple of it. */
  lemma CoversInterior(h: int, w: int, nb: int)
    requires h >= 2 && w >= 2 && nb > 0
    ensures (forall c :: Inner(c, h, w) ==> Covered(c, h, w, h / nb, w / nb, nb, nb))
      <==> (h == 2 || w == 2 || (h % nb <= 2 && w % nb <= 2))
  {
    var corner := Cell(h - 2, w - 2);
    if h > 2 && w > 2 {
      assert Inner(corner, h, w);
    }
  }

  lemma JacobiCoversInterior(h: int, w: int, nb: int)
    requires h >= 2 && w >= 2 && nb > 0
    ensures (forall c :: Inner(c, h, w) ==> Covered(c, h, w, h, w / nb, 1, nb)) <==> (h == 2 || w == 2 || w % nb <= 2)
  {
    var corner := Cell(h - 2, w - 2);
    if h > 2 && w > 2 {
      assert Inner(corner, h, w);
    }
  }

  // ---------------------------------------------------------------- Gauss-Seidel

  lemma {:induction false} SortedTilesAscend(h: int, w: int, bh: int, bw: int, tiles: seq<Tile>)
    requires Sorted(tiles)
    ensures Ascending(AllCells(h, w, bh, bw, tiles))
    decreases |tiles|
  {
    if tiles != [] {
      var n := |tiles| - 1;
      var a, t := AllCells(h, w, bh, bw, tiles[..n]), tiles[n];
      SortedTilesAscend(h, w, bh, bw, tiles[..n]);
      BlockAscending(1 + t.ii * bh, Edge(t.ii + 1, bh, h) + 1, 1 + t.jj * bw, Edge(t.jj + 1, bw, w) + 1);
      forall x, y | x in a && y in TileCells(h, w, bh, bw, t)
        ensures x != y && !Feeds(y, x)
      {
        var k := TileOfCell(h, w, bh, bw, tiles[..n], x);
        LaterTileFeedsNot(h, w, bh, bw, tiles[k], t, x, y);
      }
      AscendingConcat(a, TileCells(h, w, bh, bw, t));
    }
  }

  lemma BothColours(rows: int, nb: int)
    ensures AllTiles(Tiles(rows, nb, AnyColour), rows, nb)
  {
    forall t
      ensures t in Tiles(rows, nb, AnyColour) <==> 0 <= t.ii < rows && 0 <= t.jj < nb
    {
      TilesMember(rows, nb, AnyColour, t);
    }
  }

  /** The covered cells row by row. */
  function Sweep(h: int, w: int, bh: int, bw: int, rows: int, nb: int): seq<Cell> {
    Block(1, Edge(rows, bh, h) + 1, 1, Edge(nb, bw, w) + 1)
  }

  lemma SweepMember(h: int, w: int, bh: int, bw: int, rows: int, nb: int, c: Cell)
    ensures c in Sweep(h, w, bh, bw, rows, nb) <==> Covered(c, h, w, bh, bw, rows, nb)
  {
    BlockMember(1, Edge(rows, bh, h) + 1, 1, Edge(nb, bw, w) + 1, c);
  }

  /** Tiling does not change the sweep: it leaves the grid and the residual of the plain
      row-by-row sweep over the covered cells. */
  lemma TilingIsSweep(h: int, w: int, bh: int, bw: int, rows: int, nb: int, st: State)
    requires bh >= 0 && bw >= 0 && rows > 0 && nb > 0
    ensures Run(TileStep(h, w, bh, bw), st, Tiles(rows, nb, AnyColour))
         == Run(RelaxStep(h, w), st, Sweep(h, w, bh, bw, rows, nb))
  {
    var tiles := Tiles(rows, nb, AnyColour);
    TilesAreCells(h, w, bh, bw, st, tiles);
    TilesSorted(rows, nb, AnyColour);
    SortedTilesAscend(h, w, bh, bw, tiles);
    BlockAscending(1, Edge(rows, bh, h) + 1, 1, Edge(nb, bw, w) + 1);
    BothColours(rows, nb);
    forall c
      ensures c in AllCells(h, w, bh, bw, tiles) <==> c in Sweep(h, w, bh, bw, rows, nb)
    {
      TilesCover(h, w, bh, bw, rows, nb, tiles, c);
      SweepMember(h, w, bh, bw, rows, nb, c);
    }
    AscendingSameRun(h, w, st, AllCells(h, w, bh, bw, tiles), Sweep(h, w, bh, bw, rows, nb));
  }

  // ---------------------------------------------------------------- red-black

  /** The same tiles, in any order, none twice. */
  ghost predicate Rearranged(s: seq<Tile>, t: seq<Tile>) {
    NoDup(s) && forall x :: x in s <==> x in t
  }

  lemma SameColourAnyOrder(h: int, w: int, bh: int, bw: int, nb: int, st: State, tiles: seq<Tile>, want: Tile -> bool)
    requires Rearranged(tiles, Tiles(nb, nb, want))
    requires (forall t :: want(t) == Red(t)) || (forall t :: want(t) == Black(t))
    ensures Run(TileStep(h, w, bh, bw), st, tiles) == Run(TileStep(h, w, bh, bw), st, Tiles(nb, nb, want))
  {
    TilesSorted(nb, nb, want);
    forall a, b | a in tiles && b in tiles && a != b
      ensures Commute(TileStep(h, w, bh, bw), a, b)
    {
      TilesMember(nb, nb, want, a);
      TilesMember(nb, nb, want, b);
      SameColourCommutes(h, w, bh, bw, a, b);
    }
    AnyOrder(TileStep(h, w, bh, bw), st, tiles, Tiles(nb, nb, want));
  }

  /** The red tiles may be done in any order, then the black tiles in any order. */
  lemma RedBlackAnyOrder(h: int, w: int, bh: int, bw: int, nb: int, st: State, red: seq<Tile>, black: seq<Tile>)
    requires Rearranged(red, Tiles(nb, nb, Red)) && Rearranged(black, Tiles(nb, nb, Black))
    ensures Run(TileStep(h, w, bh, bw), st, red + black)
         == Run(TileStep(h, w, bh, bw), st, Tiles(nb, nb, Red) + Tiles(nb, nb, Black))
  {
    var step := TileStep(h, w, bh, bw);
    RunConcat(step, st, red, black);
    RunConcat(step, st, Tiles(nb, nb, Red), Tiles(nb, nb, Black));
    SameColourAnyOrder(h, w, bh, bw, nb, st, red, Red);
    SameColourAnyOrder(h, w, bh, bw, nb, Run(step, st, red), black, Black);
  }

  /** In every such order each covered cell is relaxed exactly once, and no other cell is. */
  lemma RedBlackOnce(h: int, w: int, bh: int, bw: int, nb: int, red: seq<Tile>, black: seq<Tile>, c: Cell)
    requires bh >= 0 && bw >= 0 && nb > 0
    requires Rearranged(red, Tiles(nb, nb, Red)) && Rearranged(black, Tiles(nb, nb, Black))
    ensures var cells := AllCells(h, w, bh, bw, red + black);
      NoDup(cells) && (c in cells <==> Covered(c, h, w, bh, bw, nb, nb))
  {
    var tiles := red + black;
    ColoursPartition(nb, red, black);
    CellsOnce(h, w, bh, bw, tiles);
    TilesCover(h, w, bh, bw, nb, nb, tiles, c);
  }

  lemma OneColour(nb: int, t: Tile)
    ensures 0 <= t.ii < nb && 0 <= t.jj < nb <==> t in Tiles(nb, nb, Red) || t in Tiles(nb, nb, Black)
    ensures !(t in Tiles(nb, nb, Red) && t in Tiles(nb, nb, Black))
  {
    TilesMember(nb, nb, Red, t);
    TilesMember(nb, nb, Black, t);
  }

  lemma ColoursPartition(nb: int, red: seq<Tile>, black: seq<Tile>)
    requires Rearranged(red, Tiles(nb, nb, Red)) && Rearranged(black, Tiles(nb, nb, Black))
    ensures NoDup(red + black) && AllTiles(red + black, nb, nb)
  {
    forall i, j | 0 <= i < |red| && 0 <= j < |black|
      ensures red[i] != black[j]
    {
      OneColour(nb, red[i]);
      assert red[i] in red && black[j] in black;
    }
    forall t
      ensures t in red + black <==> 0 <= t.ii < nb && 0 <= t.jj < nb
    {
      OneColour(nb, t);
    }
  }

  // ---------------------------------------------------------------- Jacobi

  /** Writes the mean around one cell of u into utmp (the state's grid). */
  function Jacobi(u: seq<real>, h: int, w: int, st: State, c: Cell): State {
    if Inner(c, h, w) && |u| == |st.u| == h * w then
      InnerInRange(c, h, w);
      var p := At(c.i, c.j, w);
      var diff := Mean(u, p, w) - u[p];
      State(st.u[p := Mean(u, p, w)], st.sum + Square(diff))
    else st
  }

  function JacobiStep(u: seq<real>, h: int, w: int): (State, Cell) -> State {
    (st: State, c: Cell) => Jacobi(u, h, w, st, c)
  }

  /** One task: a strip of columns relaxed into its own sum, which is then added to the shared one. */
  function Task(u: seq<real>, h: int, w: int, bw: int, st: State, jj: int): State {
    var r := Run(JacobiStep(u, h, w), State(st.u, 0.0), TileCells(h, w, h, bw, Tile(0, jj)));
    State(r.u, st.sum + r.sum)
  }

  function TaskStep(u: seq<real>, h: int, w: int, bw: int): (State, int) -> State {
    (st: State, jj: int) => Task(u, h, w, bw, st, jj)
  }

  lemma JacobiCommutes(u: seq<real>, h: int, w: int, a: Cell, b: Cell)
    ensures Commute(JacobiStep(u, h, w), a, b)
  {
    if a != b && Inner(a, h, w) && Inner(b, h, w) {
      InnerInRange(a, h, w);
      InnerInRange(b, h, w);
      if At(a.i, a.j, w) == At(b.i, b.j, w) {
        AtInjective(a.i, a.j, b.i, b.j, w);
      }
      forall st: State
        ensures Jacobi(u, h, w, Jacobi(u, h, w, st, a), b) == Jacobi(u, h, w, Jacobi(u, h, w, st, b), a)
      {
        if |u| == |st.u| == h * w {
          var p, q := At(a.i, a.j, w), At(b.i, b.j, w);
          assert st.u[p := Mean(u, p, w)][q := Mean(u, q, w)] == st.u[q := Mean(u, q, w)][p := Mean(u, p, w)];
        }
      }
    }
  }

  lemma {:induction false} SumShift(u: seq<real>, h: int, w: int, g: seq<real>, s: real, cs: seq<Cell>)
    ensures var r := Run(JacobiStep(u, h, w), State(g, 0.0), cs);
      Run(JacobiStep(u, h, w), State(g, s), cs) == State(r.u, s + r.sum)
    decreases |cs|
  {
    if cs != [] {
      SumShift(u, h, w, g, s, cs[..|cs| - 1]);
    }
  }

  function TaskTiles(tasks: seq<int>): (r: seq<Tile>)
    ensures |r| == |tasks| && forall k :: 0 <= k < |r| ==> r[k] == Tile(0, tasks[k])
  {
    if tasks == [] then [] else TaskTiles(tasks[..|tasks| - 1]) + [Tile(0, tasks[|tasks| - 1])]
  }

  lemma {:induction false} TasksAreCells(u: seq<real>, h: int, w: int, bw: int, st: State, tasks: seq<int>)
    ensures Run(TaskStep(u, h, w, bw), st, tasks)
         == Run(JacobiStep(u, h, w), st, AllCells(h, w, h, bw, TaskTiles(tasks)))
    decreases |tasks|
  {
    if tasks != [] {
      var n := |tasks| - 1;
      TasksAreCells(u, h, w, bw, st, tasks[..n]);
      var mid := Run(TaskStep(u, h, w, bw), st, tasks[..n]);
      var cs := TileCells(h, w, h, bw, Tile(0, tasks[n]));
      SumShift(u, h, w, mid.u, mid.sum, cs);
      RunConcat(JacobiStep(u, h, w), st, AllCells(h, w, h, bw, TaskTiles(tasks[..n])), cs);
      assert TaskTiles(tasks)[..n] == TaskTiles(tasks[..n]);
    }
  }

  /** A schedule runs each of the nb tasks once. */
  ghost predicate Schedule(tasks: seq<int>, nb: int) {
    NoDup(tasks) && forall jj :: jj in tasks <==> 0 <= jj < nb
  }

  /** Whatever the schedule, the tasks do what one row-by-row pass over the covered cells does. */
  lemma AnySchedule(u: seq<real>, h: int, w: int, bw: int, nb: int, st: State, tasks: seq<int>)
    requires h >= 2 && bw >= 0 && nb > 0 && Schedule(tasks, nb)
    ensures Run(TaskStep(u, h, w, bw), st, tasks) == Run(JacobiStep(u, h, w), st, Sweep(h, w, h, bw, 1, nb))
    ensures NoDup(AllCells(h, w, h, bw, TaskTiles(tasks)))
  {
    var tiles := TaskTiles(tasks);
    TasksAreCells(u, h, w, bw, st, tasks);
    TasksPartition(tasks, nb);
    CellsOnce(h, w, h, bw, tiles);
    var cs, sweep := AllCells(h, w, h, bw, tiles), Sweep(h, w, h, bw, 1, nb);
    BlockAscending(1, Edge(1, h, h) + 1, 1, Edge(nb, bw, w) + 1);
    forall c
      ensures c in cs <==> c in sweep
    {
      TilesCover(h, w, h, bw, 1, nb, tiles, c);
      SweepMember(h, w, h, bw, 1, nb, c);
    }
    forall a, b | a in cs && b in cs && a != b
      ensures Commute(JacobiStep(u, h, w), a, b)
    {
      JacobiCommutes(u, h, w, a, b);
    }
    AnyOrder(JacobiStep(u, h, w), st, cs, sweep);
  }

  lemma TasksPartition(tasks: seq<int>, nb: int)
    requires Schedule(tasks, nb)
    ensures NoDup(TaskTiles(tasks)) && AllTiles(TaskTiles(tasks), 1, nb)
  {
    var tiles := TaskTiles(tasks);
    forall t
      ensures t in tiles <==> 0 <= t.ii < 1 && 0 <= t.jj < nb
    {
      if t in tiles {
        var k :| 0 <= k < |tiles| && tiles[k] == t;
        assert tasks[k] in tasks;
      }
      if t.ii == 0 && 0 <= t.jj < nb {
        assert t.jj in tasks;
        var k :| 0 <= k < |tasks| && tasks[k] == t.jj;
        assert tiles[k] == t;
      }
    }
  }

  /** The result is the direct stencil of u: every visited cell holds its mean, the rest is kept. */
  lemma {:induction false} JacobiDirect(u: seq<real>, h: int, w: int, st: State, cs: seq<Cell>, c: Cell)
    requires |u| == |st.u| == h * w && 0 <= c.i < h && 0 <= c.j < w
    requires forall x :: x in cs ==> Inner(x, h, w)
    ensures 0 <= At(c.i, c.j, w) < h * w && |Run(JacobiStep(u, h, w), st, cs).u| == h * w
    ensures c in cs ==> 0 < w <= At(c.i, c.j, w) && At(c.i, c.j, w) + w < h * w
    ensures Run(JacobiStep(u, h, w), st, cs).u[At(c.i, c.j, w)]
         == if c in cs then Mean(u, At(c.i, c.j, w), w) else st.u[At(c.i, c.j, w)]
    decreases |cs|
  {
    AtInRange(c.i, c.j, h, w);
    if cs != [] {
      var n := |cs| - 1;
      var x := cs[n];
      JacobiDirect(u, h, w, st, cs[..n], c);
      assert x in cs;
      InnerInRange(x, h, w);
      if At(c.i, c.j, w) == At(x.i, x.j, w) {
        AtInjective(c.i, c.j, x.i, x.j, w);
      }
    }
  }

  /** What a Jacobi step leaves: the direct stencil of u on the covered cells, and nothing else. */
  lemma JacobiResult(u: seq<real>, h: int, w: int, nb: int, st: State, c: Cell)
    requires h >= 2 && w >= 2 && nb > 0 && |u| == |st.u| == h * w && 0 <= c.i < h && 0 <= c.j < w
    ensures var r := Run(JacobiStep(u, h, w), st, Sweep(h, w, h, w / nb, 1, nb));
      && 0 <= At(c.i, c.j, w) < h * w && |r.u| == h * w
      && (Covered(c, h, w, h, w / nb, 1, nb) ==>
          Inner(c, h, w) && 0 < w <= At(c.i, c.j, w) && At(c.i, c.j, w) + w < h * w)
      && r.u[At(c.i, c.j, w)]
           == if Covered(c, h, w, h, w / nb, 1, nb) then Mean(u, At(c.i, c.j, w), w) else st.u[At(c.i, c.j, w)]
  {
    forall x | x in Sweep(h, w, h, w / nb, 1, nb)
      ensures Inner(x, h, w)
    {
      SweepMember(h, w, h, w / nb, 1, nb, x);
    }
    SweepMember(h, w, h, w / nb, 1, nb, c);
    JacobiDirect(u, h, w, st, Sweep(h, w, h, w / nb, 1, nb), c);
  }

  // ---------------------------------------------------------------- the sweeps in place

  /** Row i, column j of v is the mean of the four neighbours in u, everything else is as in v0, and
      `added` is the square of the change. */
  ghost predicate Wrote(u: seq<real>, v0: seq<real>, v: seq<real>, added: real, i: int, j: int, w: int) {
    && |u| == |v0| && 0 <= (i - 1) * w + j && 0 <= i * w + (j - 1) && i * w + (j + 1) < |u| && (i + 1) * w + j < |u|
    && 0 < w
    && var mean := 0.25 * (u[i * w + (j - 1)] + u[i * w + (j + 1)] + u[(i - 1) * w + j] + u[(i + 1) * w + j]);
       v == v0[i * w + j := mean] && added == (mean - u[i * w + j]) * (mean - u[i * w + j])
  }

  lemma WroteMean(u: seq<real>, v0: seq<real>, i: int, j: int, h: int, w: int, p: int, diff: real)
    requires |u| == |v0| == h * w && Inner(Cell(i, j), h, w) && p == At(i, j, w)
    requires 0 < w <= p && p + w < |u| && diff == Mean(u, p, w) - u[p]
    ensures Wrote(u, v0, v0[p := Mean(u, p, w)], diff * diff, i, j, w)
  {
    AtNeighbours(i, j, w);
    assert u[i * w + j] == u[p];
  }

  /** The innermost body shared by the Gauss-Seidel and red-black sweeps. */
  method RelaxCell(u: array<real>, h: int, w: int, i: int, j: int, sum0: real) returns (sum: real)
    requires u.Length == h * w && Inner(Cell(i, j), h, w)
    modifies u
    ensures State(u[..], sum) == Relax(h, w, State(old(u[..]), sum0), Cell(i, j))
    ensures Wrote(old(u[..]), old(u[..]), u[..], sum - sum0, i, j, w)
  {
    InnerInRange(Cell(i, j), h, w);
    AtNeighbours(i, j, w);
    var unew := 0.25 * (u[At(i, j - 1, w)] + u[At(i, j + 1, w)] + u[At(i - 1, j, w)] + u[At(i + 1, j, w)]);
    var diff := unew - u[At(i, j, w)];
    sum := sum0 + diff * diff;
    u[At(i, j, w)] := unew;
    RelaxIs(old(u[..]), h, w, sum0, Cell(i, j), At(i, j, w), unew, diff);
    assert u[..] == old(u[..])[At(i, j, w) := unew];
    WroteMean(old(u[..]), old(u[..]), i, j, h, w, At(i, j, w), diff);
  }

  lemma RelaxIs(u: seq<real>, h: int, w: int, sum: real, c: Cell, p: int, unew: real, diff: real)
    requires |u| == h * w && Inner(c, h, w) && p == At(c.i, c.j, w)
    requires 0 < w <= p && p + w < |u| && unew == Mean(u, p, w) && diff == unew - u[p]
    ensures Relax(h, w, State(u, sum), c) == State(u[p := unew], sum + Square(diff))
  {
  }

  /** The two inner loops of those sweeps, over rows ilo..ihi and columns jlo..jhi. */
  method RelaxBlock(u: array<real>, h: int, w: int, ilo: int, ihi: int, jlo: int, jhi: int, sum0: real)
    returns (sum: real)
    requires u.Length == h * w && 1 <= ilo && ihi <= h - 2 && 1 <= jlo && jhi <= w - 2
    modifies u
    ensures State(u[..], sum) == Run(RelaxStep(h, w), State(old(u[..]), sum0), Block(ilo, ihi + 1, jlo, jhi + 1))
  {
    sum := sum0;
    ghost var st := State(u[..], sum0);
    var i := ilo;
    while i <= ihi
      invariant ilo <= i && (i <= ihi + 1 || i == ilo)
      invariant State(u[..], sum) == Run(RelaxStep(h, w), st, Block(ilo, i, jlo, jhi + 1))
    {
      RunConcat(RelaxStep(h, w), st, Block(ilo, i, jlo, jhi + 1), Row(i, jlo, jhi + 1));
      sum := RelaxRow(u, h, w, i, jlo, jhi, sum);
      i := i + 1;
    }
  }

  /** The inner one of them. */
  method RelaxRow(u: array<real>, h: int, w: int, i: int, jlo: int, jhi: int, sum0: real) returns (sum: real)
    requires u.Length == h * w && 1 <= i <= h - 2 && 1 <= jlo && jhi <= w - 2
    modifies u
    ensures State(u[..], sum) == Run(RelaxStep(h, w), State(old(u[..]), sum0), Row(i, jlo, jhi + 1))
  {
    sum := sum0;
    ghost var st := State(u[..], sum0);
    var j := jlo;
    while j <= jhi
      invariant jlo <= j && (j <= jhi + 1 || j == jlo)
      invariant State(u[..], sum) == Run(RelaxStep(h, w), st, Row(i, jlo, j))
    {
      RunSnoc(RelaxStep(h, w), st, Row(i, jlo, j), Cell(i, j));
      sum := RelaxCell(u, h, w, i, j, sum);
      j := j + 1;
    }
  }

  method RelaxTile(u: array<real>, h: int, w: int, bh: int, bw: int, t: Tile, sum0: real) returns (sum: real)
    requires u.Length == h * w && t.ii >= 0 && t.jj >= 0 && bh >= 0 && bw >= 0
    modifies u
    ensures State(u[..], sum) == TileStep(h, w, bh, bw)(State(old(u[..]), sum0), t)
  {
    MulLe(0, t.ii, bh);
    MulLe(0, t.jj, bw);
    sum := RelaxBlock(u, h, w, 1 + t.ii * bh, Min((t.ii + 1) * bh, h - 2),
                      1 + t.jj * bw, Min((t.jj + 1) * bw, w - 2), sum0);
    assert TileCells(h, w, bh, bw, t) == Block(1 + t.ii * bh, Min((t.ii + 1) * bh, h - 2) + 1,
                                               1 + t.jj * bw, Min((t.jj + 1) * bw, w - 2) + 1);
  }

  /** Column jj is visited by a loop from `start` in steps of `stride`. */
  predicate OnStride(jj: int, start: int, stride: int) {
    stride == 1 || jj % 2 == start
  }

  lemma StrideTiles(ii: int, jj: int, start: int, stride: int, want: Tile -> bool)
    requires jj >= 0 && 0 <= start < stride <= 2 && OnStride(jj, start, stride)
    requires forall jj :: want(Tile(ii, jj)) == OnStride(jj, start, stride)
    ensures OnStride(jj + stride, start, stride)
    ensures RowTiles(ii, jj + stride, want) == RowTiles(ii, jj + 1, want) == RowTiles(ii, jj, want) + [Tile(ii, jj)]
  {
    assert want(Tile(ii, jj));
    assert stride == 2 ==> !want(Tile(ii, jj + 1));
  }

  lemma NextOnStride(ii: int, jj: int, nb: int, start: int, stride: int, want: Tile -> bool)
    requires 0 <= jj < nb && 0 <= start < stride <= 2 && OnStride(jj, start, stride)
    requires forall jj :: want(Tile(ii, jj)) == OnStride(jj, start, stride)
    ensures OnStride(jj + stride, start, stride)
    ensures RowTiles(ii, Min(jj + stride, nb), want) == RowTiles(ii, Min(jj, nb), want) + [Tile(ii, jj)]
  {
    StrideTiles(ii, jj, start, stride, want);
  }

  lemma StrideStart(ii: int, start: int, stride: int, want: Tile -> bool)
    requires 0 <= start < stride <= 2
    requires forall jj :: want(Tile(ii, jj)) == OnStride(jj, start, stride)
    ensures OnStride(start, start, stride) && RowTiles(ii, start, want) == []
  {
    assert start == 1 ==> !want(Tile(ii, 0)) && RowTiles(ii, 0, want) == [];
  }

  /** Row ii of tiles, every `stride`-th tile from column `start` on: all of them for
      Gauss-Seidel, those of one colour for red-black. */
  method RelaxTileRow(u: array<real>, h: int, w: int, bh: int, bw: int, nb: int, ii: int, start: int, stride: int,
                      ghost want: Tile -> bool, sum0: real) returns (sum: real)
    requires u.Length == h * w && bh >= 0 && bw >= 0 && nb > 0 && ii >= 0 && 0 <= start < stride <= 2
    requires forall jj :: want(Tile(ii, jj)) == OnStride(jj, start, stride)
    modifies u
    ensures State(u[..], sum) == Run(TileStep(h, w, bh, bw), State(old(u[..]), sum0), RowTiles(ii, nb, want))
  {
    sum := sum0;
    ghost var st := State(u[..], sum0);
    ghost var done: seq<Tile> := [];
    var jj := start;
    StrideStart(ii, start, stride, want);
    while jj < nb
      invariant 0 <= jj < nb + stride && OnStride(jj, start, stride)
      invariant done == RowTiles(ii, Min(jj, nb), want)
      invariant State(u[..], sum) == Run(TileStep(h, w, bh, bw), st, done)
    {
      RunSnoc(TileStep(h, w, bh, bw), st, done, Tile(ii, jj));
      NextOnStride(ii, jj, nb, start, stride, want);
      sum := RelaxTile(u, h, w, bh, bw, Tile(ii, jj), sum);
      done := done + [Tile(ii, jj)];
      jj := jj + stride;
    }
  }

  /** One blocked Gauss-Seidel step. */
  method RelaxGauss(u: array<real>, h: int, w: int, nb: int) returns (sum: real)
    requires h >= 2 && w >= 2 && nb > 0 && u.Length == h * w
    modifies u
    ensures State(u[..], sum)
      == Run(RelaxStep(h, w), State(old(u[..]), 0.0), Sweep(h, w, h / nb, w / nb, nb, nb))
  {
    var bh, bw := h / nb, w / nb;
    TilingIsSweep(h, w, bh, bw, nb, nb, State(u[..], 0.0));
    sum := RelaxAllTiles(u, h, w, bh, bw, nb);
  }

  method RelaxAllTiles(u: array<real>, h: int, w: int, bh: int, bw: int, nb: int) returns (sum: real)
    requires bh >= 0 && bw >= 0 && nb > 0 && u.Length == h * w
    modifies u
    ensures State(u[..], sum) == Run(TileStep(h, w, bh, bw), State(old(u[..]), 0.0), Tiles(nb, nb, AnyColour))
  {
    sum := 0.0;
    ghost var st := State(u[..], 0.0);
    for ii := 0 to nb
      invariant State(u[..], sum) == Run(TileStep(h, w, bh, bw), st, Tiles(ii, nb, AnyColour))
    {
      RunConcat(TileStep(h, w, bh, bw), st, Tiles(ii, nb, AnyColour), RowTiles(ii, nb, AnyColour));
      sum := RelaxTileRow(u, h, w, bh, bw, nb, ii, 0, 1, AnyColour, sum);
    }
  }

  lemma RowColour(ii: int, shift: int, want: Tile -> bool)
    requires ii >= 0 && 0 <= shift <= 1 && forall t: Tile :: want(t) == ((t.ii + t.jj) % 2 == shift)
    ensures forall jj :: want(Tile(ii, jj)) == OnStride(jj, (ii + shift) % 2, 2)
  {
  }

  /** The loops over the tiles of one colour: row ii starts at column (ii + shift) % 2. */
  method RelaxColour(u: array<real>, h: int, w: int, bh: int, bw: int, nb: int, shift: int,
                     ghost want: Tile -> bool, sum0: real)
    returns (sum: real)
    requires bh >= 0 && bw >= 0 && nb > 0 && u.Length == h * w && 0 <= shift <= 1
    requires forall t: Tile :: want(t) == ((t.ii + t.jj) % 2 == shift)
    modifies u
    ensures State(u[..], sum)
      == Run(TileStep(h, w, bh, bw), State(old(u[..]), sum0), Tiles(nb, nb, want))
  {
    sum := sum0;
    ghost var st := State(u[..], sum0);
    for ii := 0 to nb
      invariant State(u[..], sum) == Run(TileStep(h, w, bh, bw), st, Tiles(ii, nb, want))
    {
      RunConcat(TileStep(h, w, bh, bw), st, Tiles(ii, nb, want), RowTiles(ii, nb, want));
      RowColour(ii, shift, want);
      sum := RelaxTileRow(u, h, w, bh, bw, nb, ii, (ii + shift) % 2, 2, want, sum);
    }
  }

  /** One blocked red-black step. */
  method RelaxRedBlack(u: array<real>, h: int, w: int, nb: int) returns (sum: real)
    requires h >= 2 && w >= 2 && nb > 0 && u.Length == h * w
    modifies u
    ensures State(u[..], sum) == Run(TileStep(h, w, h / nb, w / nb), State(old(u[..]), 0.0),
                                     Tiles(nb, nb, Red) + Tiles(nb, nb, Black))
  {
    var bh, bw := h / nb, w / nb;
    ghost var st := State(u[..], 0.0);
    RunConcat(TileStep(h, w, bh, bw), st, Tiles(nb, nb, Red), Tiles(nb, nb, Black));
    sum := RelaxColour(u, h, w, bh, bw, nb, 0, Red, 0.0);
    sum := RelaxColour(u, h, w, bh, bw, nb, 1, Black, sum);
  }

  /** The body of one Jacobi task, from its own zero sum. */
  method JacobiTask(u: array<real>, utmp: array<real>, h: int, w: int, ilo: int, ihi: int, jlo: int, jhi: int)
    returns (localSum: real)
    requires u != utmp && u.Length == utmp.Length == h * w && 1 <= ilo && ihi <= h - 2 && 1 <= jlo && jhi <= w - 2
    modifies utmp
    ensures State(utmp[..], localSum)
      == Run(JacobiStep(u[..], h, w), State(old(utmp[..]), 0.0), Block(ilo, ihi + 1, jlo, jhi + 1))
  {
    localSum := 0.0;
    ghost var st, v := State(utmp[..], 0.0), u[..];
    var i := ilo;
    while i <= ihi
      invariant ilo <= i && (i <= ihi + 1 || i == ilo) && u[..] == v
      invariant State(utmp[..], localSum) == Run(JacobiStep(v, h, w), st, Block(ilo, i, jlo, jhi + 1))
    {
      RunConcat(JacobiStep(v, h, w), st, Block(ilo, i, jlo, jhi + 1), Row(i, jlo, jhi + 1));
      localSum := JacobiRow(u, utmp, h, w, i, jlo, jhi, localSum);
      i := i + 1;
    }
  }

  /** The inner loop of a task. */
  method JacobiRow(u: array<real>, utmp: array<real>, h: int, w: int, i: int, jlo: int, jhi: int, sum0: real)
    returns (sum: real)
    requires u != utmp && u.Length == utmp.Length == h * w && 1 <= i <= h - 2 && 1 <= jlo && jhi <= w - 2
    modifies utmp
    ensures State(utmp[..], sum) == Run(JacobiStep(u[..], h, w), State(old(utmp[..]), sum0), Row(i, jlo, jhi + 1))
  {
    sum := sum0;
    ghost var st, v := State(utmp[..], sum0), u[..];
    var j := jlo;
    while j <= jhi
      invariant jlo <= j && (j <= jhi + 1 || j == jlo) && u[..] == v
      invariant State(utmp[..], sum) == Run(JacobiStep(v, h, w), st, Row(i, jlo, j))
    {
      RunSnoc(JacobiStep(v, h, w), st, Row(i, jlo, j), Cell(i, j));
      sum := JacobiCell(u, utmp, h, w, i, j, sum);
      j := j + 1;
    }
  }

  method JacobiCell(u: array<real>, utmp: array<real>, h: int, w: int, i: int, j: int, sum0: real) returns (sum: real)
    requires u != utmp && u.Length == utmp.Length == h * w && Inner(Cell(i, j), h, w)
    modifies utmp
    ensures State(utmp[..], sum) == Jacobi(u[..], h, w, State(old(utmp[..]), sum0), Cell(i, j))
    ensures Wrote(u[..], old(utmp[..]), utmp[..], sum - sum0, i, j, w)
  {
    InnerInRange(Cell(i, j), h, w);
    AtNeighbours(i, j, w);
    var p := At(i, j, w);
    utmp[p] := 0.25 * (u[At(i, j - 1, w)] + u[At(i, j + 1, w)] + u[At(i - 1, j, w)] + u[At(i + 1, j, w)]);
    var diff := utmp[p] - u[p];
    sum := sum0 + diff * diff;
    JacobiIs(u[..], old(utmp[..]), h, w, sum0, Cell(i, j), p, diff);
    assert utmp[..] == old(utmp[..])[p := Mean(u[..], p, w)];
    WroteMean(u[..], old(utmp[..]), i, j, h, w, p, diff);
  }

  lemma JacobiIs(u: seq<real>, v: seq<real>, h: int, w: int, sum: real, c: Cell, p: int, diff: real)
    requires |u| == |v| == h * w && Inner(c, h, w) && p == At(c.i, c.j, w)
    requires 0 < w <= p && p + w < |u| && diff == Mean(u, p, w) - u[p]
    ensures Jacobi(u, h, w, State(v, sum), c) == State(v[p := Mean(u, p, w)], sum + Square(diff))
  {
  }

  /** One blocked Jacobi step whose tasks run atomically in the order of `schedule`. */
  method RelaxJacobi(u: array<real>, utmp: array<real>, h: int, w: int, nb: int, schedule: seq<int>) returns (sum: real)
    requires u != utmp && h >= 2 && w >= 2 && nb > 0 && u.Length == utmp.Length == h * w && Schedule(schedule, nb)
    modifies utmp
    ensures State(utmp[..], sum)
      == Run(JacobiStep(u[..], h, w), State(old(utmp[..]), 0.0), Sweep(h, w, h, w / nb, 1, nb))
  {
    var bw := w / nb;
    AnySchedule(u[..], h, w, bw, nb, State(utmp[..], 0.0), schedule);
    sum := RunTasks(u, utmp, h, w, bw, nb, schedule);
  }

  method RunTasks(u: array<real>, utmp: array<real>, h: int, w: int, bw: int, nb: int, schedule: seq<int>)
    returns (sum: real)
    requires u != utmp && h >= 2 && bw >= 0 && u.Length == utmp.Length == h * w && Schedule(schedule, nb)
    modifies utmp
    ensures State(utmp[..], sum) == Run(TaskStep(u[..], h, w, bw), State(old(utmp[..]), 0.0), schedule)
  {
    sum := 0.0;
    ghost var st, v := State(utmp[..], 0.0), u[..];
    for k := 0 to |schedule|
      invariant u[..] == v
      invariant State(utmp[..], sum) == Run(TaskStep(v, h, w, bw), st, schedule[..k])
    {
      assert schedule[k] in schedule;
      sum := RunTask(u, utmp, h, w, bw, schedule[k], sum);
      assert schedule[..k + 1] == schedule[..k] + [schedule[k]];
      RunSnoc(TaskStep(v, h, w, bw), st, schedule[..k], schedule[k]);
    }
    assert schedule[..|schedule|] == schedule;
  }

  /** One task and its addition to the shared sum. */
  method RunTask(u: array<real>, utmp: array<real>, h: int, w: int, bw: int, jj: int, sum0: real) returns (sum: real)
    requires u != utmp && h >= 2 && bw >= 0 && jj >= 0 && u.Length == utmp.Length == h * w
    modifies utmp
    ensures State(utmp[..], sum) == Task(u[..], h, w, bw, State(old(utmp[..]), sum0), jj)
  {
    MulLe(0, jj, bw);
    var localSum := JacobiTask(u, utmp, h, w, 1, Min(h, h - 2), 1 + jj * bw, Min((jj + 1) * bw, w - 2));
    sum := sum0 + localSum;
  }
}
