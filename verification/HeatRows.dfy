/** How heat-mpi-ompss.c shares out the rows of the grid between processes. */
module HeatRows {
  import opened Common

  /** Rows first..last, both included. */
  datatype Rows = Rows(first: int, last: int)

  /** Quotient and remainder of the row count by the number of processes. */
  ghost predicate Shares(resolution: nat, numprocs: nat, q: nat, r: nat) {
    resolution == q * numprocs + r && r < numprocs
  }

  function First(i: int, q: nat, r: nat): int { 1 + i * q + Min(i, r) }

  /** The block of process i: q rows, and one more for the first r processes. */
  function Block(i: int, q: nat, r: nat): Rows {
    Rows(First(i, q, r), First(i, q, r) + q - 1 + if i < r then 1 else 0)
  }

  lemma DivMod(x: nat, n: nat)
    requires n > 0
    ensures x / n >= 0 && Shares(x, n, x / n, x % n)
  {
  }

  /** Blocks follow each other without gap or overlap, from row 1 to the last row, and the
      first ones, as many as there are rows over, have one row more. */
  lemma BlocksAreContiguous(resolution: nat, numprocs: nat, q: nat, r: nat, i: nat)
    requires Shares(resolution, numprocs, q, r) && i < numprocs
    ensures Block(0, q, r).first == 1 && Block(numprocs - 1, q, r).last == resolution
    ensures i + 1 < numprocs ==> Block(i + 1, q, r).first == Block(i, q, r).last + 1
    ensures Block(i, q, r).last - Block(i, q, r).first + 1 == if i < resolution % numprocs
      then resolution / numprocs + 1 else resolution / numprocs
    ensures 1 <= Block(i, q, r).first && Block(i, q, r).last <= resolution
  {
    QuotientUnique(resolution, q, r, numprocs);
    MulNext(i, q);
    MulNext(numprocs - 1, q);
    MulLe(0, i, q);
    MulLe(i, numprocs - 1, q);
  }

  lemma {:induction false} FirstGrows(q: nat, r: nat, i: nat, j: nat)
    requires i < j
    ensures Block(i, q, r).last < Block(j, q, r).first
  {
    MulLe(i + 1, j, q);
    MulNext(i, q);
  }

  lemma {:induction false} FindOwner(q: nat, r: nat, numprocs: nat, row: int) returns (i: nat)
    requires numprocs > 0 && 1 <= row < First(numprocs, q, r)
    ensures i < numprocs && Block(i, q, r).first <= row <= Block(i, q, r).last
    decreases numprocs
  {
    MulNext(numprocs - 1, q);
    if numprocs == 1 || row >= First(numprocs - 1, q, r) {
      i := numprocs - 1;
    } else {
      i := FindOwner(q, r, numprocs - 1, row);
    }
  }

  /** Every row belongs to exactly one process. */
  lemma EachRowOnce(resolution: nat, numprocs: nat, q: nat, r: nat, row: int) returns (i: nat)
    requires Shares(resolution, numprocs, q, r) && 1 <= row <= resolution
    ensures i < numprocs && Block(i, q, r).first <= row <= Block(i, q, r).last
    ensures forall j :: 0 <= j < numprocs && Block(j, q, r).first <= row <= Block(j, q, r).last ==> j == i
  {
    assert numprocs * q == q * numprocs;
    i := FindOwner(q, r, numprocs, row);
    forall j | 0 <= j < numprocs && Block(j, q, r).first <= row <= Block(j, q, r).last
      ensures j == i
    {
      if j < i { FirstGrows(q, r, j, i); }
      if i < j { FirstGrows(q, r, i, j); }
    }
  }

  /** Offset and length of an array slice. */
  datatype Slice = Slice(start: int, length: int)

  /** The rows of a block and one row of halo on either side. */
  function HaloSlice(b: Rows, np: int): Slice { Slice((b.first - 1) * np, (b.last - b.first + 3) * np) }

  function OwnSlice(b: Rows, np: int): Slice { Slice(b.first * np, (b.last - b.first + 1) * np) }

  predicate Inside(s: Slice, size: int) { 0 <= s.start && 0 <= s.length && s.start + s.length <= size }

  /** What is sent and received lies inside the grid of np * np values. */
  lemma SlicesInside(resolution: nat, numprocs: nat, q: nat, r: nat, i: nat)
    requires Shares(resolution, numprocs, q, r) && i < numprocs
    ensures var np := resolution + 2;
      Inside(HaloSlice(Block(i, q, r), np), np * np) && Inside(OwnSlice(Block(i, q, r), np), np * np)
  {
    BlocksAreContiguous(resolution, numprocs, q, r, i);
    var b, np := Block(i, q, r), resolution + 2;
    RowsInside(b.first - 1, b.last - b.first + 3, np);
    RowsInside(b.first, b.last - b.first + 1, np);
  }

  lemma RowsInside(start: int, rows: int, np: nat)
    requires 0 <= start && 0 <= rows && start + rows <= np
    ensures Inside(Slice(start * np, rows * np), np * np)
  {
    MulLe(0, start, np);
    MulLe(0, rows, np);
    MulLe(start + rows, np, np);
    assert start * np + rows * np == (start + rows) * np;
  }

  // ---------------------------------------------------------------- the loops

  /** The scatter loop: the block of every process, and the slices sent to all but process 0. The
      first row of a block is carried over from the last row of the one before. */
  method Scatter(resolution: nat, numprocs: nat) returns (blocks: seq<Rows>, sent: seq<Slice>)
    requires numprocs > 0
    ensures var q, r := resolution / numprocs, resolution % numprocs;
      && |blocks| == numprocs && (forall i :: 0 <= i < numprocs ==> blocks[i] == Block(i, q, r))
      && |sent| == numprocs - 1
      && forall i :: 1 <= i < numprocs ==> sent[i - 1] == HaloSlice(Block(i, q, r), resolution + 2)
  {
    var q, r, np := resolution / numprocs, resolution % numprocs, resolution + 2;
    DivMod(resolution, numprocs);
    blocks, sent := [], [];
    var firstRow := 1;
    for i := 0 to numprocs
      invariant firstRow == First(i, q, r)
      invariant |blocks| == i && forall k :: 0 <= k < i ==> blocks[k] == Block(k, q, r)
      invariant |sent| == Max(i - 1, 0) && forall k :: 1 <= k < i ==> sent[k - 1] == HaloSlice(Block(k, q, r), np)
    {
      var lastRow := firstRow + q - 1;
      lastRow := if i < r then lastRow + 1 else lastRow;
      blocks := blocks + [Rows(firstRow, lastRow)];
      if i > 0 {
        sent := sent + [Slice((firstRow - 1) * np, (lastRow - firstRow + 3) * np)];
      }
      firstRow := lastRow + 1;
      MulNext(i, q);
    }
  }

  /** The grid once a message is received into a slice of it. */
  function Written(u: seq<real>, s: Slice, message: seq<real>): (v: seq<real>)
    requires |message| == s.length && Inside(s, |u|)
    ensures |v| == |u|
  {
    u[..s.start] + message + u[s.start + s.length..]
  }

  /** The message of process i holds the rows of its block, and they fit where they are received. */
  predicate Fitting(size: int, message: seq<real>, i: nat, q: nat, r: nat, np: nat) {
    |message| == OwnSlice(Block(i, q, r), np).length && Inside(OwnSlice(Block(i, q, r), np), size)
  }

  /** The grid of process 0 once it has the messages of the processes 1 to n - 1. */
  function Received(u: seq<real>, messages: seq<seq<real>>, n: nat, q: nat, r: nat, np: nat): (v: seq<real>)
    requires n <= |messages| && forall i :: 1 <= i < n ==> Fitting(|u|, messages[i], i, q, r, np)
    ensures |v| == |u|
  {
    if n <= 1 then u
    else
      assert Fitting(|u|, messages[n - 1], n - 1, q, r, np);
      Written(Received(u, messages, n - 1, q, r, np), OwnSlice(Block(n - 1, q, r), np), messages[n - 1])
  }

  /** MPI_Recv into the grid from `start` on. */
  method Receive(u: array<real>, start: nat, message: seq<real>)
    requires start + |message| <= u.Length
    modifies u
    ensures u[..] == Written(old(u[..]), Slice(start, |message|), message)
  {
    for p := 0 to |message|
      invariant forall k :: 0 <= k < u.Length ==>
        u[k] == if start <= k < start + p then message[k - start] else old(u[k])
    {
      u[start + p] := message[p];
    }
    assert u[..] == Written(old(u[..]), Slice(start, |message|), message);
  }

  /** The gather loop: process 0 receives the own rows of every other process into its grid. */
  method Gather(u: array<real>, messages: seq<seq<real>>, resolution: nat, numprocs: nat)
    requires numprocs > 0 && |messages| == numprocs && u.Length == (resolution + 2) * (resolution + 2)
    requires var q, r := resolution / numprocs, resolution % numprocs;
      forall i :: 1 <= i < numprocs ==> Fitting(u.Length, messages[i], i, q, r, resolution + 2)
    modifies u
    ensures var q, r := resolution / numprocs, resolution % numprocs;
      u[..] == Received(old(u[..]), messages, numprocs, q, r, resolution + 2)
  {
    var q, r, np := resolution / numprocs, resolution % numprocs, resolution + 2;
    DivMod(resolution, numprocs);
    var firstRow := 1;
    for i := 0 to numprocs
      invariant firstRow == First(i, q, r) && u[..] == Received(old(u[..]), messages, i, q, r, np)
    {
      var lastRow := firstRow + q - 1;
      lastRow := if i < r then lastRow + 1 else lastRow;
      if i > 0 {
        assert Fitting(u.Length, messages[i], i, q, r, np);
        Receive(u, firstRow * np, messages[i]);
      }
      firstRow := lastRow + 1;
      MulNext(i, q);
    }
  }

  /** What process 0 computes for itself is its block in the loops. */
  method RankZero(resolution: nat, numprocs: nat) returns (b: Rows, rows: int)
    requires numprocs > 0
    ensures b == Block(0, resolution / numprocs, resolution % numprocs) && rows == b.last - b.first + 1
  {
    DivMod(resolution, numprocs);
    var firstRow := 1;
    var lastRow := firstRow + resolution / numprocs - 1;
    lastRow := if resolution % numprocs > 0 then lastRow + 1 else lastRow;
    rows := lastRow - firstRow + 1;
    b := Rows(firstRow, lastRow);
  }
}
