/** The set of instrumented function addresses of UF_gcc_instrument.c: open addressing with a
    bounded linear probe. Insertion and lookup walk the probe in different ways. */
module UserFunctions {
  import opened Common

  const NULL: int := 0
  const UF_LOOKAHEAD: nat := 64
  const MAX_UFS: nat := 0x2_0000

  /** HASH on a 64-bit machine; `size` is MAX_UFs. The shift of a signed address rounds down. */
  function Hash(address: int, size: nat): (h: nat)
    requires size > 0
    ensures h < size
  {
    (address / 8) % size
  }

  /** The eight addresses of a word share a slot, and the next word has the next slot, going round. */
  lemma WordsInTurn(address: int, size: nat)
    requires size > 0
    ensures 0 <= address < 8 ==> Hash(address, size) == 0
    ensures Hash(address + 8, size) == if Hash(address, size) + 1 == size then 0 else Hash(address, size) + 1
    ensures Hash(address, size) == Hash(address - address % 8, size)
  {
    assert (address + 8) / 8 == address / 8 + 1 && (address - address % 8) / 8 == address / 8;
    NextModulo(address / 8, size);
  }

  /** The slot d steps after h, going round. */
  function Slot(h: nat, d: nat, size: nat): (r: nat)
    requires h < size
    ensures r < size
  {
    if d == 0 then h
    else
      var s := Slot(h, d - 1, size);
      if s + 1 == size then 0 else s + 1
  }

  lemma {:induction false} SlotIs(h: nat, d: nat, size: nat)
    requires h < size
    ensures Slot(h, d, size) == (h + d) % size
  {
    if d > 0 {
      SlotIs(h, d - 1, size);
      NextModulo(h + d - 1, size);
    }
  }

  lemma NextModulo(x: int, size: nat)
    requires size > 0
    ensures (x + 1) % size == if x % size + 1 == size then 0 else x % size + 1
  {
    var q, r := x / size, x % size;
    assert x + 1 == q * size + (r + 1);
    if r + 1 == size {
      MulNext(q, size);
      QuotientUnique(x + 1, q + 1, 0, size);
    } else {
      QuotientUnique(x + 1, q, r + 1, size);
    }
  }

  /** The slot at distance d in the probe of an address. */
  function Place(address: int, d: nat, size: nat): (r: nat)
    requires size > 0
    ensures r < size
  {
    Slot(Hash(address, size), d, size)
  }

  /** Distance of the first free slot of a probe from distance d on, or look + 1. */
  function FreeFrom(look: nat, slots: seq<int>, address: int, d: nat): (r: nat)
    requires |slots| > 0 && d <= look + 1
    ensures d <= r <= look + 1
    ensures forall k :: d <= k < r ==> slots[Place(address, k, |slots|)] != NULL
    ensures r <= look ==> slots[Place(address, r, |slots|)] == NULL
    decreases look + 1 - d
  {
    if d == look + 1 || slots[Place(address, d, |slots|)] == NULL then d else FreeFrom(look, slots, address, d + 1)
  }

  /** The set with its counters. */
  datatype Table = Table(slots: seq<int>, collisions: nat, count: nat, distance: nat)

  predicate AddFails(look: nat, slots: seq<int>, address: int)
    requires |slots| > 0
  {
    FreeFrom(look, slots, address, 0) > look
  }

  function Added(look: nat, t: Table, address: int): Table
    requires |t.slots| > 0
  {
    var d := FreeFrom(look, t.slots, address, 0);
    if d > look then t
    else Table(t.slots[Place(address, d, |t.slots|) := address],
               t.collisions + if d > 0 then 1 else 0, t.count + 1, t.distance + d)
  }

  function Empty(size: nat): Table { Table(seq(size, _ => NULL), 0, 0, 0) }

  function AddAll(look: nat, size: nat, adds: seq<int>): (t: Table)
    requires size > 0
    ensures |t.slots| == size
    decreases |adds|
  {
    if adds == [] then Empty(size) else Added(look, AddAll(look, size, adds[..|adds| - 1]), adds[|adds| - 1])
  }

  /** An add is refused exactly when all slots of its probe are taken. */
  lemma AddFailsExactly(look: nat, slots: seq<int>, address: int)
    requires |slots| > 0
    ensures AddFails(look, slots, address) <==> forall k :: 0 <= k <= look ==> slots[Place(address, k, |slots|)] != NULL
  {
    var d := FreeFrom(look, slots, address, 0);
    assert d <= look ==> slots[Place(address, d, |slots|)] == NULL;
  }

  // ---------------------------------------------------------------- lookup

  ghost predicate FoundAt(look: nat, slots: seq<int>, address: int, d: nat)
    requires |slots| > 0
  {
    && d <= look && slots[Place(address, d, |slots|)] == address
    && forall k :: 0 <= k < d ==> slots[Place(address, k, |slots|)] != NULL
  }

  /** The address is in the table: in its probe, with no gap before it. */
  ghost predicate Contains(look: nat, slots: seq<int>, address: int)
    requires |slots| > 0
  {
    exists d: nat :: FoundAt(look, slots, address, d)
  }

  /** Where the lookup of an address stops: at it, at a gap, or at the end of the probe. */
  function StopFrom(look: nat, slots: seq<int>, address: int, d: nat): (r: nat)
    requires |slots| > 0 && d <= look
    ensures d <= r <= look
    ensures forall k :: d <= k < r ==>
      slots[Place(address, k, |slots|)] != address && slots[Place(address, k, |slots|)] != NULL
    ensures r < look ==> slots[Place(address, r, |slots|)] == address || slots[Place(address, r, |slots|)] == NULL
    decreases look - d
  {
    var x := slots[Place(address, d, |slots|)];
    if d == look || x == address || x == NULL then d else StopFrom(look, slots, address, d + 1)
  }

  predicate Looked(look: nat, slots: seq<int>, address: int)
    requires |slots| > 0
  {
    slots[Place(address, StopFrom(look, slots, address, 0), |slots|)] == address
  }

  /** The lookup loop decides membership. */
  lemma LookedIsContains(look: nat, slots: seq<int>, address: int)
    requires |slots| > 0 && address != NULL
    ensures Looked(look, slots, address) <==> Contains(look, slots, address)
  {
    var r := StopFrom(look, slots, address, 0);
    if Looked(look, slots, address) {
      assert FoundAt(look, slots, address, r);
    }
    if Contains(look, slots, address) {
      var d: nat :| FoundAt(look, slots, address, d);
      if r < d {
        assert slots[Place(address, r, |slots|)] != NULL;
      }
    }
  }

  // ---------------------------------------------------------------- every run of adds

  /** Whatever a slot holds can be found. */
  ghost predicate Reachable(look: nat, slots: seq<int>)
    requires |slots| > 0
  {
    forall p {:trigger slots[p]} :: 0 <= p < |slots| && slots[p] != NULL ==> Contains(look, slots, slots[p])
  }

  /** Filling a free slot loses nothing. */
  lemma FillKeeps(look: nat, slots: seq<int>, p: nat, x: int, address: int)
    requires p < |slots| && slots[p] == NULL && x != NULL && address != NULL && Contains(look, slots, address)
    ensures Contains(look, slots[p := x], address)
  {
    var d: nat :| FoundAt(look, slots, address, d);
    assert FoundAt(look, slots[p := x], address, d);
  }

  /** Filling the first free slot of a probe with its address makes it found. */
  lemma FillFinds(look: nat, slots: seq<int>, x: int)
    requires |slots| > 0 && x != NULL && !AddFails(look, slots, x)
    ensures Contains(look, slots[Place(x, FreeFrom(look, slots, x, 0), |slots|) := x], x)
  {
    var d := FreeFrom(look, slots, x, 0);
    assert FoundAt(look, slots[Place(x, d, |slots|) := x], x, d);
  }

  lemma AddKeepsReachable(look: nat, t: Table, x: int)
    requires |t.slots| > 0 && Reachable(look, t.slots)
    ensures Reachable(look, Added(look, t, x).slots)
  {
    var slots := t.slots;
    if !AddFails(look, slots, x) {
      var p := Place(x, FreeFrom(look, slots, x, 0), |slots|);
      if x == NULL {
        assert slots[p := x] == slots;
      } else {
        FillFinds(look, slots, x);
        forall q | 0 <= q < |slots| && q != p && slots[q] != NULL
          ensures Contains(look, slots[p := x], slots[q])
        {
          FillKeeps(look, slots, p, x, slots[q]);
        }
      }
    }
  }

  /** Adding an address makes exactly that address found, if the add succeeds. */
  lemma AddContains(look: nat, t: Table, x: int, address: int)
    requires |t.slots| > 0 && Reachable(look, t.slots) && address != NULL
    ensures Contains(look, Added(look, t, x).slots, address)
      <==> Contains(look, t.slots, address) || (x == address && !AddFails(look, t.slots, x))
  {
    var slots := t.slots;
    if !AddFails(look, slots, x) {
      var p := Place(x, FreeFrom(look, slots, x, 0), |slots|);
      if x == NULL {
        assert slots[p := x] == slots;
      } else if x == address {
        FillFinds(look, slots, x);
      } else {
        if Contains(look, slots, address) {
          FillKeeps(look, slots, p, x, address);
        }
        if Contains(look, slots[p := x], address) {
          var d: nat :| FoundAt(look, slots[p := x], address, d);
          assert slots[Place(address, d, |slots|)] == address;
        }
      }
    }
  }

  lemma {:induction false} AllReachable(look: nat, size: nat, adds: seq<int>)
    requires size > 0
    ensures Reachable(look, AddAll(look, size, adds).slots)
    decreases |adds|
  {
    if adds != [] {
      AllReachable(look, size, adds[..|adds| - 1]);
      AddKeepsReachable(look, AddAll(look, size, adds[..|adds| - 1]), adds[|adds| - 1]);
    }
  }

  /** The k-th add stored the address. */
  ghost predicate StoredBy(look: nat, size: nat, adds: seq<int>, address: int, k: nat)
    requires size > 0
  {
    k < |adds| && adds[k] == address && !AddFails(look, AddAll(look, size, adds[..k]).slots, address)
  }

  /** Some add of the address succeeded. */
  ghost predicate Stored(look: nat, size: nat, adds: seq<int>, address: int)
    requires size > 0
  {
    exists k: nat :: StoredBy(look, size, adds, address, k)
  }

  lemma StoredStep(look: nat, size: nat, pre: seq<int>, x: int, address: int)
    requires size > 0
    ensures Stored(look, size, pre + [x], address)
      <==> Stored(look, size, pre, address) || (x == address && !AddFails(look, AddAll(look, size, pre).slots, address))
  {
    var adds := pre + [x];
    assert adds[..|pre|] == pre;
    forall k: nat | k < |pre|
      ensures StoredBy(look, size, adds, address, k) <==> StoredBy(look, size, pre, address, k)
    {
      assert adds[..k] == pre[..k];
    }
    assert StoredBy(look, size, adds, address, |pre|)
      <==> x == address && !AddFails(look, AddAll(look, size, pre).slots, address);
  }

  lemma EmptyContainsNothing(look: nat, size: nat, address: int)
    requires size > 0 && address != NULL
    ensures !Contains(look, Empty(size).slots, address)
  {
  }

  /** From an empty table, a lookup succeeds if and only if some add of the address did. */
  lemma {:induction false} LookupAfterAdds(look: nat, size: nat, adds: seq<int>, address: int)
    requires size > 0 && address != NULL
    ensures Looked(look, AddAll(look, size, adds).slots, address) <==> Stored(look, size, adds, address)
    decreases |adds|
  {
    LookedIsContains(look, AddAll(look, size, adds).slots, address);
    if adds == [] {
      EmptyContainsNothing(look, size, address);
    } else {
      var n := |adds| - 1;
      var pre := adds[..n];
      LookupAfterAdds(look, size, pre, address);
      LookedIsContains(look, AddAll(look, size, pre).slots, address);
      AllReachable(look, size, pre);
      AddContains(look, AddAll(look, size, pre), adds[n], address);
      StoredStep(look, size, pre, adds[n], address);
      assert adds == pre + [adds[n]];
    }
  }

  // ---------------------------------------------------------------- the statistics

  function Occupied(slots: seq<int>): (n: nat)
    ensures n <= |slots|
  {
    if slots == [] then 0 else Occupied(slots[..|slots| - 1]) + if slots[|slots| - 1] != NULL then 1 else 0
  }

  lemma {:induction false} OccupiedFill(slots: seq<int>, p: nat, x: int)
    requires p < |slots| && slots[p] == NULL
    ensures Occupied(slots[p := x]) == Occupied(slots) + if x != NULL then 1 else 0
    decreases |slots|
  {
    var n := |slots| - 1;
    if p == n {
      assert slots[p := x][..n] == slots[..n];
    } else {
      assert slots[p := x][..n] == slots[..n][p := x];
      OccupiedFill(slots[..n], p, x);
    }
  }

  lemma {:induction false} OccupiedEmpty(size: nat)
    ensures Occupied(Empty(size).slots) == 0
  {
    if size > 0 {
      assert Empty(size).slots[..size - 1] == Empty(size - 1).slots;
      OccupiedEmpty(size - 1);
    }
  }

  /** Successful adds of the null address, which take no slot. */
  function NullAdds(look: nat, size: nat, adds: seq<int>): nat
    requires size > 0
    decreases |adds|
  {
    if adds == [] then 0
    else
      var n := |adds| - 1;
      NullAdds(look, size, adds[..n]) +
      if adds[n] == NULL && !AddFails(look, AddAll(look, size, adds[..n]).slots, NULL) then 1 else 0
  }

  lemma DistanceStep(look: nat, collisions: nat, distance: nat, d: nat)
    requires collisions <= distance <= collisions * look && d <= look
    ensures var c := collisions + if d > 0 then 1 else 0; c <= distance + d <= c * look
  {
    MulNext(collisions, look);
  }

  /** UF_count is the number of occupied slots and of successful adds of the null address;
      UF_distance lies between UF_collisions and `look` times it. */
  lemma {:induction false} Statistics(look: nat, size: nat, adds: seq<int>)
    requires size > 0
    ensures var t := AddAll(look, size, adds);
      && t.count == Occupied(t.slots) + NullAdds(look, size, adds)
      && t.collisions <= t.distance <= t.collisions * look
      && t.collisions <= t.count
    decreases |adds|
  {
    if adds == [] {
      OccupiedEmpty(size);
    } else {
      var n := |adds| - 1;
      Statistics(look, size, adds[..n]);
      var t, x := AddAll(look, size, adds[..n]), adds[n];
      if !AddFails(look, t.slots, x) {
        var d := FreeFrom(look, t.slots, x, 0);
        DistanceStep(look, t.collisions, t.distance, d);
        OccupiedFill(t.slots, Place(x, d, size), x);
      }
    }
  }

  /** UF_count is the number of occupied slots if and only if no add of the null address succeeded. */
  lemma CountIsOccupied(look: nat, size: nat, adds: seq<int>)
    requires size > 0
    ensures var t := AddAll(look, size, adds); t.count == Occupied(t.slots) <==> NullAdds(look, size, adds) == 0
  {
    Statistics(look, size, adds);
  }

  /** The first add of the null address already is counted without taking a slot. */
  lemma NullIsCounted(look: nat, size: nat)
    requires size > 0
    ensures var t := AddAll(look, size, [NULL]);
      t.count == 1 && Occupied(t.slots) == 0 && NullAdds(look, size, [NULL]) == 1
  {
    assert [NULL][..0] == [];
    Statistics(look, size, [NULL]);
    OccupiedEmpty(size);
    var d := FreeFrom(look, Empty(size).slots, NULL, 0);
    assert Empty(size).slots[Place(NULL, d, size) := NULL] == Empty(size).slots;
  }

  /** With the constants of the source and no null address, no 32-bit counter wraps. */
  lemma CountersFit(look: nat, size: nat, adds: seq<int>)
    requires look == UF_LOOKAHEAD && size == MAX_UFS && NULL !in adds
    ensures var t := AddAll(look, size, adds);
      t.count == Occupied(t.slots) <= MAX_UFS && t.collisions <= MAX_UFS && t.distance < 0x1_0000_0000
  {
    Statistics(look, size, adds);
    NoNullAdds(look, size, adds);
  }

  lemma {:induction false} NoNullAdds(look: nat, size: nat, adds: seq<int>)
    requires size > 0 && NULL !in adds
    ensures NullAdds(look, size, adds) == 0
    decreases |adds|
  {
    if adds != [] {
      NoNullAdds(look, size, adds[..|adds| - 1]);
    }
  }

  /** How far an occupied slot lies behind the first one of the address it holds. */
  function Displaced(slots: seq<int>, p: nat, size: nat): nat
    requires p < |slots| && size > 0
  {
    if slots[p] == NULL then 0 else (p - slots[p] / 8) % size
  }

  function Total(slots: seq<int>, n: nat, size: nat): nat
    requires n <= |slots| && size > 0
  {
    if n == 0 then 0 else Total(slots, n - 1, size) + Displaced(slots, n - 1, size)
  }

  function DisplacedSlots(slots: seq<int>, n: nat, size: nat): nat
    requires n <= |slots| && size > 0
  {
    if n == 0 then 0 else DisplacedSlots(slots, n - 1, size) + if Displaced(slots, n - 1, size) > 0 then 1 else 0
  }

  lemma {:induction false} TotalFill(slots: seq<int>, n: nat, size: nat, p: nat, x: int)
    requires n <= |slots| && p < |slots| && size > 0 && slots[p] == NULL
    ensures var slots', d := slots[p := x], Displaced(slots[p := x], p, size);
      && Total(slots', n, size) == Total(slots, n, size) + (if p < n then d else 0)
      && DisplacedSlots(slots', n, size) == DisplacedSlots(slots, n, size) + if p < n && d > 0 then 1 else 0
  {
    if n > 0 {
      TotalFill(slots, n - 1, size, p, x);
    }
  }

  lemma {:induction false} TotalEmpty(size: nat, n: nat)
    requires n <= size && size > 0
    ensures Total(Empty(size).slots, n, size) == DisplacedSlots(Empty(size).slots, n, size) == 0
  {
    if n > 0 {
      TotalEmpty(size, n - 1);
    }
  }

  lemma OnceRound(x: int, size: nat)
    requires size > 0
    ensures (x + size) % size == x % size
  {
    var q := x / size;
    assert x == q * size + x % size;
    MulNext(q, size);
    QuotientUnique(x + size, q + 1, x % size, size);
  }

  /** The first free slot of a probe is found before the probe has gone round. */
  lemma FirstFreeInRound(look: nat, slots: seq<int>, address: int)
    requires |slots| > 0 && !AddFails(look, slots, address)
    ensures FreeFrom(look, slots, address, 0) < |slots|
  {
    var d := FreeFrom(look, slots, address, 0);
    if d >= |slots| {
      SamePlace(address, d - |slots|, |slots|);
      assert false;
    }
  }

  lemma SamePlace(address: int, d: nat, size: nat)
    requires size > 0
    ensures Place(address, d + size, size) == Place(address, d, size)
  {
    var h := Hash(address, size);
    SlotIs(h, d + size, size);
    SlotIs(h, d, size);
    OnceRound(h + d, size);
  }

  /** The slot d behind the first one of an address is displaced by d. */
  lemma DisplacedBy(address: int, d: nat, size: nat)
    requires d < size
    ensures (Place(address, d, size) - address / 8) % size == d
  {
    SlotIs(Hash(address, size), d, size);
    BackBy(address / 8, Hash(address, size), d, Place(address, d, size), size);
  }

  lemma BackBy(w: int, h: nat, d: nat, p: nat, size: nat)
    requires d < size && h == w % size && p == (h + d) % size
    ensures (p - w) % size == d
  {
    var a, b := w / size, (h + d) / size;
    assert w == a * size + h;
    assert h + d == b * size + p;
    assert p - w == (-b - a) * size + d;
    QuotientUnique(p - w, -b - a, d, size);
  }

  /** UF_distance is how far all slots in use are from where their addresses would be without
      collisions, and UF_collisions how many of them are elsewhere. */
  lemma {:induction false} DistanceIsDisplacement(look: nat, size: nat, adds: seq<int>)
    requires size > 0 && NULL !in adds
    ensures var t := AddAll(look, size, adds);
      t.distance == Total(t.slots, size, size) && t.collisions == DisplacedSlots(t.slots, size, size)
    decreases |adds|
  {
    if adds == [] {
      TotalEmpty(size, size);
    } else {
      var n := |adds| - 1;
      assert adds[n] in adds;
      DistanceIsDisplacement(look, size, adds[..n]);
      DistanceStepIs(look, AddAll(look, size, adds[..n]), adds[n]);
    }
  }

  lemma DistanceStepIs(look: nat, t: Table, x: int)
    requires |t.slots| > 0 && x != NULL
    ensures var t', n := Added(look, t, x), |t.slots|;
      && t'.distance - t.distance == Total(t'.slots, n, n) - Total(t.slots, n, n)
      && t'.collisions - t.collisions == DisplacedSlots(t'.slots, n, n) - DisplacedSlots(t.slots, n, n)
  {
    var n := |t.slots|;
    if !AddFails(look, t.slots, x) {
      var d := FreeFrom(look, t.slots, x, 0);
      var p := Place(x, d, n);
      FirstFreeInRound(look, t.slots, x);
      DisplacedBy(x, d, n);
      TotalFill(t.slots, n, n, p, x);
      assert Displaced(t.slots[p := x], p, n) == d;
    }
  }

  // ---------------------------------------------------------------- without collisions

  lemma SlotsApart(x: int, y: int, size: nat)
    requires size > 0 && x < y < x + size
    ensures x % size != y % size
  {
    if x % size == y % size {
      var p, q := x / size, y / size;
      assert x == p * size + x % size && y == q * size + y % size;
      assert y - x == (q - p) * size;
      if q <= p {
        MulLe(q - p, 0, size);
      } else {
        MulLe(1, q - p, size);
      }
      assert false;
    }
  }

  /** Addresses in different words of a stretch of `size` words. */
  ghost predicate InWindow(first: int, size: nat, adds: seq<int>) {
    && (forall k :: 0 <= k < |adds| ==> first <= adds[k] / 8 < first + size)
    && forall j, k :: 0 <= j < k < |adds| ==> adds[j] / 8 != adds[k] / 8
  }

  lemma HashesApart(first: int, size: nat, adds: seq<int>, j: nat, k: nat)
    requires size > 0 && InWindow(first, size, adds) && j < k < |adds|
    ensures Hash(adds[j], size) != Hash(adds[k], size)
  {
    var x, y := adds[j] / 8, adds[k] / 8;
    if x < y {
      SlotsApart(x, y, size);
    } else {
      SlotsApart(y, x, size);
    }
  }

  /** Every address is in its first slot, and nothing else is in the table. */
  ghost predicate AtFirst(size: nat, adds: seq<int>, slots: seq<int>)
    requires |slots| == size > 0
  {
    && (forall k :: 0 <= k < |adds| ==> slots[Hash(adds[k], size)] == adds[k])
    && forall i {:trigger slots[i]} :: 0 <= i < size && slots[i] != NULL ==>
         exists k :: 0 <= k < |adds| && Hash(adds[k], size) == i
  }

  /** Functions in different words of a stretch no larger than the table all go into it, at their
      first slot: no collision is counted. */
  lemma {:induction false} WindowFits(look: nat, size: nat, first: int, adds: seq<int>)
    requires size > 0 && InWindow(first, size, adds)
    ensures var t := AddAll(look, size, adds);
      t.collisions == 0 && t.distance == 0 && t.count == |adds| && AtFirst(size, adds, t.slots)
    decreases |adds|
  {
    if adds != [] {
      var n := |adds| - 1;
      WindowFits(look, size, first, adds[..n]);
      var t := AddAll(look, size, adds[..n]);
      WindowStep(first, size, adds, t.slots);
      AddedFirst(look, t, adds[n]);
    }
  }

  lemma AddedFirst(look: nat, t: Table, x: int)
    requires |t.slots| > 0 && t.slots[Hash(x, |t.slots|)] == NULL
    ensures Added(look, t, x) == Table(t.slots[Hash(x, |t.slots|) := x], t.collisions, t.count + 1, t.distance)
  {
    assert Place(x, 0, |t.slots|) == Hash(x, |t.slots|);
    assert FreeFrom(look, t.slots, x, 0) == 0;
  }

  lemma WindowStep(first: int, size: nat, adds: seq<int>, slots: seq<int>)
    requires adds != [] && |slots| == size > 0 && InWindow(first, size, adds)
    requires AtFirst(size, adds[..|adds| - 1], slots)
    ensures var p := Hash(adds[|adds| - 1], size);
      slots[p] == NULL && AtFirst(size, adds, slots[p := adds[|adds| - 1]])
  {
    var n := |adds| - 1;
    var p := Hash(adds[n], size);
    forall k | 0 <= k < n
      ensures Hash(adds[k], size) != p && slots[Hash(adds[k], size)] == adds[k]
    {
      HashesApart(first, size, adds, k, n);
      assert adds[..n][k] == adds[k];
    }
    var slots' := slots[p := adds[n]];
    forall i | 0 <= i < size && i != p && slots'[i] != NULL
      ensures exists k :: 0 <= k < n && Hash(adds[k], size) == i
    {
      assert slots[i] != NULL;
      var k :| 0 <= k < |adds[..n]| && Hash(adds[..n][k], size) == i;
      assert Hash(adds[k], size) == i;
    }
  }

  // ---------------------------------------------------------------- how many always fit

  lemma ProbeSlotsApart(h: nat, j: nat, k: nat, size: nat)
    requires h < size && j < k < size
    ensures Slot(h, j, size) != Slot(h, k, size)
  {
    SlotIs(h, j, size);
    SlotIs(h, k, size);
    SlotsApart(h + j, h + k, size);
  }

  /** If the first n slots of a probe are taken, so are n slots. */
  lemma {:induction false} TakenProbe(slots: seq<int>, h: nat, n: nat)
    requires h < |slots| && n <= |slots| && forall k :: 0 <= k < n ==> slots[Slot(h, k, |slots|)] != NULL
    ensures Occupied(slots) >= n
    decreases n
  {
    if n > 0 {
      var p := Slot(h, n - 1, |slots|);
      var cleared := slots[p := NULL];
      forall k | 0 <= k < n - 1
        ensures cleared[Slot(h, k, |slots|)] != NULL
      {
        ProbeSlotsApart(h, k, n - 1, |slots|);
      }
      TakenProbe(cleared, h, n - 1);
      OccupiedFill(cleared, p, slots[p]);
      assert cleared[p := slots[p]] == slots;
    }
  }

  /** With at most `look` slots taken no add is refused. */
  lemma RoomLeft(look: nat, slots: seq<int>, address: int)
    requires look < |slots| && Occupied(slots) <= look
    ensures !AddFails(look, slots, address)
  {
    if AddFails(look, slots, address) {
      forall k | 0 <= k < look + 1
        ensures slots[Slot(Hash(address, |slots|), k, |slots|)] != NULL
      {
        assert slots[Place(address, k, |slots|)] != NULL;
      }
      TakenProbe(slots, Hash(address, |slots|), look + 1);
    }
  }

  /** One add more than the look-ahead always fits, whatever the addresses: all of them are counted
      and found. */
  lemma {:induction false} FirstAddsFit(look: nat, size: nat, adds: seq<int>)
    requires |adds| <= look + 1 <= size
    ensures AddAll(look, size, adds).count == |adds|
    ensures forall k {:trigger adds[k]} :: 0 <= k < |adds| && adds[k] != NULL ==>
      Looked(look, AddAll(look, size, adds).slots, adds[k])
    decreases |adds|
  {
    if adds != [] {
      var n := |adds| - 1;
      FirstAddsFit(look, size, adds[..n]);
      Statistics(look, size, adds[..n]);
      RoomLeft(look, AddAll(look, size, adds[..n]).slots, adds[n]);
      forall k | 0 <= k < |adds| && adds[k] != NULL
        ensures Looked(look, AddAll(look, size, adds).slots, adds[k])
      {
        EarlyAddFound(look, size, adds, k);
      }
    }
  }

  lemma {:induction false} CountAtMost(look: nat, size: nat, adds: seq<int>)
    requires size > 0
    ensures AddAll(look, size, adds).count <= |adds|
    decreases |adds|
  {
    if adds != [] {
      CountAtMost(look, size, adds[..|adds| - 1]);
    }
  }

  lemma EarlyAddFound(look: nat, size: nat, adds: seq<int>, k: nat)
    requires k < |adds| <= look + 1 <= size && adds[k] != NULL
    ensures Looked(look, AddAll(look, size, adds).slots, adds[k])
  {
    CountAtMost(look, size, adds[..k]);
    Statistics(look, size, adds[..k]);
    RoomLeft(look, AddAll(look, size, adds[..k]).slots, adds[k]);
    assert StoredBy(look, size, adds, adds[k], k);
    LookupAfterAdds(look, size, adds, adds[k]);
  }

  // ---------------------------------------------------------------- the table in place

  class UserFunctionTable {
    const addresses: array<int>
    const look: nat
    var collisions: nat
    var count: nat
    var distance: nat

    ghost function Value(): Table
      reads this, addresses
    {
      Table(addresses[..], collisions, count, distance)
    }

    constructor (size: nat, look: nat)
      requires size > 0
      ensures fresh(addresses) && addresses.Length == size && this.look == look
    {
      addresses := new int[size];
      this.look := look;
    }

    method Reset()
      modifies this, addresses
      ensures Value() == Empty(addresses.Length)
    {
      for i := 0 to addresses.Length
        invariant forall k :: 0 <= k < i ==> addresses[k] == NULL
      {
        addresses[i] := NULL;
      }
      distance, count, collisions := 0, 0, 0;
      assert addresses[..] == Empty(addresses.Length).slots;
    }

    /** The probe loop of an add whose first slot is taken: how far it went, and to which slot. */
    method Advance(address: int) returns (d: nat, p: nat)
      requires addresses.Length > 0 && look > 0 && addresses[Place(address, 0, addresses.Length)] != NULL
      ensures 1 <= d <= look && p == Place(address, d, addresses.Length)
      ensures FreeFrom(look, addresses[..], address, 0) == if addresses[p] == NULL then d else look + 1
    {
      ghost var slots, size := addresses[..], addresses.Length;
      var i := Hash(address, addresses.Length);
      d := 1;
      SlotIs(i, d, size);
      while addresses[(i + d) % addresses.Length] != NULL && d < look
        invariant 1 <= d <= look && FreeFrom(look, slots, address, 0) == FreeFrom(look, slots, address, d)
        invariant (i + d) % size == Place(address, d, size)
        decreases look - d
      {
        assert slots[Place(address, d, size)] != NULL;
        d := d + 1;
        SlotIs(i, d, size);
      }
      p := (i + d) % addresses.Length;
      assert slots[Place(address, d, size)] == addresses[p];
    }

    /** `ok` is false where the source prints that the address cannot be added. */
    method Add(address: int) returns (ok: bool)
      requires addresses.Length > 0 && look > 0
      modifies this, addresses
      ensures Value() == Added(look, old(Value()), address)
      ensures ok <==> !AddFails(look, old(addresses[..]), address)
    {
      ghost var slots := addresses[..];
      var i := Hash(address, addresses.Length);
      ok := true;
      assert Place(address, 0, addresses.Length) == i;
      if addresses[i] == NULL {
        addresses[i] := address;
        count := count + 1;
        assert addresses[..] == slots[i := address];
      } else {
        var d, p := Advance(address);
        if addresses[p] == NULL {
          addresses[p] := address;
          collisions := collisions + 1;
          count := count + 1;
          distance := distance + d;
          assert addresses[..] == slots[p := address];
        } else {
          ok := false;
        }
      }
    }

    method LookFor(address: int) returns (found: bool)
      requires addresses.Length > 0
      ensures found == Looked(look, addresses[..], address)
    {
      ghost var slots, size := addresses[..], addresses.Length;
      var i := Hash(address, addresses.Length);
      var d := 0;
      SlotIs(i, d, size);
      while addresses[(i + d) % addresses.Length] != address && addresses[(i + d) % addresses.Length] != NULL &&
          d < look
        invariant 0 <= d <= look && StopFrom(look, slots, address, 0) == StopFrom(look, slots, address, d)
        invariant (i + d) % size == Place(address, d, size)
        decreases look - d
      {
        d := d + 1;
        SlotIs(i, d, size);
      }
      found := addresses[(i + d) % addresses.Length] == address;
    }
  }
}
