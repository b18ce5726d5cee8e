/** The intrusive circular lists and the item pool of queue.h. */
module Queue {
  import opened Common

  class Item {
    var next: Item?
    var prev: Item?
    var field: int

    constructor ()
      ensures next == null && prev == null
    {
      next, prev := null, null;
    }
  }

  // ---------------------------------------------------------------- rings

  /** The list once round: from the head node back to the head node. */
  ghost function Round(ring: seq<Item>): seq<Item>
    requires |ring| > 0
  {
    ring + [ring[0]]
  }

  /** The k-th link, read in both directions. */
  ghost predicate Joined(ring: seq<Item>, k: nat)
    requires k < |ring|
    reads ring[k], Round(ring)[k + 1]
  {
    ring[k].next == Round(ring)[k + 1] && Round(ring)[k + 1].prev == ring[k]
  }

  /** The items of a circular doubly linked list, in order; entry 0 is the head node. */
  ghost predicate Ring(ring: seq<Item>)
    reads ring
  {
    && |ring| > 0 && NoDup(ring)
    && forall k {:trigger Joined(ring, k)} :: 0 <= k < |ring| ==> Joined(ring, k)
  }

  function InsertAt<T>(s: seq<T>, k: nat, x: T): seq<T>
    requires k <= |s|
  {
    s[..k] + [x] + s[k..]
  }

  lemma RingLinks(ring: seq<Item>, k: nat)
    requires Ring(ring) && k < |ring|
    ensures ring[k].next == Round(ring)[k + 1] && Round(ring)[k + 1].prev == ring[k] && Round(ring)[k + 1] in ring
  {
    assert Joined(ring, k);
  }

  lemma InsertNoDup<T>(s: seq<T>, k: nat, x: T)
    requires k <= |s| && NoDup(s) && x !in s
    ensures NoDup(InsertAt(s, k, x))
  {
  }

  lemma NoDupRound(ring: seq<Item>, a: nat, b: nat)
    requires |ring| > 0 && NoDup(ring) && 0 < a <= |ring| && 0 < b <= |ring| && a != b
    ensures Round(ring)[a] != Round(ring)[b]
  {
  }

  ghost function At(ring: seq<Item>, k: nat): Item
    requires |ring| > 0 && k <= |ring|
  {
    Round(ring)[k]
  }

  /** If the link at p - 1 is rerouted through an item, that item is spliced in. */
  lemma SplicedIn(ring: seq<Item>, p: nat, item: Item)
    requires 0 < p <= |ring| && NoDup(ring) && item !in ring
    requires forall k {:trigger Joined(ring, k)} :: 0 <= k < |ring| && k != p - 1 ==> Joined(ring, k)
    requires ring[p - 1].next == item && item.prev == ring[p - 1]
    requires Round(ring)[p].prev == item && item.next == Round(ring)[p]
    ensures Ring(InsertAt(ring, p, item))
  {
    var r := InsertAt(ring, p, item);
    InsertNoDup(ring, p, item);
    assert Round(r) == InsertAt(Round(ring), p, item);
    forall k | 0 <= k < |r|
      ensures Joined(r, k)
    {
      if k != p - 1 && k != p {
        var o := if k < p then k else k - 1;
        assert Round(r)[k] == ring[o] && Round(r)[k + 1] == Round(ring)[o + 1];
        assert Joined(ring, o);
      }
    }
  }

  /** If a link skips item k, that item is spliced out. */
  lemma SplicedOut(ring: seq<Item>, k: nat)
    requires 0 < k < |ring| && NoDup(ring)
    requires forall j {:trigger Joined(ring, j)} :: 0 <= j < |ring| && j != k - 1 && j != k ==> Joined(ring, j)
    requires ring[k - 1].next == Round(ring)[k + 1] && Round(ring)[k + 1].prev == ring[k - 1]
    ensures Ring(Without(ring, k))
  {
    var r := Without(ring, k);
    assert Round(r) == Without(Round(ring), k);
    forall j | 0 <= j < |r|
      ensures Joined(r, j)
    {
      if j != k - 1 {
        var o := if j < k then j else j + 1;
        assert Round(r)[j] == ring[o] && Round(r)[j + 1] == Round(ring)[o + 1];
        assert Joined(ring, o);
      }
    }
  }

  method InsertItemAfter(item2: Item, item1: Item, ghost ring: seq<Item>, ghost k: nat)
    requires Ring(ring) && k < |ring| && ring[k] == item2 && item1 !in ring
    modifies item1, item2`next, At(ring, k + 1)`prev
    ensures Ring(InsertAt(ring, k + 1, item1)) && item1.field == old(item1.field)
  {
    RingLinks(ring, k);
    item1.next := item2.next;
    item1.prev := item2;
    item2.next.prev := item1;
    item2.next := item1;
    forall j | 0 <= j < |ring| && j != k
      ensures Joined(ring, j)
    {
      assert old(Joined(ring, j));
      NoDupRound(ring, j + 1, k + 1);
    }
    SplicedIn(ring, k + 1, item1);
  }

  /** Before the head node means at the tail. */
  method InsertItemBefore(item2: Item, item1: Item, ghost ring: seq<Item>, ghost p: nat)
    requires Ring(ring) && 0 < p <= |ring| && Round(ring)[p] == item2 && item1 !in ring
    modifies item1, item2`prev, At(ring, p - 1)`next
    ensures Ring(InsertAt(ring, p, item1)) && item1.field == old(item1.field)
  {
    RingLinks(ring, p - 1);
    item1.next := item2;
    item1.prev := item2.prev;
    item2.prev.next := item1;
    item2.prev := item1;
    forall j | 0 <= j < |ring| && j != p - 1
      ensures Joined(ring, j)
    {
      assert old(Joined(ring, j));
      NoDupRound(ring, j + 1, p);
    }
    SplicedIn(ring, p, item1);
  }

  method RemoveItem(item: Item, ghost ring: seq<Item>, ghost k: nat)
    requires Ring(ring) && 0 < k < |ring| && ring[k] == item
    modifies At(ring, k - 1)`next, At(ring, k + 1)`prev
    ensures Ring(Without(ring, k))
  {
    RingLinks(ring, k - 1);
    RingLinks(ring, k);
    item.next.prev := item.prev;
    item.prev.next := item.next;
    forall j | 0 <= j < |ring| && j != k - 1 && j != k
      ensures Joined(ring, j)
    {
      assert old(Joined(ring, j));
      NoDupRound(ring, j + 1, k + 1);
    }
    SplicedOut(ring, k);
  }

  method InitQueue(queue: Item)
    modifies queue`next, queue`prev
    ensures Ring([queue])
  {
    queue.next := queue;
    queue.prev := queue;
  }

  method IsNull(queue: Item, ghost ring: seq<Item>) returns (b: bool)
    requires Ring(ring) && ring[0] == queue
    ensures b <==> ring == [queue]
  {
    RingLinks(ring, 0);
    b := queue.next == queue;
  }

  /** GET_HEAD_ITEM: null for an empty queue. */
  method GetHeadItem(queue: Item, ghost ring: seq<Item>) returns (r: Item?)
    requires Ring(ring) && ring[0] == queue
    ensures r == if |ring| == 1 then null else ring[1]
  {
    RingLinks(ring, 0);
    r := if queue.next == queue then null else queue.next;
  }

  method GetNextItem(queue: Item, item: Item, ghost ring: seq<Item>, ghost k: nat) returns (r: Item?)
    requires Ring(ring) && ring[0] == queue && k < |ring| && ring[k] == item
    ensures r == if k + 1 == |ring| then null else ring[k + 1]
  {
    RingLinks(ring, k);
    r := if item.next == queue then null else item.next;
  }

  method EnqueueItem(queue: Item, item: Item, ghost ring: seq<Item>)
    requires Ring(ring) && ring[0] == queue && item !in ring
    modifies item, queue`prev, At(ring, |ring| - 1)`next
    ensures Ring(ring + [item]) && item.field == old(item.field)
  {
    InsertItemBefore(queue, item, ring, |ring|);
    assert InsertAt(ring, |ring|, item) == ring + [item];
  }

  method EnqueueHeadItem(queue: Item, item: Item, ghost ring: seq<Item>)
    requires Ring(ring) && ring[0] == queue && item !in ring
    modifies item, queue`next, At(ring, 1)`prev
    ensures Ring([queue, item] + ring[1..]) && item.field == old(item.field)
  {
    InsertItemAfter(queue, item, ring, 0);
    assert InsertAt(ring, 1, item) == [queue, item] + ring[1..];
  }

  method DequeueItem(queue: Item, ghost ring: seq<Item>) returns (item: Item?)
    requires Ring(ring) && ring[0] == queue
    modifies queue`next, At(ring, if |ring| == 1 then 1 else 2)`prev
    ensures |ring| == 1 ==> item == null && Ring(ring)
    ensures |ring| > 1 ==> item == ring[1] && Ring([queue] + ring[2..])
  {
    RingLinks(ring, 0);
    item := queue.next;
    if item == queue {
      item := null;
    } else {
      RingLinks(ring, 1);
      queue.next := item.next;
      item.next.prev := queue;
      forall j | 1 < j < |ring|
        ensures Joined(ring, j)
      {
        assert old(Joined(ring, j));
        NoDupRound(ring, j + 1, 2);
      }
      SplicedOut(ring, 1);
      assert Without(ring, 1) == [queue] + ring[2..];
    }
  }

  // ---------------------------------------------------------------- sorted insertion

  /** May an item with field b stand after one with field a? `up` picks INSERT_ITEM_INCREASING. */
  predicate InOrder(up: bool, a: int, b: int) {
    if up then a <= b else a >= b
  }

  ghost predicate Ordered(up: bool, fields: seq<int>) {
    forall i, j :: 0 <= i < j < |fields| ==> if up then fields[i] <= fields[j] else fields[i] >= fields[j]
  }

  /** Where the walk from the tail stops: after the last item the new one may follow. */
  function Slot(up: bool, fields: seq<int>, x: int): (p: nat)
    ensures p <= |fields| && (p > 0 ==> if up then fields[p - 1] <= x else fields[p - 1] >= x)
    ensures forall j :: p <= j < |fields| ==> if up then fields[j] > x else fields[j] < x
  {
    if fields == [] || InOrder(up, fields[|fields| - 1], x) then |fields|
    else Slot(up, fields[..|fields| - 1], x)
  }

  ghost function Fields(items: seq<Item>): (r: seq<int>)
    reads items
    ensures |r| == |items| && forall k :: 0 <= k < |r| ==> r[k] == items[k].field
  {
    if items == [] then [] else Fields(items[..|items| - 1]) + [items[|items| - 1].field]
  }

  lemma SlotIs(up: bool, fields: seq<int>, x: int, p: nat)
    requires p <= |fields| && (p > 0 ==> InOrder(up, fields[p - 1], x))
    requires forall j :: p <= j < |fields| ==> !InOrder(up, fields[j], x)
    ensures Slot(up, fields, x) == p
  {
  }

  /** The walk back from the tail. */
  method FindSlot(up: bool, queue: Item, x: int, ghost ring: seq<Item>) returns (ptmp: Item, ghost k: nat)
    requires Ring(ring) && ring[0] == queue
    ensures k < |ring| && ptmp == ring[k] && k == Slot(up, Fields(ring[1..]), x)
  {
    ghost var fields := Fields(ring[1..]);
    k := |ring| - 1;
    RingLinks(ring, k);
    ptmp := queue.prev;
    while ptmp != queue
      invariant k < |ring| && ptmp == ring[k]
      invariant forall j :: k <= j < |fields| ==> !InOrder(up, fields[j], x)
      decreases k
    {
      assert k > 0 && ring[1..][k - 1] == ptmp;
      assert fields[k - 1] == ptmp.field;
      if InOrder(up, ptmp.field, x) {
        break;
      }
      RingLinks(ring, k - 1);
      ptmp := ptmp.prev;
      k := k - 1;
    }
    SlotIs(up, fields, x, k);
  }

  /** INSERT_ITEM_INCREASING and INSERT_ITEM_DECREASING. */
  method InsertItemSorted(up: bool, queue: Item, ptr: Item, ghost ring: seq<Item>)
    requires Ring(ring) && ring[0] == queue && ptr !in ring
    modifies ptr, ring
    ensures Ring(InsertAt(ring, 1 + Slot(up, old(Fields(ring[1..])), ptr.field), ptr))
    ensures ptr.field == old(ptr.field) && forall n :: n in ring ==> n.field == old(n.field)
    ensures Ordered(up, old(Fields(ring[1..]))) ==>
      Ordered(up, Fields(InsertAt(ring, 1 + Slot(up, old(Fields(ring[1..])), ptr.field), ptr)[1..]))
  {
    ghost var fields := Fields(ring[1..]);
    InsertAtSlot(up, queue, ptr, ring, fields);
    InsertedOrdered(up, fields, ptr.field, Fields(InsertAt(ring, 1 + Slot(up, fields, ptr.field), ptr)[1..]));
  }

  lemma InsertedOrdered(up: bool, fields: seq<int>, x: int, fields': seq<int>)
    requires fields' == InsertAt(fields, Slot(up, fields, x), x)
    ensures Ordered(up, fields) ==> Ordered(up, fields')
  {
    if Ordered(up, fields) {
      InsertKeepsOrdered(up, fields, x);
    }
  }

  /** The walk and the insertion behind it. */
  method InsertAtSlot(up: bool, queue: Item, ptr: Item, ghost ring: seq<Item>, ghost fields: seq<int>)
    requires Ring(ring) && ring[0] == queue && ptr !in ring && fields == Fields(ring[1..])
    modifies ptr, ring
    ensures Ring(InsertAt(ring, 1 + Slot(up, fields, ptr.field), ptr)) && ptr.field == old(ptr.field)
    ensures forall n :: n in ring ==> n.field == old(n.field)
    ensures Fields(InsertAt(ring, 1 + Slot(up, fields, ptr.field), ptr)[1..])
      == InsertAt(fields, Slot(up, fields, ptr.field), ptr.field)
  {
    var ptmp, slot := FindSlot(up, queue, ptr.field, ring);
    InsertAfterSlot(ptmp, ptr, ring, slot, fields);
  }

  method InsertAfterSlot(ptmp: Item, ptr: Item, ghost ring: seq<Item>, ghost slot: nat, ghost fields: seq<int>)
    requires Ring(ring) && slot < |ring| && ring[slot] == ptmp && ptr !in ring && fields == Fields(ring[1..])
    modifies ptr, ring
    ensures Ring(InsertAt(ring, 1 + slot, ptr)) && ptr.field == old(ptr.field)
    ensures forall n :: n in ring ==> n.field == old(n.field)
    ensures Fields(InsertAt(ring, 1 + slot, ptr)[1..]) == InsertAt(fields, slot, ptr.field)
  {
    RingLinks(ring, slot);
    InsertItemAfter(ptmp, ptr, ring, slot);
    FieldsInserted(ring, fields, slot, ptr);
  }

  lemma FieldsInserted(ring: seq<Item>, fields: seq<int>, slot: nat, ptr: Item)
    requires |ring| == |fields| + 1 && forall k :: 0 <= k < |fields| ==> fields[k] == ring[k + 1].field
    requires slot <= |fields|
    ensures Fields(InsertAt(ring, 1 + slot, ptr)[1..]) == InsertAt(fields, slot, ptr.field)
  {
    var r := InsertAt(ring, 1 + slot, ptr);
    forall i | 0 <= i < |r| - 1
      ensures r[1..][i].field == InsertAt(fields, slot, ptr.field)[i]
    {
      InsertedField(ring, fields, slot, ptr, i + 1);
    }
  }

  lemma InsertedField(ring: seq<Item>, fields: seq<int>, slot: nat, ptr: Item, i: nat)
    requires |ring| == |fields| + 1 && forall k :: 0 <= k < |fields| ==> fields[k] == ring[k + 1].field
    requires slot <= |fields| && 1 <= i <= |ring|
    ensures InsertAt(ring, 1 + slot, ptr)[i].field == InsertAt(fields, slot, ptr.field)[i - 1]
  {
    InsertIndex(ring, 1 + slot, ptr, i);
    InsertIndex(fields, slot, ptr.field, i - 1);
    assert i > 1 ==> fields[i - 2] == ring[i - 1].field;
  }

  /** An ordered queue stays ordered, and the new item goes after all items it ties with. */
  lemma {:induction false} InsertKeepsOrdered(up: bool, fields: seq<int>, x: int)
    requires Ordered(up, fields)
    ensures Ordered(up, InsertAt(fields, Slot(up, fields, x), x))
    ensures forall j :: 0 <= j < |fields| && fields[j] == x ==> j < Slot(up, fields, x)
  {
    var p := Slot(up, fields, x);
    forall j | 0 <= j < p
      ensures InOrder(up, fields[j], x)
    {
      assert j < p - 1 ==> InOrder(up, fields[j], fields[p - 1]);
    }
  }

  /** An item as its queue sees it: the field it is sorted by, and when it was inserted. */
  datatype Arrival = Arrival(field: int, time: int)

  function FieldsOf(s: seq<Arrival>): (r: seq<int>)
    ensures |r| == |s| && forall k :: 0 <= k < |r| ==> r[k] == s[k].field
  {
    if s == [] then [] else FieldsOf(s[..|s| - 1]) + [s[|s| - 1].field]
  }

  function InsertAll(up: bool, xs: seq<Arrival>): seq<Arrival>
    decreases |xs|
  {
    if xs == [] then []
    else
      var r, x := InsertAll(up, xs[..|xs| - 1]), xs[|xs| - 1];
      InsertAt(r, Slot(up, FieldsOf(r), x.field), x)
  }

  ghost predicate StandsBefore(up: bool, a: Arrival, b: Arrival) {
    (if up then a.field <= b.field else a.field >= b.field) && (a.field == b.field ==> a.time < b.time)
  }

  /** Sorted, and items with equal fields in the order they arrived. */
  ghost predicate StablySorted(up: bool, r: seq<Arrival>) {
    forall i, j :: 0 <= i < j < |r| ==> StandsBefore(up, r[i], r[j])
  }

  lemma SlotSplits(up: bool, r: seq<Arrival>, x: Arrival)
    requires StablySorted(up, r) && forall i :: 0 <= i < |r| ==> r[i].time < x.time
    ensures var p := Slot(up, FieldsOf(r), x.field);
      && (forall i :: 0 <= i < p ==> StandsBefore(up, r[i], x))
      && (forall i :: p <= i < |r| ==> StandsBefore(up, x, r[i]))
  {
    var fields := FieldsOf(r);
    var p := Slot(up, fields, x.field);
    forall i | 0 <= i < p
      ensures StandsBefore(up, r[i], x)
    {
      assert fields[p - 1] == r[p - 1].field;
      assert i < p - 1 ==> StandsBefore(up, r[i], r[p - 1]);
    }
    forall i | p <= i < |r|
      ensures StandsBefore(up, x, r[i])
    {
      assert fields[i] == r[i].field;
    }
  }

  lemma InsertKeepsStable(up: bool, r: seq<Arrival>, x: Arrival)
    requires StablySorted(up, r) && forall i :: 0 <= i < |r| ==> r[i].time < x.time
    ensures StablySorted(up, InsertAt(r, Slot(up, FieldsOf(r), x.field), x))
  {
    var p := Slot(up, FieldsOf(r), x.field);
    SlotSplits(up, r, x);
    var r' := InsertAt(r, p, x);
    forall i, j | 0 <= i < j < |r'|
      ensures StandsBefore(up, r'[i], r'[j])
    {
      InsertIndex(r, p, x, i);
      InsertIndex(r, p, x, j);
    }
  }

  lemma InsertIndex<T>(s: seq<T>, p: nat, x: T, i: nat)
    requires p <= |s| && i <= |s|
    ensures InsertAt(s, p, x)[i] == if i < p then s[i] else if i == p then x else s[i - 1]
  {
  }

  lemma InsertMultiset<T>(r: seq<T>, p: nat, x: T)
    requires p <= |r|
    ensures multiset(InsertAt(r, p, x)) == multiset(r) + multiset{x}
  {
    assert r == r[..p] + r[p..];
  }

  lemma AllEarlier(r: seq<Arrival>, xs: seq<Arrival>, x: Arrival)
    requires multiset(r) == multiset(xs) && forall i :: 0 <= i < |xs| ==> xs[i].time < x.time
    ensures forall i :: 0 <= i < |r| ==> r[i].time < x.time
  {
    forall i | 0 <= i < |r|
      ensures r[i].time < x.time
    {
      assert r[i] in multiset(r);
      assert r[i] in xs;
    }
  }

  /** Inserting any items one after the other into an empty queue sorts them, loses and invents
      none, and leaves items with equal fields in the order they arrived. */
  lemma {:induction false} InsertAllSortsStably(up: bool, xs: seq<Arrival>)
    requires forall i, j :: 0 <= i < j < |xs| ==> xs[i].time < xs[j].time
    ensures multiset(InsertAll(up, xs)) == multiset(xs) && StablySorted(up, InsertAll(up, xs))
    decreases |xs|
  {
    if xs != [] {
      var n := |xs| - 1;
      InsertAllSortsStably(up, xs[..n]);
      assert xs == xs[..n] + [xs[n]];
      InsertLast(up, InsertAll(up, xs[..n]), xs[..n], xs[n]);
    }
  }

  /** INSERT_ITEM_INCREASING leaves the smallest field in front, INSERT_ITEM_DECREASING the largest. */
  lemma WhichWay(xs: seq<Arrival>)
    requires forall i, j :: 0 <= i < j < |xs| ==> xs[i].time < xs[j].time
    ensures var r := InsertAll(true, xs); forall i, j :: 0 <= i < j < |r| ==> r[i].field <= r[j].field
    ensures var r := InsertAll(false, xs); forall i, j :: 0 <= i < j < |r| ==> r[i].field >= r[j].field
  {
    InsertAllSortsStably(true, xs);
    InsertAllSortsStably(false, xs);
    SortedFields(true, InsertAll(true, xs));
    SortedFields(false, InsertAll(false, xs));
  }

  lemma SortedFields(up: bool, r: seq<Arrival>)
    requires StablySorted(up, r)
    ensures forall i, j :: 0 <= i < j < |r| ==> if up then r[i].field <= r[j].field else r[i].field >= r[j].field
  {
    forall i, j | 0 <= i < j < |r|
      ensures if up then r[i].field <= r[j].field else r[i].field >= r[j].field
    {
      assert StandsBefore(up, r[i], r[j]);
    }
  }

  lemma InsertLast(up: bool, r: seq<Arrival>, xs: seq<Arrival>, x: Arrival)
    requires multiset(r) == multiset(xs) && StablySorted(up, r) && forall i :: 0 <= i < |xs| ==> xs[i].time < x.time
    ensures var r' := InsertAt(r, Slot(up, FieldsOf(r), x.field), x);
      multiset(r') == multiset(xs + [x]) && StablySorted(up, r')
  {
    AllEarlier(r, xs, x);
    InsertMultiset(r, Slot(up, FieldsOf(r), x.field), x);
    InsertKeepsStable(up, r, x);
  }

  // ---------------------------------------------------------------- the pool of items

  /** The free items, linked through their first field. */
  ghost predicate Linked(head: Item?, list: seq<Item>)
    reads list
  {
    && head == (if list == [] then null else list[0])
    && forall k {:trigger list[k].next} :: 0 <= k < |list| ==>
        list[k].next == if k + 1 < |list| then list[k + 1] else null
  }

  function Reverse<T>(s: seq<T>): (r: seq<T>)
    ensures |r| == |s| && forall k :: 0 <= k < |s| ==> r[k] == s[|s| - 1 - k]
  {
    if s == [] then [] else Reverse(s[1..]) + [s[0]]
  }

  lemma {:induction false} ReverseSnoc<T>(s: seq<T>, x: T)
    ensures Reverse(s + [x]) == [x] + Reverse(s)
  {
    if s == [] {
      assert [] + [x] == [x];
    } else {
      assert (s + [x])[1..] == s[1..] + [x];
      ReverseSnoc(s[1..], x);
    }
  }

  /** Links a new block of items through their first fields. */
  method LinkBlock(nitems: nat) returns (first: Item, ghost block: seq<Item>)
    requires nitems > 0
    ensures |block| == nitems && NoDup(block) && fresh(block) && Linked(first, block)
  {
    first := new Item();
    var last := first;
    block := [first];
    for i := 1 to nitems
      invariant |block| == i && NoDup(block) && fresh(block)
      invariant block[0] == first && block[i - 1] == last && last.next == null
      invariant forall k {:trigger block[k].next} :: 0 <= k < i - 1 ==> block[k].next == block[k + 1]
    {
      var item := new Item();
      assert item !in block;
      last.next := item;
      block := block + [item];
      last := item;
    }
  }

  ghost function SetOf(s: seq<Item>): set<Item> {
    set n | n in s
  }

  /** Of some items, those done have gone from the held ones to the free list, last one in front. */
  ghost predicate Drained(items: seq<Item>, done: seq<Item>, rest: seq<Item>, list0: seq<Item>, held0: set<Item>,
                          list: seq<Item>, held: set<Item>)
  {
    items == done + rest && list == Reverse(done) + list0 && held == held0 - SetOf(done)
  }

  lemma DrainOne(items: seq<Item>, done: seq<Item>, rest: seq<Item>, list0: seq<Item>, held0: set<Item>,
                 list: seq<Item>, held: set<Item>)
    requires Drained(items, done, rest, list0, held0, list, held) && rest != []
    ensures Drained(items, done + [rest[0]], rest[1..], list0, held0, [rest[0]] + list, held - {rest[0]})
  {
    assert items == (done + [rest[0]]) + rest[1..];
    ReverseSnoc(done, rest[0]);
    assert [rest[0]] + (Reverse(done) + list0) == Reverse(done + [rest[0]]) + list0;
    assert SetOf(done + [rest[0]]) == SetOf(done) + {rest[0]};
  }

  lemma AllDrained(items: seq<Item>, done: seq<Item>, list0: seq<Item>, held0: set<Item>, list: seq<Item>,
      held: set<Item>)
    requires Drained(items, done, [], list0, held0, list, held)
    ensures list == Reverse(items) + list0 && held == held0 - SetOf(items)
  {
    assert done == items;
  }

  /** The carved items are the free ones, each listed once, and the held ones, none of them both. */
  ghost predicate Accounted(list: seq<Item>, held: set<Item>, carved: set<Item>) {
    && NoDup(list) && (forall n :: n in list ==> n !in held) && held <= carved
    && (forall n :: n in list ==> n in carved) && (forall n :: n in carved ==> n in list || n in held)
  }

  lemma TakeFirst(list: seq<Item>, held: set<Item>, carved: set<Item>)
    requires Accounted(list, held, carved) && list != []
    ensures Accounted(list[1..], held + {list[0]}, carved) && list[0] !in held
  {
    assert list == [list[0]] + list[1..];
  }

  lemma GiveBack(list: seq<Item>, held: set<Item>, carved: set<Item>, item: Item)
    requires Accounted(list, held, carved) && item in held
    ensures Accounted([item] + list, held - {item}, carved) && item !in list
  {
  }

  class Pool {
    const nitems: nat
    var freeItem: Item?
    ghost var list: seq<Item>   // on the free list, front first
    ghost var held: set<Item>   // handed out
    ghost var carved: set<Item> // ever cut from a block
    ghost var blocks: nat       // blocks carved so far

    /** Every item ever carved is on the free list once, or held by a client, never both; and whole
        blocks are carved. */
    ghost predicate Valid()
      reads this, list
    {
      && nitems > 0 && Linked(freeItem, list) && Accounted(list, held, carved)
      && |list| + |held| == blocks * nitems
    }

    constructor (nitems: nat)
      requires nitems > 0
      ensures Valid() && this.nitems == nitems && list == [] && held == carved == {}
    {
      this.nitems := nitems;
      freeItem := null;
      list, held, carved, blocks := [], {}, {}, 0;
    }

    method Alloc() returns (item: Item)
      requires Valid()
      modifies this
      ensures Valid() && item !in old(held) && held == old(held) + {item}
      ensures old(list) != [] ==>
          item == old(list[0]) && list == old(list)[1..] && blocks == old(blocks) && carved == old(carved)
      ensures old(list) == [] ==> |list| == nitems - 1 && blocks == old(blocks) + 1 && fresh(item) && fresh(list)
      ensures old(carved) <= carved && fresh(carved - old(carved))
    {
      if freeItem == null {
        Carve();
      }
      item := freeItem;
      freeItem := item.next;
      assert item == list[0];
      TakeFirst(list, held, carved);
      list, held := list[1..], held + {item};
    }

    /** Carves one new block of items when the free list is empty. */
    method Carve()
      requires Valid() && list == []
      modifies this
      ensures Valid() && |list| == nitems && held == old(held) && blocks == old(blocks) + 1 && fresh(list)
      ensures carved == old(carved) + SetOf(list)
    {
      var first;
      ghost var block;
      first, block := LinkBlock(nitems);
      MulNext(blocks, nitems);
      freeItem := first;
      list, blocks, carved := block, blocks + 1, carved + SetOf(block);
    }

    method FreeItem(item: Item)
      requires Valid() && item in held
      modifies this, item`next
      ensures Valid() && list == [item] + old(list) && held == old(held) - {item}
      ensures blocks == old(blocks) && carved == old(carved)
    {
      GiveBack(list, held, carved, item);
      item.next := freeItem;
      freeItem := item;
      list, held := [item] + list, held - {item};
    }

    method NumItemsFree() returns (n: nat)
      requires Valid()
      ensures n == |list| == blocks * nitems - |held|
    {
      n := 0;
      var ptr := freeItem;
      while ptr != null
        invariant n <= |list| && ptr == if n < |list| then list[n] else null
        decreases |list| - n
      {
        ptr := ptr.next;
        n := n + 1;
      }
    }

    /** Empties a queue of held items into the free list, last item in front. */
    method ResetQueue(queue: Item, ghost ring: seq<Item>)
      requires Valid() && Ring(ring) && ring[0] == queue && queue !in list && SetOf(ring[1..]) <= held
      modifies this, SetOf(ring)
      ensures Valid() && Ring([queue]) && blocks == old(blocks) && carved == old(carved)
      ensures list == Reverse(ring[1..]) + old(list) && held == old(held) - SetOf(ring[1..])
    {
      ghost var done: seq<Item>, left := [], ring;
      ghost var list0, held0 := list, held;
      var empty := IsNull(queue, left);
      while !empty
        invariant Valid() && blocks == old(blocks) && carved == old(carved) && Ring(left)
        invariant left[0] == queue && queue !in list && SetOf(left[1..]) <= held && SetOf(left) <= SetOf(ring)
        invariant empty <==> left == [queue]
        invariant Drained(ring[1..], done, left[1..], list0, held0, list, held)
        decreases |left|
      {
        done, left := DrainStep(queue, left, ring[1..], done, list0, held0);
        empty := IsNull(queue, left);
      }
      assert left[1..] == [];
      AllDrained(ring[1..], done, list0, held0, list, held);
    }

    /** The same with the items drained so far. */
    method DrainStep(queue: Item, ghost left: seq<Item>, ghost items: seq<Item>, ghost done: seq<Item>,
                     ghost list0: seq<Item>, ghost held0: set<Item>)
      returns (ghost done': seq<Item>, ghost left': seq<Item>)
      requires Valid() && Ring(left) && |left| > 1 && left[0] == queue && queue !in list && SetOf(left[1..]) <= held
      requires Drained(items, done, left[1..], list0, held0, list, held)
      modifies this, SetOf(left)
      ensures Valid() && Ring(left') && left'[0] == queue && queue !in list && |left'| == |left| - 1
      ensures SetOf(left'[1..]) <= held && SetOf(left') <= SetOf(left)
      ensures blocks == old(blocks) && carved == old(carved)
      ensures Drained(items, done', left'[1..], list0, held0, list, held)
    {
      DrainOne(items, done, left[1..], list0, held0, list, held);
      done' := done + [left[1]];
      left' := ResetStep(queue, left);
    }

    /** One round of the loop of RESET_QUEUE. */
    method ResetStep(queue: Item, ghost ring: seq<Item>) returns (ghost left: seq<Item>)
      requires Valid() && Ring(ring) && |ring| > 1 && ring[0] == queue && queue !in list && SetOf(ring[1..]) <= held
      modifies this, SetOf(ring)
      ensures Valid() && Ring(left) && left == Without(ring, 1) && left[1..] == ring[2..] == ring[1..][1..]
      ensures queue !in list && SetOf(left[1..]) <= held && SetOf(left) <= SetOf(ring)
      ensures blocks == old(blocks) && carved == old(carved)
      ensures list == [ring[1]] + old(list) && held == old(held) - {ring[1]}
    {
      RingLinks(ring, 0);
      RingLinks(ring, 1);
      var ptmp := queue.next;
      assert ptmp == ring[1] && ptmp in ring[1..];
      assert At(ring, 0) in SetOf(ring) && At(ring, 2) in SetOf(ring);
      RemoveItem(ptmp, ring, 1);
      FreeItem(ptmp);
      left := Without(ring, 1);
    }
  }
}
