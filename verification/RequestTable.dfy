/** The MPI request table of hash_table.c: a main table whose buckets overflow into one shared
    array. The overflow array holds, linked by integer indices, the chain of every bucket and
    the list of free cells. */
module RequestTable {
  import opened Common

  const HASH_NULL := -1
  const HASH_FREE := -2

  datatype Entry = Entry(key: nat, group: int, commid: int, partner: int, tag: int, size: int)

  datatype TableCell = TableCell(ovfLink: int, data: Entry)

  datatype OverflowCell = OverflowCell(next: int, data: Entry)

  // ---------------------------------------------------------------- what the table means

  /** A bucket as a list: its main entry followed by its overflow chain. `free` counts the
      overflow cells no bucket uses. */
  datatype Contents = Contents(buckets: seq<seq<Entry>>, free: nat)

  datatype Op = Add(entry: Entry) | Remove(key: nat)

  function Inserted(bucket: seq<Entry>, e: Entry): seq<Entry> {
    if bucket == [] then [e] else [bucket[0], e] + bucket[1..]
  }

  function FirstMatch(bucket: seq<Entry>, key: nat): (k: nat)
    ensures k <= |bucket|
    ensures k < |bucket| ==> bucket[k].key == key
    ensures forall j :: 0 <= j < k ==> bucket[j].key != key
  {
    if bucket == [] || bucket[0].key == key then 0 else 1 + FirstMatch(bucket[1..], key)
  }

  function Find(bucket: seq<Entry>, key: nat): Option<Entry> {
    var k := FirstMatch(bucket, key);
    if k < |bucket| then Some(bucket[k]) else None
  }

  function Bucket(c: Contents, key: nat): seq<Entry>
    requires c.buckets != []
  {
    c.buckets[key % |c.buckets|]
  }

  predicate AddFails(c: Contents, key: nat)
    requires c.buckets != []
  {
    Bucket(c, key) != [] && c.free == 0
  }

  predicate RemoveFails(c: Contents, key: nat)
    requires c.buckets != []
  {
    FirstMatch(Bucket(c, key), key) == |Bucket(c, key)|
  }

  /** One operation on the meaning of the table; a failing operation changes nothing. */
  function Apply(c: Contents, op: Op): (r: Contents)
    requires c.buckets != []
    ensures |r.buckets| == |c.buckets|
  {
    match op
    case Add(e) =>
      if AddFails(c, e.key) then c
      else
        var b := Bucket(c, e.key);
        Contents(c.buckets[e.key % |c.buckets| := Inserted(b, e)], if b == [] then c.free else c.free - 1)
    case Remove(key) =>
      if RemoveFails(c, key) then c
      else
        var b := Bucket(c, key);
        Contents(c.buckets[key % |c.buckets| := Without(b, FirstMatch(b, key))],
            if |b| == 1 then c.free else c.free + 1)
  }

  function Empty(tableSize: nat, overflowSize: nat): Contents {
    Contents(seq(tableSize, _ => []), overflowSize)
  }

  function Run(c: Contents, ops: seq<Op>): (r: Contents)
    requires c.buckets != []
    ensures |r.buckets| == |c.buckets|
    decreases |ops|
  {
    if ops == [] then c else Apply(Run(c, ops[..|ops| - 1]), ops[|ops| - 1])
  }

  // ---------------------------------------------------------------- properties of every run

  /** Overflow cells in use: all entries of a bucket but the first. */
  function OverflowUsed(buckets: seq<seq<Entry>>): nat {
    if buckets == [] then 0
    else OverflowUsed(buckets[..|buckets| - 1]) + Max(|buckets[|buckets| - 1]| - 1, 0)
  }

  lemma {:induction false} OverflowUsedUpdate(buckets: seq<seq<Entry>>, b: nat, v: seq<Entry>)
    requires b < |buckets|
    ensures OverflowUsed(buckets[b := v]) == OverflowUsed(buckets) + Max(|v| - 1, 0) - Max(|buckets[b]| - 1, 0)
  {
    var n := |buckets| - 1;
    if b == n {
      assert buckets[b := v][..n] == buckets[..n];
    } else {
      assert buckets[b := v][..n] == buckets[..n][b := v];
      OverflowUsedUpdate(buckets[..n], b, v);
    }
  }

  lemma {:induction false} OverflowUsedEmpty(n: nat)
    ensures OverflowUsed(Empty(n, 0).buckets) == 0
  {
    if n > 0 {
      assert Empty(n, 0).buckets[..n - 1] == Empty(n - 1, 0).buckets;
      OverflowUsedEmpty(n - 1);
    }
  }

  /** Cells are neither lost nor invented: used and free ones always make up the overflow array. */
  lemma {:induction false} Conservation(tableSize: nat, overflowSize: nat, ops: seq<Op>)
    requires tableSize > 0
    ensures var r := Run(Empty(tableSize, overflowSize), ops); OverflowUsed(r.buckets) + r.free == overflowSize
    decreases |ops|
  {
    if ops == [] {
      assert Empty(tableSize, overflowSize).buckets == Empty(tableSize, 0).buckets;
      OverflowUsedEmpty(tableSize);
    } else {
      var n := |ops| - 1;
      Conservation(tableSize, overflowSize, ops[..n]);
      var c := Run(Empty(tableSize, overflowSize), ops[..n]);
      var key := match ops[n] case Add(e) => e.key case Remove(k) => k;
      var b := Bucket(c, key);
      match ops[n] {
        case Add(e) => OverflowUsedUpdate(c.buckets, key % tableSize, Inserted(b, e));
        case Remove(k) =>
          if !RemoveFails(c, k) {
            OverflowUsedUpdate(c.buckets, key % tableSize, Without(b, FirstMatch(b, k)));
          }
      }
    }
  }

  function CountKey(bucket: seq<Entry>, key: nat): nat {
    if bucket == [] then 0 else (if bucket[0].key == key then 1 else 0) + CountKey(bucket[1..], key)
  }

  lemma {:induction false} CountKeyConcat(a: seq<Entry>, b: seq<Entry>, key: nat)
    ensures CountKey(a + b, key) == CountKey(a, key) + CountKey(b, key)
  {
    if a == [] {
      assert a + b == b;
    } else {
      assert (a + b)[1..] == a[1..] + b;
      CountKeyConcat(a[1..], b, key);
    }
  }

  lemma {:induction false} CountInserted(bucket: seq<Entry>, e: Entry, key: nat)
    ensures CountKey(Inserted(bucket, e), key) == CountKey(bucket, key) + if e.key == key then 1 else 0
  {
    if bucket != [] {
      assert [bucket[0], e] + bucket[1..] == [bucket[0]] + ([e] + bucket[1..]);
      assert bucket == [bucket[0]] + bucket[1..];
      CountKeyConcat([bucket[0]], [e] + bucket[1..], key);
      CountKeyConcat([e], bucket[1..], key);
      CountKeyConcat([bucket[0]], bucket[1..], key);
    }
  }

  lemma {:induction false} CountWithout(bucket: seq<Entry>, k: nat, key: nat)
    requires k < |bucket|
    ensures CountKey(Without(bucket, k), key) == CountKey(bucket, key) - if bucket[k].key == key then 1 else 0
  {
    assert bucket == bucket[..k] + ([bucket[k]] + bucket[k + 1..]);
    CountKeyConcat(bucket[..k], [bucket[k]] + bucket[k + 1..], key);
    CountKeyConcat([bucket[k]], bucket[k + 1..], key);
    CountKeyConcat(bucket[..k], bucket[k + 1..], key);
  }

  lemma {:induction false} CountZero(bucket: seq<Entry>, key: nat)
    ensures CountKey(bucket, key) == 0 <==> FirstMatch(bucket, key) == |bucket|
  {
    if bucket != [] {
      CountZero(bucket[1..], key);
    }
  }

  /** What one operation adds to the entries of a key. */
  function Gain(c: Contents, op: Op, key: nat): int
    requires c.buckets != []
  {
    match op
    case Add(e) => if e.key == key && !AddFails(c, key) then 1 else 0
    case Remove(k) => if k == key && !RemoveFails(c, key) then -1 else 0
  }

  /** How many more operations on `key` succeeded as adds than as removes along a run. */
  function Balance(c: Contents, ops: seq<Op>, key: nat): int
    requires c.buckets != []
    decreases |ops|
  {
    if ops == [] then 0
    else
      var n := |ops| - 1;
      Balance(c, ops[..n], key) + Gain(Run(c, ops[..n]), ops[n], key)
  }

  /** Over every run, duplicates included, the bucket of a key holds as many entries for it as
      successful adds outnumber successful removes; so a search succeeds exactly while they do. */
  lemma {:induction false} SearchCounts(tableSize: nat, overflowSize: nat, ops: seq<Op>, key: nat)
    requires tableSize > 0
    ensures var c0 := Empty(tableSize, overflowSize);
      var b := Bucket(Run(c0, ops), key);
      CountKey(b, key) == Balance(c0, ops, key) && (Find(b, key).Some? <==> Balance(c0, ops, key) > 0)
  {
    var c0 := Empty(tableSize, overflowSize);
    CountIsBalance(c0, ops, key);
    CountZero(Bucket(Run(c0, ops), key), key);
  }

  lemma CountStep(c: Contents, op: Op, key: nat)
    requires c.buckets != []
    ensures CountKey(Bucket(Apply(c, op), key), key) == CountKey(Bucket(c, key), key) + Gain(c, op, key)
  {
    match op {
      case Add(e) => CountInserted(Bucket(c, e.key), e, key);
      case Remove(k) =>
        if !RemoveFails(c, k) {
          CountWithout(Bucket(c, k), FirstMatch(Bucket(c, k), k), key);
        }
    }
  }

  lemma {:induction false} CountIsBalance(c0: Contents, ops: seq<Op>, key: nat)
    requires c0.buckets != [] && CountKey(Bucket(c0, key), key) == 0
    ensures CountKey(Bucket(Run(c0, ops), key), key) == Balance(c0, ops, key)
    decreases |ops|
  {
    if ops != [] {
      var n := |ops| - 1;
      CountIsBalance(c0, ops[..n], key);
      CountStep(Run(c0, ops[..n]), ops[n], key);
    }
  }

  /** No operation of the run adds a key that is present when it does. */
  ghost predicate AddsOnlyAbsent(c: Contents, ops: seq<Op>)
    requires c.buckets != []
  {
    forall n :: 0 <= n < |ops| && ops[n].Add? ==> RemoveFails(Run(c, ops[..n]), ops[n].entry.key)
  }

  function NextMap(c: Contents, m: map<nat, Entry>, op: Op): map<nat, Entry>
    requires c.buckets != []
  {
    match op
    case Add(e) => if AddFails(c, e.key) then m else m[e.key := e]
    case Remove(k) => m - {k}
  }

  /** The finite map a run should implement: failing adds are ignored. */
  function MapRun(c: Contents, ops: seq<Op>): map<nat, Entry>
    requires c.buckets != []
    decreases |ops|
  {
    if ops == [] then map[]
    else
      var n := |ops| - 1;
      NextMap(Run(c, ops[..n]), MapRun(c, ops[..n]), ops[n])
  }

  function Lookup(m: map<nat, Entry>, key: nat): Option<Entry> {
    if key in m then Some(m[key]) else None
  }

  ghost predicate DistinctKeys(bucket: seq<Entry>) {
    forall i, j :: 0 <= i < j < |bucket| ==> bucket[i].key != bucket[j].key
  }

  lemma FindUnique(bucket: seq<Entry>, k: nat)
    requires DistinctKeys(bucket) && k < |bucket|
    ensures Find(bucket, bucket[k].key) == Some(bucket[k])
  {
    var j := FirstMatch(bucket, bucket[k].key);
    assert !(k < j);
  }

  lemma FindAfterInsert(bucket: seq<Entry>, e: Entry, key: nat)
    requires DistinctKeys(bucket) && Find(bucket, e.key) == None
    ensures DistinctKeys(Inserted(bucket, e))
    ensures Find(Inserted(bucket, e), key) == if key == e.key then Some(e) else Find(bucket, key)
  {
    var r := Inserted(bucket, e);
    var at := if bucket == [] then 0 else 1;
    assert FirstMatch(bucket, e.key) == |bucket|;
    assert forall i :: 0 <= i < |r| ==> r[i] == if i == at then e else bucket[if i < at then i else i - 1];
    var k := FirstMatch(bucket, key);
    if key == e.key {
      FindUnique(r, at);
    } else if k < |bucket| {
      assert r[if k < at then k else k + 1] == bucket[k];
      FindUnique(r, if k < at then k else k + 1);
    }
  }

  lemma FindAfterRemove(bucket: seq<Entry>, k: nat, key: nat)
    requires DistinctKeys(bucket) && k < |bucket|
    ensures DistinctKeys(Without(bucket, k))
    ensures Find(Without(bucket, k), key) == if key == bucket[k].key then None else Find(bucket, key)
  {
    var r := Without(bucket, k);
    assert forall i :: 0 <= i < |r| ==> r[i] == bucket[if i < k then i else i + 1];
    var f := FirstMatch(bucket, key);
    if key != bucket[k].key && f < |bucket| {
      var at := if f < k then f else f - 1;
      assert r[at] == bucket[f];
      FindUnique(r, at);
    }
  }

  /** As long as no present key is added again, the table is a finite map. */
  lemma {:induction false} ImplementsMap(tableSize: nat, overflowSize: nat, ops: seq<Op>, key: nat)
    requires tableSize > 0
    requires AddsOnlyAbsent(Empty(tableSize, overflowSize), ops)
    ensures var c0 := Empty(tableSize, overflowSize);
      var b := Bucket(Run(c0, ops), key);
      DistinctKeys(b) && Find(b, key) == Lookup(MapRun(c0, ops), key)
    decreases |ops|
  {
    if ops != [] {
      var c0 := Empty(tableSize, overflowSize);
      var n := |ops| - 1;
      var pre := ops[..n];
      forall i | 0 <= i < n && pre[i].Add?
        ensures RemoveFails(Run(c0, pre[..i]), pre[i].entry.key)
      {
        assert pre[..i] == ops[..i];
        assert ops[i].Add?;
      }
      ImplementsMap(tableSize, overflowSize, pre, key);
      assert ops[n].Add? ==> RemoveFails(Run(c0, ops[..n]), ops[n].entry.key);
      MapStep(Run(c0, pre), MapRun(c0, pre), ops[n], key);
    }
  }

  lemma MapStep(c: Contents, m: map<nat, Entry>, op: Op, key: nat)
    requires c.buckets != [] && DistinctKeys(Bucket(c, key)) && Find(Bucket(c, key), key) == Lookup(m, key)
    requires op.Add? ==> RemoveFails(c, op.entry.key)
    ensures var b := Bucket(Apply(c, op), key);
      DistinctKeys(b) && Find(b, key) == Lookup(NextMap(c, m, op), key)
  {
    var b, n := Bucket(c, key), |c.buckets|;
    match op {
      case Add(e) =>
        if e.key % n == key % n && !AddFails(c, e.key) {
          FindAfterInsert(b, e, key);
        }
      case Remove(k) =>
        if k % n == key % n && !RemoveFails(c, k) {
          FindAfterRemove(b, FirstMatch(b, k), key);
        }
    }
  }

  /** In every run an add changes nothing if and only if the bucket of its key is in use and the
      buckets use up the whole overflow array between them. */
  lemma RefusedExactly(tableSize: nat, overflowSize: nat, ops: seq<Op>, e: Entry)
    requires tableSize > 0
    ensures var c := Run(Empty(tableSize, overflowSize), ops);
      Apply(c, Add(e)) == c <==> c.buckets[e.key % tableSize] != [] && OverflowUsed(c.buckets) == overflowSize
  {
    var c := Run(Empty(tableSize, overflowSize), ops);
    Conservation(tableSize, overflowSize, ops);
    var b := Bucket(c, e.key);
    if !AddFails(c, e.key) {
      assert |Apply(c, Add(e)).buckets[e.key % tableSize]| == |b| + 1;
    }
  }

  /** All entries of the table. */
  function Stored(buckets: seq<seq<Entry>>): multiset<Entry> {
    if buckets == [] then multiset{} else Stored(buckets[..|buckets| - 1]) + multiset(buckets[|buckets| - 1])
  }

  lemma {:induction false} StoredUpdate(buckets: seq<seq<Entry>>, b: nat, v: seq<Entry>, e: Entry)
    requires b < |buckets| && multiset(v) == multiset(buckets[b]) + multiset{e}
    ensures Stored(buckets[b := v]) == Stored(buckets) + multiset{e}
  {
    var n := |buckets| - 1;
    if b == n {
      assert buckets[b := v][..n] == buckets[..n];
    } else {
      assert buckets[b := v][..n] == buckets[..n][b := v];
      StoredUpdate(buckets[..n], b, v, e);
    }
  }

  lemma {:induction false} StoredEmpty(n: nat)
    ensures Stored(Empty(n, 0).buckets) == multiset{}
  {
    if n > 0 {
      assert Empty(n, 0).buckets[..n - 1] == Empty(n - 1, 0).buckets;
      StoredEmpty(n - 1);
    }
  }

  lemma InsertedAddsOne(bucket: seq<Entry>, e: Entry)
    ensures multiset(Inserted(bucket, e)) == multiset(bucket) + multiset{e}
  {
    if bucket != [] {
      assert bucket == [bucket[0]] + bucket[1..];
    }
  }

  function Adds(entries: seq<Entry>): (ops: seq<Op>)
    ensures |ops| == |entries| && forall k :: 0 <= k < |ops| ==> ops[k] == Add(entries[k])
  {
    if entries == [] then [] else Adds(entries[..|entries| - 1]) + [Add(entries[|entries| - 1])]
  }

  lemma AddStores(c: Contents, e: Entry)
    requires c.buckets != [] && (c.free > 0 || c.buckets[e.key % |c.buckets|] == [])
    ensures var c' := Apply(c, Add(e));
      && Stored(c'.buckets) == Stored(c.buckets) + multiset{e}
      && c'.free == if c.buckets[e.key % |c.buckets|] == [] then c.free else c.free - 1
  {
    var b := c.buckets[e.key % |c.buckets|];
    InsertedAddsOne(b, e);
    StoredUpdate(c.buckets, e.key % |c.buckets|, Inserted(b, e), e);
  }

  lemma RunAdds(c: Contents, entries: seq<Entry>)
    requires c.buckets != [] && entries != []
    ensures var n := |entries| - 1;
      Run(c, Adds(entries)) == Apply(Run(c, Adds(entries[..n])), Add(entries[n]))
  {
    var n := |entries| - 1;
    assert Adds(entries)[..n] == Adds(entries[..n]);
  }

  lemma MultisetSnoc<T>(s: seq<T>)
    requires s != []
    ensures multiset(s) == multiset(s[..|s| - 1]) + multiset{s[|s| - 1]}
  {
    assert s == s[..|s| - 1] + [s[|s| - 1]];
  }

  /** One request more than the overflow array has cells always fits, whatever the keys: all of
      them are stored, and the overflow cells in use are fewer than the requests. */
  lemma {:induction false} RequestsFit(tableSize: nat, overflowSize: nat, entries: seq<Entry>)
    requires tableSize > 0 && |entries| <= overflowSize + 1
    ensures var c := Run(Empty(tableSize, overflowSize), Adds(entries));
      && Stored(c.buckets) == multiset(entries)
      && if entries == [] then c == Empty(tableSize, overflowSize) else c.free + |entries| > overflowSize
    decreases |entries|
  {
    if entries == [] {
      assert Empty(tableSize, overflowSize).buckets == Empty(tableSize, 0).buckets;
      StoredEmpty(tableSize);
    } else {
      var n := |entries| - 1;
      RequestsFit(tableSize, overflowSize, entries[..n]);
      RunAdds(Empty(tableSize, overflowSize), entries);
      MultisetSnoc(entries);
      AddStores(Run(Empty(tableSize, overflowSize), Adds(entries[..n])), entries[n]);
    }
  }

  /** A request just added is found, unless the main entry of its bucket has its key already. */
  lemma NewestFound(c: Contents, e: Entry)
    requires c.buckets != [] && (c.free > 0 || c.buckets[e.key % |c.buckets|] == [])
    ensures var b, b' := c.buckets[e.key % |c.buckets|], Apply(c, Add(e)).buckets[e.key % |c.buckets|];
      Find(b', e.key) == if b != [] && b[0].key == e.key then Some(b[0]) else Some(e)
  {
    var b := c.buckets[e.key % |c.buckets|];
    if b != [] && b[0].key != e.key {
      assert Inserted(b, e)[1..][0] == e;
    }
  }

  /** A remove takes out the first entry of its key and keeps the order of the others. */
  lemma RemovesFirst(c: Contents, key: nat, k: nat)
    requires c.buckets != []
    requires var b := c.buckets[key % |c.buckets|];
      k < |b| && b[k].key == key && forall j :: 0 <= j < k ==> b[j].key != key
    ensures var b, b' := c.buckets[key % |c.buckets|], Apply(c, Remove(key)).buckets[key % |c.buckets|];
      |b'| == |b| - 1 && forall j :: 0 <= j < |b'| ==> b'[j] == b[if j < k then j else j + 1]
  {
    FirstMatchIs(c.buckets[key % |c.buckets|], key, k);
  }

  /** Removing a request right after it was added leaves the table as it was, unless the main entry
      of its bucket had its key already. */
  lemma RemoveUndoesAdd(c: Contents, e: Entry)
    requires c.buckets != [] && (c.free > 0 || c.buckets[e.key % |c.buckets|] == [])
    requires var b := c.buckets[e.key % |c.buckets|]; b != [] ==> b[0].key != e.key
    ensures Apply(Apply(c, Add(e)), Remove(e.key)) == c
  {
    var b, cell := c.buckets[e.key % |c.buckets|], e.key % |c.buckets|;
    var k := if b == [] then 0 else 1;
    FirstMatchIs(Inserted(b, e), e.key, k);
    assert Without(Inserted(b, e), k) == b;
    assert c.buckets[cell := Inserted(b, e)][cell := b] == c.buckets;
  }

  // ---------------------------------------------------------------- the linked overflow array

  /** What `next` of the k-th cell of a list must be; entry 0 is the head link. */
  ghost function Link(list: seq<int>, k: nat): int {
    if k < |list| then list[k] else HASH_NULL
  }

  ghost predicate IsList(ovf: seq<OverflowCell>, head: int, list: seq<int>) {
    && head == Link(list, 0)
    && (forall k :: 0 <= k < |list| ==> 0 <= list[k] < |ovf|)
    && (forall k {:trigger ovf[list[k]]} :: 0 <= k < |list| ==> ovf[list[k]].next == Link(list, k + 1))
  }

  ghost predicate Owned(lists: seq<seq<int>>, owner: seq<nat>, i: nat)
    requires i < |owner|
  {
    owner[i] < |lists| && i in lists[owner[i]]
  }

  /** Every list is spelled out by the links, and every overflow cell lies on exactly one list,
      exactly once: lists are acyclic, pairwise disjoint and together use up the array. */
  ghost predicate Linked(ovf: seq<OverflowCell>, heads: seq<int>, lists: seq<seq<int>>, owner: seq<nat>) {
    && |heads| == |lists| && |owner| == |ovf|
    && (forall b {:trigger IsList(ovf, heads[b], lists[b])} :: 0 <= b < |lists| ==> IsList(ovf, heads[b], lists[b]))
    && (forall b, k :: 0 <= b < |lists| && 0 <= k < |lists[b]| ==> 0 <= lists[b][k] < |ovf|)
    && (forall b, k {:trigger owner[lists[b][k]]} :: 0 <= b < |lists| && 0 <= k < |lists[b]| ==>
        owner[lists[b][k]] == b)
    && (forall b {:trigger NoDup(lists[b])} :: 0 <= b < |lists| ==> NoDup(lists[b]))
    && (forall i {:trigger Owned(lists, owner, i)} :: 0 <= i < |owner| ==> Owned(lists, owner, i))
  }

  /** Unlinking the k-th cell of one list, for a predecessor inside the list or its head. */
  ghost function Unlinked(ovf: seq<OverflowCell>, list: seq<int>, k: nat): seq<OverflowCell>
    requires k < |list| && forall j :: 0 <= j < |list| ==> 0 <= list[j] < |ovf|
  {
    if k == 0 then ovf else ovf[list[k - 1] := ovf[list[k - 1]].(next := ovf[list[k]].next)]
  }

  ghost function HeadAfter(ovf: seq<OverflowCell>, list: seq<int>, k: nat): int
    requires k < |list| && forall j :: 0 <= j < |list| ==> 0 <= list[j] < |ovf|
  {
    if k == 0 then ovf[list[0]].next else list[0]
  }

  lemma UnlinkKeepsList(ovf: seq<OverflowCell>, list: seq<int>, k: nat)
    requires k < |list| && NoDup(list) && IsList(ovf, list[0], list)
    ensures IsList(Unlinked(ovf, list, k), HeadAfter(ovf, list, k), Without(list, k))
    ensures NoDup(Without(list, k)) && list[k] !in Without(list, k)
  {
    var rest := Without(list, k);
    var ovf' := Unlinked(ovf, list, k);
    forall j | 0 <= j < |rest|
      ensures 0 <= rest[j] < |ovf'| && ovf'[rest[j]].next == Link(rest, j + 1)
    {
      var o := if j < k then j else j + 1;
      assert rest[j] == list[o] && ovf[list[o]].next == Link(list, o + 1);
      if j + 1 < |rest| {
        assert rest[j + 1] == list[if j + 1 < k then j + 1 else j + 2];
      }
      assert ovf[list[k]].next == Link(list, k + 1);
    }
  }

  /** A list none of whose cells is relinked stays a list. */
  lemma SameLinks(ovf: seq<OverflowCell>, ovf': seq<OverflowCell>, head: int, list: seq<int>)
    requires IsList(ovf, head, list) && |ovf'| == |ovf|
    requires forall j :: 0 <= j < |list| ==> ovf'[list[j]].next == ovf[list[j]].next
    ensures IsList(ovf', head, list)
  {
  }

  lemma PushKeepsList(ovf: seq<OverflowCell>, head: int, list: seq<int>, x: int)
    requires IsList(ovf, head, list) && NoDup(list) && x !in list
    requires 0 <= x < |ovf| && ovf[x].next == head
    ensures IsList(ovf, x, [x] + list) && NoDup([x] + list)
  {
    var r := [x] + list;
    forall j | 0 <= j < |r|
      ensures 0 <= r[j] < |ovf| && ovf[r[j]].next == Link(r, j + 1)
    {
      assert j > 0 ==> r[j] == list[j - 1] && ovf[list[j - 1]].next == Link(list, j);
    }
  }

  ghost function Moved(lists: seq<seq<int>>, from: nat, k: nat, to: nat): seq<seq<int>>
    requires from < |lists| && to < |lists| && from != to && k < |lists[from]|
  {
    lists[from := Without(lists[from], k)][to := [lists[from][k]] + lists[to]]
  }

  lemma MoveKeepsCover(lists: seq<seq<int>>, owner: seq<nat>, from: nat, k: nat, to: nat, i: nat)
    requires from < |lists| && to < |lists| && from != to && k < |lists[from]|
    requires i < |owner| && i != lists[from][k] && owner[i] < |lists| && i in lists[owner[i]]
    ensures i in Moved(lists, from, k, to)[owner[i]]
  {
    var j :| 0 <= j < |lists[owner[i]]| && lists[owner[i]][j] == i;
    if owner[i] == from {
      assert Without(lists[from], k)[if j < k then j else j - 1] == i;
    } else if owner[i] == to {
      assert Moved(lists, from, k, to)[to][j + 1] == i;
    }
  }

  lemma MoveKeepsOwner(lists: seq<seq<int>>, owner: seq<nat>, from: nat, k: nat, to: nat, b: nat, j: nat)
    requires from < |lists| && to < |lists| && from != to && k < |lists[from]| && NoDup(lists[from])
    requires forall b, k :: 0 <= b < |lists| && 0 <= k < |lists[b]| ==> 0 <= lists[b][k] < |owner|
    requires forall b, k {:trigger owner[lists[b][k]]} :: 0 <= b < |lists| && 0 <= k < |lists[b]| ==>
        owner[lists[b][k]] == b
    requires b < |lists| && j < |Moved(lists, from, k, to)[b]|
    ensures 0 <= Moved(lists, from, k, to)[b][j] < |owner|
    ensures owner[lists[from][k] := to][Moved(lists, from, k, to)[b][j]] == b
  {
    var y := Moved(lists, from, k, to)[b][j];
    assert owner[lists[from][k]] == from;
    if b == to && j == 0 {
    } else {
      var o := if b == from && j >= k then j + 1 else if b == to then j - 1 else j;
      assert y == lists[b][o] && owner[lists[b][o]] == b;
    }
  }

  lemma MoveKeepsOneList(ovf: seq<OverflowCell>, heads: seq<int>, lists: seq<seq<int>>, owner: seq<nat>,
                         from: nat, k: nat, to: nat, ovf': seq<OverflowCell>, b: nat)
    requires Linked(ovf, heads, lists, owner)
    requires from < |lists| && to < |lists| && from != to && k < |lists[from]| && b < |lists|
    requires |ovf'| == |ovf| && ovf'[lists[from][k]].next == heads[to]
    requires forall i :: 0 <= i < |ovf| && i != lists[from][k] ==> ovf'[i].next == Unlinked(ovf, lists[from], k)[i].next
    ensures IsList(ovf', heads[from := HeadAfter(ovf, lists[from], k)][to := lists[from][k]][b],
        Moved(lists, from, k, to)[b])
    ensures NoDup(Moved(lists, from, k, to)[b])
  {
    var x := lists[from][k];
    assert IsList(ovf, heads[from], lists[from]);
    if b == from {
      UnlinkKeepsList(ovf, lists[from], k);
      SameLinks(Unlinked(ovf, lists[from], k), ovf', HeadAfter(ovf, lists[from], k), Without(lists[from], k));
    } else {
      forall j | 0 <= j < |lists[b]|
        ensures lists[b][j] != x && ovf'[lists[b][j]].next == ovf[lists[b][j]].next
      {
        assert owner[lists[b][j]] == b;
        assert k > 0 ==> owner[lists[from][k - 1]] == from;
      }
      SameLinks(ovf, ovf', heads[b], lists[b]);
      if b == to {
        PushKeepsList(ovf', heads[b], lists[b], x);
      }
    }
  }

  /** Moving a cell from anywhere in one list to the front of another keeps the whole structure.
      This is the one pointer move `hash_add` and `hash_remove` are made of. */
  lemma MoveKeepsLinked(ovf: seq<OverflowCell>, heads: seq<int>, lists: seq<seq<int>>, owner: seq<nat>,
                        from: nat, k: nat, to: nat, ovf': seq<OverflowCell>)
    requires Linked(ovf, heads, lists, owner)
    requires from < |lists| && to < |lists| && from != to && k < |lists[from]|
    requires |ovf'| == |ovf| && ovf'[lists[from][k]].next == heads[to]
    requires forall i :: 0 <= i < |ovf| && i != lists[from][k] ==> ovf'[i].next == Unlinked(ovf, lists[from], k)[i].next
    ensures Linked(ovf', heads[from := HeadAfter(ovf, lists[from], k)][to := lists[from][k]],
                   Moved(lists, from, k, to), owner[lists[from][k] := to])
  {
    var x := lists[from][k];
    var lists' := Moved(lists, from, k, to);
    var owner' := owner[x := to];
    forall b | 0 <= b < |lists'|
      ensures IsList(ovf', heads[from := HeadAfter(ovf, lists[from], k)][to := x][b], lists'[b]) && NoDup(lists'[b])
    {
      MoveKeepsOneList(ovf, heads, lists, owner, from, k, to, ovf', b);
    }
    forall b, j | 0 <= b < |lists'| && 0 <= j < |lists'[b]|
      ensures owner'[lists'[b][j]] == b
    {
      MoveKeepsOwner(lists, owner, from, k, to, b, j);
    }
    forall i | 0 <= i < |owner'|
      ensures Owned(lists', owner', i)
    {
      if i == x {
        assert lists'[to][0] == x;
      } else {
        assert Owned(lists, owner, i);
        MoveKeepsCover(lists, owner, from, k, to, i);
      }
    }
  }

  // ---------------------------------------------------------------- reading the structure as lists

  /** The state of the structure: its real fields, then the ghost ones that name its head links,
      its lists (one per bucket, then the free list), the list each cell is on, and its meaning. */
  datatype Store = Store(table: seq<TableCell>, ovf: seq<OverflowCell>, ovfFree: int,
                         heads: seq<int>, lists: seq<seq<int>>, owner: seq<nat>, buckets: seq<seq<Entry>>)

  ghost predicate Reads(cell: TableCell, head: int, ovf: seq<OverflowCell>, list: seq<int>, bucket: seq<Entry>)
    requires forall k :: 0 <= k < |list| ==> 0 <= list[k] < |ovf|
  {
    && head == (if cell.ovfLink == HASH_FREE then HASH_NULL else cell.ovfLink)
    && (cell.ovfLink == HASH_FREE ==> bucket == [])
    && (cell.ovfLink != HASH_FREE ==> |bucket| == 1 + |list| && bucket[0] == cell.data)
    && (forall k {:trigger ovf[list[k]]} :: 0 <= k < |list| ==> k + 1 < |bucket| && bucket[k + 1] == ovf[list[k]].data)
  }

  ghost predicate Sound(s: Store) {
    && |s.table| > 0 && |s.ovf| > 0 && |s.buckets| == |s.table| && |s.lists| == |s.table| + 1
    && Linked(s.ovf, s.heads, s.lists, s.owner)
    && s.heads[|s.table|] == s.ovfFree
    && (forall b {:trigger Reads(s.table[b], s.heads[b], s.ovf, s.lists[b], s.buckets[b])} :: 0 <= b < |s.table| ==>
          Reads(s.table[b], s.heads[b], s.ovf, s.lists[b], s.buckets[b]))
  }

  lemma BucketAt(s: Store, b: nat)
    requires Sound(s) && b < |s.table|
    ensures IsList(s.ovf, s.heads[b], s.lists[b]) && NoDup(s.lists[b])
    ensures Reads(s.table[b], s.heads[b], s.ovf, s.lists[b], s.buckets[b])
  {
  }

  lemma FreeListAt(s: Store)
    requires Sound(s)
    ensures IsList(s.ovf, s.ovfFree, s.lists[|s.table|]) && NoDup(s.lists[|s.table|])
  {
    assert IsList(s.ovf, s.heads[|s.table|], s.lists[|s.table|]);
  }

  ghost predicate OnList(s: Store, b: nat, k: nat, i: int) {
    b < |s.lists| && k < |s.lists[b]| && s.lists[b][k] == i
  }

  /** Every overflow cell is at exactly one place of exactly one list, and the links alone find it
      there: following them from the head of that list reaches the cell and goes on to the end. */
  lemma EachCellOnce(s: Store, i: nat) returns (b: nat, k: nat)
    requires Sound(s) && i < |s.ovf|
    ensures OnList(s, b, k, i) && forall c: nat, l: nat :: OnList(s, c, l, i) ==> c == b && l == k
    ensures s.ovf[i].next == Link(s.lists[b], k + 1)
    ensures if k == 0 then s.heads[b] == i else s.ovf[s.lists[b][k - 1]].next == i
  {
    assert Owned(s.lists, s.owner, i);
    b := s.owner[i];
    k :| 0 <= k < |s.lists[b]| && s.lists[b][k] == i;
    assert IsList(s.ovf, s.heads[b], s.lists[b]);
    forall c: nat, l: nat | OnList(s, c, l, i)
      ensures c == b && l == k
    {
      assert 0 <= s.lists[c][l] < |s.ovf| && s.owner[s.lists[c][l]] == c;
      assert NoDup(s.lists[b]);
    }
    assert k > 0 ==> s.ovf[s.lists[b][k - 1]].next == Link(s.lists[b], k);
  }

  lemma InitialSound(s: Store)
    requires |s.table| > 0 && |s.ovf| > 0 && s.ovfFree == 0
    requires forall b :: 0 <= b < |s.table| ==> s.table[b].ovfLink == HASH_FREE
    requires forall j :: 0 <= j < |s.ovf| ==> s.ovf[j].next == if j + 1 < |s.ovf| then j + 1 else HASH_NULL
    requires s.heads == seq(|s.table|, _ => HASH_NULL) + [0]
    requires s.lists == seq(|s.table|, _ => []) + [seq(|s.ovf|, i => i)]
    requires s.owner == seq(|s.ovf|, _ => |s.table|) && s.buckets == seq(|s.table|, _ => [])
    ensures Sound(s)
  {
    assert forall i :: 0 <= i < |s.owner| ==> s.lists[s.owner[i]][i] == i;
  }

  // ---------------------------------------------------------------- the three writes

  ghost function MainWritten(s: Store, cell: nat, value: TableCell): Store
    requires cell < |s.table| && cell < |s.buckets|
  {
    s.(table := s.table[cell := value],
       buckets := s.buckets[cell := if value.ovfLink == HASH_FREE then [] else [value.data]])
  }

  /** Writing a main entry that has no chain before or after. */
  lemma MainWrittenSound(s: Store, cell: nat, value: TableCell)
    requires Sound(s) && cell < |s.table|
    requires s.table[cell].ovfLink in {HASH_FREE, HASH_NULL} && value.ovfLink in {HASH_FREE, HASH_NULL}
    ensures Sound(MainWritten(s, cell, value))
  {
    var s' := MainWritten(s, cell, value);
    forall b | 0 <= b < |s.table|
      ensures Reads(s'.table[b], s'.heads[b], s'.ovf, s'.lists[b], s'.buckets[b])
    {
      BucketAt(s, b);
    }
  }

  ghost function Pushed(s: Store, cell: nat, data: Entry): Store
    requires Sound(s) && cell < |s.table| && s.lists[|s.table|] != [] && s.lists[|s.table|][0] == s.ovfFree
  {
    var n, x := |s.table|, s.ovfFree;
    Store(s.table[cell := s.table[cell].(ovfLink := x)],
          s.ovf[x := OverflowCell(s.table[cell].ovfLink, data)],
          s.ovf[x].next,
          s.heads[n := s.ovf[x].next][cell := x],
          Moved(s.lists, n, 0, cell),
          s.owner[x := cell],
          s.buckets[cell := Inserted(s.buckets[cell], data)])
  }

  /** Taking the first free cell into a chain puts the entry second in its bucket. */
  lemma PushedSound(s: Store, cell: nat, data: Entry)
    requires Sound(s) && cell < |s.table| && s.table[cell].ovfLink != HASH_FREE && s.ovfFree != HASH_NULL
    ensures s.lists[|s.table|] != [] && s.lists[|s.table|][0] == s.ovfFree && Sound(Pushed(s, cell, data))
  {
    var n, x := |s.table|, s.ovfFree;
    FreeListAt(s);
    BucketAt(s, cell);
    var s' := Pushed(s, cell, data);
    assert HeadAfter(s.ovf, s.lists[n], 0) == s.ovf[x].next;
    MoveKeepsLinked(s.ovf, s.heads, s.lists, s.owner, n, 0, cell, s'.ovf);
    forall b | 0 <= b < n
      ensures Reads(s'.table[b], s'.heads[b], s'.ovf, s'.lists[b], s'.buckets[b])
    {
      PushedReads(s, cell, data, b);
    }
  }

  lemma PushedReads(s: Store, cell: nat, data: Entry, b: nat)
    requires Sound(s) && cell < |s.table| && s.table[cell].ovfLink != HASH_FREE && b < |s.table|
    requires s.ovfFree != HASH_NULL && s.lists[|s.table|] != [] && s.lists[|s.table|][0] == s.ovfFree
    requires forall j :: 0 <= j < |Pushed(s, cell, data).lists[b]| ==>
      0 <= Pushed(s, cell, data).lists[b][j] < |s.ovf|
    ensures var s' := Pushed(s, cell, data);
      Reads(s'.table[b], s'.heads[b], s'.ovf, s'.lists[b], s'.buckets[b])
  {
    var n, s' := |s.table|, Pushed(s, cell, data);
    BucketAt(s, b);
    forall j | 0 <= j < |s.lists[b]|
      ensures s'.ovf[s.lists[b][j]] == s.ovf[s.lists[b][j]]
    {
      assert s.owner[s.lists[b][j]] == b && s.owner[s.lists[n][0]] == n;
    }
    assert b == cell ==> forall j :: 0 < j < |s'.lists[b]| ==> s'.lists[b][j] == s.lists[b][j - 1];
  }

  ghost function Released(s: Store, cell: nat, k: nat, main: Entry): Store
    requires Sound(s) && cell < |s.table| && k < |s.lists[cell]| && |s.buckets[cell]| == 1 + |s.lists[cell]|
  {
    var n, list := |s.table|, s.lists[cell];
    Store(s.table[cell := TableCell(HeadAfter(s.ovf, list, k), main)],
          Unlinked(s.ovf, list, k)[list[k] := OverflowCell(s.ovfFree, s.ovf[list[k]].data)],
          list[k],
          s.heads[cell := HeadAfter(s.ovf, list, k)][n := list[k]],
          Moved(s.lists, cell, k, n),
          s.owner[list[k] := n],
          s.buckets[cell := [main] + Without(s.buckets[cell][1..], k)])
  }

  lemma ReleasedReads(s: Store, cell: nat, k: nat, main: Entry, b: nat)
    requires Sound(s) && cell < |s.table| && s.table[cell].ovfLink != HASH_FREE && k < |s.lists[cell]|
    requires |s.buckets[cell]| == 1 + |s.lists[cell]| && b < |s.table|
    requires HeadAfter(s.ovf, s.lists[cell], k) != HASH_FREE
    requires forall j :: 0 <= j < |Released(s, cell, k, main).lists[b]| ==>
      0 <= Released(s, cell, k, main).lists[b][j] < |s.ovf|
    ensures var s' := Released(s, cell, k, main);
      Reads(s'.table[b], s'.heads[b], s'.ovf, s'.lists[b], s'.buckets[b])
  {
    var s', list := Released(s, cell, k, main), s.lists[cell];
    BucketAt(s, b);
    assert forall i :: 0 <= i < |s.ovf| ==> s'.ovf[i].data == s.ovf[i].data;
    if b == cell {
      forall j | 0 <= j < |s'.lists[b]|
        ensures s'.buckets[b][j + 1] == s'.ovf[s'.lists[b][j]].data
      {
        var o := if j < k then j else j + 1;
        assert s'.lists[b][j] == list[o] && s.buckets[b][o + 1] == s.ovf[list[o]].data;
      }
    }
  }

  /** Giving the k-th chain cell back deletes its entry from the bucket. */
  lemma ReleasedSound(s: Store, cell: nat, k: nat, main: Entry)
    requires Sound(s) && cell < |s.table| && s.table[cell].ovfLink != HASH_FREE && k < |s.lists[cell]|
    ensures |s.buckets[cell]| == 1 + |s.lists[cell]| && Sound(Released(s, cell, k, main))
  {
    var list := s.lists[cell];
    BucketAt(s, cell);
    var s' := Released(s, cell, k, main);
    MoveKeepsLinked(s.ovf, s.heads, s.lists, s.owner, cell, k, |s.table|, s'.ovf);
    assert s.ovf[list[0]].next == Link(list, 1);
    forall b | 0 <= b < |s.table|
      ensures Reads(s'.table[b], s'.heads[b], s'.ovf, s'.lists[b], s'.buckets[b])
    {
      ReleasedReads(s, cell, k, main, b);
    }
  }

  lemma WithoutTail(bucket: seq<Entry>, k: nat)
    requires k + 1 < |bucket|
    ensures Without(bucket, k + 1) == [bucket[0]] + Without(bucket[1..], k)
  {
  }

  lemma FirstMatchIs(bucket: seq<Entry>, key: nat, k: nat)
    requires k <= |bucket| && (k < |bucket| ==> bucket[k].key == key)
    requires forall j :: 0 <= j < k ==> bucket[j].key != key
    ensures FirstMatch(bucket, key) == k
  {
  }

  class RequestTable {
    const table: array<TableCell>
    const overflow: array<OverflowCell>
    var ovfFree: int
    ghost var heads: seq<int>
    ghost var lists: seq<seq<int>>
    ghost var owner: seq<nat>
    ghost var buckets: seq<seq<Entry>>

    ghost function Snapshot(): Store
      reads this, table, overflow
    {
      Store(table[..], overflow[..], ovfFree, heads, lists, owner, buckets)
    }

    ghost predicate Valid()
      reads this, table, overflow
    {
      Sound(Snapshot())
    }

    ghost function Value(): (c: Contents)
      reads this, table, overflow
      requires Valid()
      ensures |c.buckets| == table.Length
    {
      Contents(buckets, |lists[table.Length]|)
    }

    constructor (tableSize: nat, overflowSize: nat)
      requires tableSize > 0 && overflowSize > 0
      ensures fresh(table) && fresh(overflow)
      ensures table.Length == tableSize && overflow.Length == overflowSize
    {
      table := new TableCell[tableSize];
      overflow := new OverflowCell[overflowSize];
    }

    method Init()
      requires table.Length > 0 && overflow.Length > 0
      modifies this, table, overflow
      ensures Valid() && Value() == Empty(table.Length, overflow.Length)
    {
      for i := 0 to table.Length
        invariant forall b :: 0 <= b < i ==> table[b].ovfLink == HASH_FREE
      {
        table[i] := table[i].(ovfLink := HASH_FREE);
      }
      for i := 0 to overflow.Length - 1
        invariant forall b :: 0 <= b < table.Length ==> table[b].ovfLink == HASH_FREE
        invariant forall j :: 0 <= j < i ==> overflow[j].next == j + 1
      {
        overflow[i] := overflow[i].(next := i + 1);
      }
      overflow[overflow.Length - 1] := overflow[overflow.Length - 1].(next := HASH_NULL);
      ovfFree := 0;
      heads := seq(table.Length, _ => HASH_NULL) + [0];
      lists := seq(table.Length, _ => []) + [seq(overflow.Length, i => i)];
      owner := seq(overflow.Length, _ => table.Length);
      buckets := Empty(table.Length, overflow.Length).buckets;
      InitialSound(Snapshot());
    }

    /** Returns true when there is no space left. */
    method Add(data: Entry) returns (rc: bool)
      requires Valid()
      modifies this, table, overflow
      ensures Valid() && Value() == Apply(old(Value()), Op.Add(data))
      ensures rc <==> old(Value().buckets[data.key % table.Length]) != [] && old(Value().free) == 0
      ensures rc ==> table[..] == old(table[..]) && overflow[..] == old(overflow[..]) && ovfFree == old(ovfFree)
    {
      rc := false;
      var cell := data.key % table.Length;
      ghost var s := Snapshot();
      BucketAt(s, cell);
      FreeListAt(s);
      if table[cell].ovfLink == HASH_FREE {
        MainWrittenSound(s, cell, TableCell(HASH_NULL, data));
        table[cell] := table[cell].(ovfLink := HASH_NULL);
        table[cell] := table[cell].(data := data);
        buckets := buckets[cell := [data]];
        assert Snapshot() == MainWritten(s, cell, TableCell(HASH_NULL, data));
      } else {
        var free := ovfFree;
        if free == HASH_NULL {
          rc := true;
        } else {
          PushedSound(s, cell, data);
          ovfFree := overflow[free].next;
          overflow[free] := overflow[free].(next := table[cell].ovfLink);
          table[cell] := table[cell].(ovfLink := free);
          overflow[free] := overflow[free].(data := data);
          heads := heads[table.Length := ovfFree][cell := free];
          lists, owner := Moved(lists, table.Length, 0, cell), owner[free := cell];
          buckets := buckets[cell := Inserted(buckets[cell], data)];
          assert table[..] == Pushed(s, cell, data).table && overflow[..] == Pushed(s, cell, data).ovf;
        }
      }
    }

    /** None stands for the null pointer. */
    method Search(key: nat) returns (r: Option<Entry>)
      requires Valid()
      ensures r == Find(Bucket(Value(), key), key)
    {
      var cell := key % table.Length;
      ghost var bucket, list := buckets[cell], lists[cell];
      BucketAt(Snapshot(), cell);
      if table[cell].ovfLink == HASH_FREE {
        return None;
      }
      if table[cell].data.key == key {
        return Some(table[cell].data);
      }
      var ovf := table[cell].ovfLink;
      ghost var k := 0;
      while ovf != HASH_NULL
        invariant k <= |list| && ovf == Link(list, k)
        invariant forall j :: 0 <= j <= k ==> bucket[j].key != key
        decreases |list| - k
      {
        assert overflow[..][list[k]] == overflow[ovf];
        if overflow[ovf].data.key == key {
          FirstMatchIs(bucket, key, k + 1);
          return Some(overflow[ovf].data);
        }
        ovf := overflow[ovf].next;
        k := k + 1;
      }
      FirstMatchIs(bucket, key, |bucket|);
      return None;
    }

    /** Returns true when the key is not in the table. */
    method Remove(key: nat) returns (rc: bool)
      requires Valid()
      modifies this, table, overflow
      ensures Valid() && Value() == Apply(old(Value()), Op.Remove(key))
      ensures var bucket := old(Value().buckets[key % table.Length]);
        rc <==> forall j :: 0 <= j < |bucket| ==> bucket[j].key != key
      ensures rc ==> table[..] == old(table[..]) && overflow[..] == old(overflow[..]) && ovfFree == old(ovfFree)
    {
      var cell := key % table.Length;
      BucketAt(Snapshot(), cell);
      if table[cell].ovfLink == HASH_FREE {
        rc := true;
      } else if table[cell].data.key == key {
        FirstMatchIs(buckets[cell], key, 0);
        RemoveMain(cell);
        rc := false;
      } else {
        rc := RemoveInChain(cell, key);
      }
    }

    /** The branch of `hash_remove` for a matching main entry. */
    method RemoveMain(cell: nat)
      requires Valid() && cell < table.Length && table[cell].ovfLink != HASH_FREE
      modifies this, table, overflow
      ensures Valid() && |old(buckets[cell])| > 0
      ensures Value() == Contents(old(buckets)[cell := Without(old(buckets[cell]), 0)],
                                  old(Value().free) + if |old(buckets[cell])| == 1 then 0 else 1)
    {
      ghost var s := Snapshot();
      ghost var bucket, list := buckets[cell], lists[cell];
      BucketAt(s, cell);
      var ovf := table[cell].ovfLink;
      if ovf != HASH_NULL {
        assert s.ovf[list[0]] == overflow[ovf];
        table[cell] := table[cell].(data := overflow[ovf].data);
        table[cell] := table[cell].(ovfLink := overflow[ovf].next);
        assert table[..] == s.table[cell := TableCell(HeadAfter(s.ovf, list, 0), s.ovf[ovf].data)];
        Free(ovf, s, cell, 0, s.ovf[ovf].data);
        assert Without(bucket, 0) == [bucket[1]] + Without(bucket[1..], 0);
      } else {
        assert |list| == 0 && |bucket| == 1 && Without(bucket, 0) == [];
        MainWrittenSound(s, cell, table[cell].(ovfLink := HASH_FREE));
        table[cell] := table[cell].(ovfLink := HASH_FREE);
        buckets := buckets[cell := []];
        assert Snapshot() == MainWritten(s, cell, s.table[cell].(ovfLink := HASH_FREE));
      }
    }

    /** The last branch of `hash_remove`: the bucket is in use and its main entry has another key. */
    method RemoveInChain(cell: nat, key: nat) returns (rc: bool)
      requires Valid() && cell < table.Length && table[cell].ovfLink != HASH_FREE && table[cell].data.key != key
      modifies this, table, overflow
      ensures Valid()
      ensures var bucket := old(buckets[cell]);
        var k := FirstMatch(bucket, key);
        && (rc <==> k == |bucket|)
        && (!rc ==> Value() == Contents(old(buckets)[cell := Without(bucket, k)], old(Value().free) + 1))
        && (rc ==> Snapshot() == old(Snapshot()))
      ensures |old(buckets[cell])| > 0
    {
      ghost var s := Snapshot();
      ghost var bucket, list := buckets[cell], lists[cell];
      BucketAt(s, cell);
      var ovf := table[cell].ovfLink;
      var prev := HASH_NULL;
      ghost var k := 0;
      while ovf != HASH_NULL && overflow[ovf].data.key != key
        invariant k <= |list| && ovf == Link(list, k)
        invariant prev == if k == 0 then HASH_NULL else list[k - 1]
        invariant forall j :: 0 <= j <= k ==> bucket[j].key != key
        decreases |list| - k
      {
        assert s.ovf[list[k]] == overflow[ovf];
        prev := ovf;
        ovf := overflow[ovf].next;
        k := k + 1;
      }
      if ovf == HASH_NULL {
        FirstMatchIs(bucket, key, k + 1);
        rc := true;
      } else {
        assert s.ovf[list[k]] == overflow[ovf];
        FirstMatchIs(bucket, key, k + 1);
        rc := false;
        Unlink(cell, prev, ovf, k);
        WithoutTail(bucket, k);
      }
    }

    /** Takes the k-th cell out of a chain, at its head or inside, and frees it. */
    method Unlink(cell: nat, prev: int, ovf: int, ghost k: nat)
      requires Valid() && cell < table.Length && table[cell].ovfLink != HASH_FREE
      requires k < |lists[cell]| && ovf == lists[cell][k] && |buckets[cell]| == 1 + |lists[cell]|
      requires prev == if k == 0 then HASH_NULL else lists[cell][k - 1]
      modifies this, table, overflow
      ensures Valid() && Snapshot() == Released(old(Snapshot()), cell, k, old(buckets[cell][0]))
    {
      ghost var s := Snapshot();
      ghost var bucket, list := buckets[cell], lists[cell];
      BucketAt(s, cell);
      ghost var value := TableCell(HeadAfter(s.ovf, list, k), bucket[0]);
      assert s.ovf[list[k]] == overflow[ovf];
      if prev == HASH_NULL {
        table[cell] := table[cell].(ovfLink := overflow[ovf].next);
        assert table[cell] == value;
      } else {
        overflow[prev] := overflow[prev].(next := overflow[ovf].next);
        assert table[cell] == value;
      }
      assert table[..] == s.table[cell := value];
      assert overflow[..] == Unlinked(s.ovf, list, k);
      Free(ovf, s, cell, k, bucket[0]);
    }

    /** Puts a cell that was just unlinked from a chain in front of the free list. */
    method Free(ovf: int, ghost s: Store, ghost cell: nat, ghost k: nat, ghost main: Entry)
      requires Sound(s) && cell < |s.table| && s.table[cell].ovfLink != HASH_FREE
      requires k < |s.lists[cell]| && ovf == s.lists[cell][k]
      requires table[..] == s.table[cell := TableCell(HeadAfter(s.ovf, s.lists[cell], k), main)]
      requires overflow[..] == Unlinked(s.ovf, s.lists[cell], k) && ovfFree == s.ovfFree
      requires heads == s.heads && lists == s.lists && owner == s.owner && buckets == s.buckets
      modifies this, overflow
      ensures |s.buckets[cell]| == 1 + |s.lists[cell]| && Snapshot() == Released(s, cell, k, main) && Valid()
    {
      ReleasedSound(s, cell, k, main);
      assert k > 0 ==> s.lists[cell][k - 1] != ovf by { BucketAt(s, cell); }
      overflow[ovf] := overflow[ovf].(next := ovfFree);
      ovfFree := ovf;
      heads := Released(s, cell, k, main).heads;
      lists, owner := Moved(lists, cell, k, table.Length), owner[ovf := table.Length];
      buckets := Released(s, cell, k, main).buckets;
      assert overflow[..] == Released(s, cell, k, main).ovf;
    }
  }
}
