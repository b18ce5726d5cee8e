/** Clock alignment, timesync.c. Times are 64-bit unsigned, shifts 64-bit signed. */
module TimeSync {
  import opened Common

  const U64_RANGE: int := 0x1_0000_0000_0000_0000
  const I64_HALF: int := 0x8000_0000_0000_0000

  /** Conversion to UINT64. */
  function U64(x: int): (r: int)
    ensures 0 <= r < U64_RANGE
  {
    x % U64_RANGE
  }

  /** Conversion to INT64. */
  function I64(x: int): (r: int)
    ensures -I64_HALF <= r < I64_HALF
  {
    (x + I64_HALF) % U64_RANGE - I64_HALF
  }

  type Time = t: int | 0 <= t < U64_RANGE

  datatype SyncInfo = SyncInfo(init: bool, initTime: Time, syncTime: Time, nodeId: nat)

  datatype Strategy = TsNode | TsTask | TsDefault | TsNoSync

  type Infos = seq<seq<SyncInfo>>
  type Shifts = seq<seq<int>>

  lemma Multiple(x: int, k: int)
    ensures U64(x + k * U64_RANGE) == U64(x)
  {
    var q := x / U64_RANGE;
    assert x + k * U64_RANGE == (q + k) * U64_RANGE + U64(x);
    QuotientUnique(x + k * U64_RANGE, q + k, U64(x), U64_RANGE);
  }

  /** Arithmetic is modulo 2^64: adding to a wrapped value comes out as adding to the value. */
  lemma WrapAdd(x: int, y: int)
    ensures U64(U64(x) + y) == U64(x + y) && U64(I64(x) + y) == U64(x + y)
  {
    var p, q := x / U64_RANGE, (x + I64_HALF) / U64_RANGE;
    assert U64(x) == x - p * U64_RANGE && I64(x) == x - q * U64_RANGE;
    Multiple(x + y, -p);
    Multiple(x + y, -q);
  }

  // ---------------------------------------------------------------- synchronising one time

  function Sync(shift: int, time: int): int { U64(I64(time) + shift) }

  function Desync(shift: int, time: int): int { U64(I64(time) - shift) }

  lemma ShiftBack(shift: int, time: int)
    requires 0 <= time < U64_RANGE
    ensures U64(I64(U64(I64(time) + shift)) - shift) == time
  {
    WrapAdd(time, shift);
    WrapAdd(U64(time + shift), -shift);
    WrapAdd(time + shift, -shift);
    InRange(time);
  }

  /** Desynchronising undoes synchronising, for every shift and every 64-bit time. */
  lemma DesyncUndoes(shift: int, time: int)
    requires 0 <= time < U64_RANGE
    ensures Desync(shift, Sync(shift, time)) == time && Sync(shift, Desync(shift, time)) == time
  {
    ShiftBack(shift, time);
    ShiftBack(-shift, time);
  }

  lemma I64Small(x: int)
    requires -I64_HALF <= x < I64_HALF
    ensures I64(x) == x
  {
  }

  lemma InRange(x: int)
    requires 0 <= x < U64_RANGE
    ensures U64(x) == x
  {
  }

  // ---------------------------------------------------------------- what the latencies must be

  predicate At<T>(t: seq<seq<T>>, i: int, j: int) { 0 <= i < |t| && 0 <= j < |t[i]| }

  ghost predicate SameShape<T, U>(t: seq<seq<T>>, u: seq<seq<U>>) {
    |t| == |u| && forall i :: 0 <= i < |t| ==> |t[i]| == |u[i]|
  }

  ghost predicate AllInit(info: Infos) {
    forall i, j :: At(info, i, j) ==> info[i][j].init
  }

  /** m is the largest sync time, 0 without tasks. */
  ghost predicate MaxSync(info: Infos, m: int) {
    && (forall i, j :: At(info, i, j) ==> info[i][j].syncTime <= m)
    && (m == 0 || exists i, j :: At(info, i, j) && info[i][j].syncTime == m)
  }

  /** m is the largest sync time on one node, 0 without tasks there. */
  ghost predicate NodeMax(info: Infos, node: nat, m: int) {
    && (forall i, j :: At(info, i, j) && info[i][j].nodeId == node ==> info[i][j].syncTime <= m)
    && (m == 0 || exists i, j :: At(info, i, j) && info[i][j].nodeId == node && info[i][j].syncTime == m)
  }

  function Start(info: Infos, lat: Shifts, i: int, j: int): int
    requires At(info, i, j) && At(lat, i, j)
  {
    U64(info[i][j].initTime + lat[i][j])
  }

  ghost predicate MinStart(info: Infos, lat: Shifts, m: int)
    requires SameShape(info, lat)
  {
    && (forall i, j :: At(info, i, j) ==> m <= Start(info, lat, i, j))
    && (exists i, j :: At(info, i, j) && m == Start(info, lat, i, j))
  }

  ghost predicate NodeMaxima(info: Infos, maxima: seq<int>, m: int) {
    && (forall k :: 0 <= k < |maxima| ==> NodeMax(info, k, maxima[k]) && maxima[k] <= m)
    && (m == 0 || m in maxima)
    && (forall i, j :: At(info, i, j) ==> info[i][j].nodeId < |maxima|)
  }

  ghost predicate TaskShifts(info: Infos, lat: Shifts, m: int)
    requires SameShape(info, lat)
  {
    MaxSync(info, m) && forall i, j :: At(info, i, j) ==> lat[i][j] == I64(m - info[i][j].syncTime)
  }

  ghost predicate NodeShifts(info: Infos, lat: Shifts, maxima: seq<int>, m: int)
    requires SameShape(info, lat)
  {
    NodeMaxima(info, maxima, m) && forall i, j :: At(info, i, j) ==> lat[i][j] == I64(m - maxima[info[i][j].nodeId])
  }

  /** The shifts of the chosen strategy, before tasks are moved to start at 0. */
  ghost predicate Relative(strategy: Strategy, info: Infos, nodes: nat, before: Shifts, lat: Shifts) {
    SameShape(info, lat) &&
    match strategy
    case TsTask => exists m :: TaskShifts(info, lat, m)
    case TsNode => exists maxima, m :: |maxima| == nodes && NodeShifts(info, lat, maxima, m)
    case TsDefault => exists maxima, m :: |maxima| == nodes && NodeShifts(info, lat, maxima, m)
    case TsNoSync => lat == before
  }

  /** All tasks moved left by m. */
  ghost predicate MovedLeft(lat: Shifts, after: Shifts, m: int) {
    SameShape(lat, after) && forall i, j :: At(lat, i, j) ==> after[i][j] == I64(lat[i][j] - m)
  }

  /** One successful calculation: relative shifts `lat`, then everything moved left by m. */
  ghost predicate Calculated(strategy: Strategy, info: Infos, nodes: nat, before: Shifts, lat: Shifts, m: int,
      after: Shifts) {
    Relative(strategy, info, nodes, before, lat) && MinStart(info, lat, m) && MovedLeft(lat, after, m)
  }

  lemma ShiftedTime(time: int, l: int, m: int)
    requires 0 <= m <= U64(time + l)
    ensures Sync(I64(l - m), time) == U64(time + l) - m == U64(time + I64(l - m))
  {
    WrapAdd(time, I64(l - m));
    WrapAdd(l - m, time);
    WrapAdd(time + l, -m);
    InRange(U64(time + l) - m);
  }

  /** A shifted start comes out exactly m earlier, without wrapping. */
  lemma ShiftedStart(strategy: Strategy, info: Infos, nodes: nat, before: Shifts, lat: Shifts, m: int,
      after: Shifts, i: int, j: int)
    requires Calculated(strategy, info, nodes, before, lat, m, after) && At(info, i, j)
    ensures At(lat, i, j) && At(after, i, j)
    ensures Sync(after[i][j], info[i][j].initTime) == Start(info, lat, i, j) - m == Start(info, after, i, j)
  {
    assert At(lat, i, j);
    ShiftedTime(info[i][j].initTime, lat[i][j], m);
  }

  /** After a successful calculation the earliest task starts at exactly 0. */
  lemma EarliestStartIsZero(strategy: Strategy, info: Infos, nodes: nat, before: Shifts, lat: Shifts, m: int,
      after: Shifts)
    requires Calculated(strategy, info, nodes, before, lat, m, after)
    ensures SameShape(info, after) && MinStart(info, after, 0)
    ensures exists i, j :: At(info, i, j) && Sync(after[i][j], info[i][j].initTime) == 0
  {
    forall i, j | At(info, i, j)
      ensures Start(info, after, i, j) == Start(info, lat, i, j) - m
    {
      ShiftedStart(strategy, info, nodes, before, lat, m, after, i, j);
    }
    var i, j :| At(info, i, j) && m == Start(info, lat, i, j);
    ShiftedStart(strategy, info, nodes, before, lat, m, after, i, j);
    assert Start(info, after, i, j) == 0;
  }

  lemma SyncPoint(time: int, lat: int, after: int, top: int, m: int)
    requires after == I64(lat - m) && lat == I64(top - time)
    ensures Sync(after, time) == U64(top - m)
  {
    WrapAdd(time, after);
    WrapAdd(lat - m, time);
    WrapAdd(top - time, time - m);
  }

  /** Per task, all synchronisation points come to the same moment. */
  lemma TaskSyncPointsCoincide(info: Infos, nodes: nat, before: Shifts, lat: Shifts, m: int, after: Shifts)
    returns (t: int)
    requires Calculated(TsTask, info, nodes, before, lat, m, after)
    ensures forall i, j :: At(info, i, j) ==> Sync(after[i][j], info[i][j].syncTime) == t
  {
    var top :| TaskShifts(info, lat, top);
    t := U64(top - m);
    forall i, j | At(info, i, j)
      ensures Sync(after[i][j], info[i][j].syncTime) == t
    {
      SyncPoint(info[i][j].syncTime, lat[i][j], after[i][j], top, m);
    }
  }

  /** Per node, tasks of one node get the same shift. */
  lemma SameNodeSameShift(strategy: Strategy, info: Infos, nodes: nat, before: Shifts, lat: Shifts, m: int,
                          after: Shifts, i: int, j: int, k: int, l: int)
    requires strategy in {TsNode, TsDefault} && Calculated(strategy, info, nodes, before, lat, m, after)
    requires At(info, i, j) && At(info, k, l) && info[i][j].nodeId == info[k][l].nodeId
    ensures At(after, i, j) && At(after, k, l) && after[i][j] == after[k][l]
  {
    var maxima, top :| |maxima| == nodes && NodeShifts(info, lat, maxima, top);
    NodeShift(info, lat, maxima, top, m, after, i, j);
    NodeShift(info, lat, maxima, top, m, after, k, l);
  }

  lemma NodeShift(info: Infos, lat: Shifts, maxima: seq<int>, top: int, m: int, after: Shifts, i: int, j: int)
    requires SameShape(info, lat) && NodeShifts(info, lat, maxima, top) && MovedLeft(lat, after, m) && At(info, i, j)
    ensures info[i][j].nodeId < |maxima| && At(after, i, j)
    ensures after[i][j] == I64(I64(top - maxima[info[i][j].nodeId]) - m)
  {
    assert At(lat, i, j);
  }

  /** Per node, the last synchronisation points of all nodes come to the same moment. */
  lemma NodeSyncPointsCoincide(strategy: Strategy, info: Infos, nodes: nat, before: Shifts, lat: Shifts, m: int,
      after: Shifts)
    returns (t: int)
    requires strategy in {TsNode, TsDefault} && Calculated(strategy, info, nodes, before, lat, m, after)
    ensures forall i, j :: At(info, i, j) && NodeMax(info, info[i][j].nodeId, info[i][j].syncTime) ==>
      At(after, i, j) && Sync(after[i][j], info[i][j].syncTime) == t
  {
    var maxima, top :| |maxima| == nodes && NodeShifts(info, lat, maxima, top);
    t := U64(top - m);
    forall i, j | At(info, i, j) && NodeMax(info, info[i][j].nodeId, info[i][j].syncTime)
      ensures At(after, i, j) && Sync(after[i][j], info[i][j].syncTime) == t
    {
      NodeSyncPoint(info, lat, maxima, top, m, after, i, j);
    }
  }

  lemma NodeSyncPoint(info: Infos, lat: Shifts, maxima: seq<int>, top: int, m: int, after: Shifts, i: int, j: int)
    requires SameShape(info, lat) && NodeShifts(info, lat, maxima, top) && MovedLeft(lat, after, m) && At(info, i, j)
    requires NodeMax(info, info[i][j].nodeId, info[i][j].syncTime)
    ensures Sync(after[i][j], info[i][j].syncTime) == U64(top - m)
  {
    NodeMaxUnique(info, maxima[info[i][j].nodeId], i, j);
    assert At(lat, i, j);
    SyncPoint(info[i][j].syncTime, lat[i][j], after[i][j], top, m);
  }

  lemma NodeMaxUnique(info: Infos, m: int, i: int, j: int)
    requires At(info, i, j) && NodeMax(info, info[i][j].nodeId, m) &&
        NodeMax(info, info[i][j].nodeId, info[i][j].syncTime)
    ensures m == info[i][j].syncTime
  {
  }

  // ---------------------------------------------------------------- calculating again

  lemma MinStartUnique(info: Infos, lat: Shifts, a: int, b: int)
    requires SameShape(info, lat) && MinStart(info, lat, a) && MinStart(info, lat, b)
    ensures a == b
  {
  }

  lemma SameTable(a: Shifts, b: Shifts)
    requires SameShape(a, b) && forall i, j :: At(a, i, j) ==> a[i][j] == b[i][j]
    ensures a == b
  {
    forall i | 0 <= i < |a|
      ensures a[i] == b[i]
    {
      assert forall j :: 0 <= j < |a[i]| ==> At(a, i, j);
    }
  }

  /** The relative shifts are determined by the strategy and the times. */
  lemma RelativeUnique(strategy: Strategy, info: Infos, nodes: nat, before: Shifts, before': Shifts, lat: Shifts,
      lat': Shifts)
    requires strategy != TsNoSync
    requires Relative(strategy, info, nodes, before, lat) && Relative(strategy, info, nodes, before', lat')
    ensures lat == lat'
  {
    if strategy == TsTask {
      var a :| TaskShifts(info, lat, a);
      var b :| TaskShifts(info, lat', b);
      TaskShiftsUnique(info, lat, lat', a, b);
    } else {
      var a, m :| |a| == nodes && NodeShifts(info, lat, a, m);
      var b, k :| |b| == nodes && NodeShifts(info, lat', b, k);
      NodeShiftsUnique(info, lat, lat', a, m, b, k);
    }
  }

  lemma TaskShiftsUnique(info: Infos, lat: Shifts, lat': Shifts, a: int, b: int)
    requires SameShape(info, lat) && SameShape(info, lat') && TaskShifts(info, lat, a) && TaskShifts(info, lat', b)
    ensures lat == lat'
  {
    MaxSyncUnique(info, a, b);
    SameTable(lat, lat');
  }

  lemma NodeShiftsUnique(info: Infos, lat: Shifts, lat': Shifts, a: seq<int>, m: int, b: seq<int>, k: int)
    requires SameShape(info, lat) && SameShape(info, lat') && |a| == |b|
    requires NodeShifts(info, lat, a, m) && NodeShifts(info, lat', b, k)
    ensures lat == lat'
  {
    NodeMaximaUnique(info, a, m, b, k);
    forall i, j | At(lat, i, j)
      ensures lat[i][j] == lat'[i][j]
    {
      assert At(info, i, j);
    }
    SameTable(lat, lat');
  }

  lemma MaxSyncUnique(info: Infos, a: int, b: int)
    requires MaxSync(info, a) && MaxSync(info, b)
    ensures a == b
  {
  }

  lemma NodeMaxUniqueAt(info: Infos, node: nat, a: int, b: int)
    requires NodeMax(info, node, a) && NodeMax(info, node, b)
    ensures a == b
  {
  }

  lemma NodeMaximaUnique(info: Infos, a: seq<int>, m: int, b: seq<int>, k: int)
    requires NodeMaxima(info, a, m) && NodeMaxima(info, b, k) && |a| == |b|
    ensures a == b && m == k
  {
    forall x | 0 <= x < |a|
      ensures a[x] == b[x] && a[x] >= 0
    {
      NodeMaxUniqueAt(info, x, a[x], b[x]);
    }
  }

  /** Calculating again with the same strategy changes nothing. */
  lemma CalculatingIsIdempotent(strategy: Strategy, info: Infos, nodes: nat, before: Shifts, lat: Shifts, m: int,
                                after: Shifts, lat': Shifts, m': int, after': Shifts)
    requires strategy != TsNoSync
    requires Calculated(strategy, info, nodes, before, lat, m, after)
    requires Calculated(strategy, info, nodes, after, lat', m', after')
    ensures after' == after
  {
    RelativeUnique(strategy, info, nodes, before, after, lat, lat');
    MinStartUnique(info, lat, m, m');
    SameTable(after, after');
  }

  /** After any successful calculation, one without synchronisation keeps all shifts. */
  lemma NoSyncKeepsShifts(strategy: Strategy, info: Infos, nodes: nat, before: Shifts, lat: Shifts, m: int,
                          after: Shifts, lat': Shifts, m': int, after': Shifts)
    requires Calculated(strategy, info, nodes, before, lat, m, after)
    requires Calculated(TsNoSync, info, nodes, after, lat', m', after')
    ensures after' == after
  {
    EarliestStartIsZero(strategy, info, nodes, before, lat, m, after);
    MinStartUnique(info, after, m', 0);
    forall i, j | At(after, i, j)
      ensures after'[i][j] == after[i][j]
    {
      assert At(lat, i, j);
      I64Small(after[i][j]);
    }
    SameTable(after, after');
  }

  // ---------------------------------------------------------------- times that do not wrap

  const SMALL: int := 0x4000_0000_0000_0000

  ghost predicate SmallTimes(info: Infos) {
    forall i, j :: At(info, i, j) ==> info[i][j].initTime < SMALL && info[i][j].syncTime < SMALL
  }

  lemma MaxSmall(info: Infos, m: int)
    requires SmallTimes(info) && MaxSync(info, m)
    ensures m < SMALL
  {
  }

  lemma MaximaSmall(info: Infos, maxima: seq<int>, m: int)
    requires SmallTimes(info) && NodeMaxima(info, maxima, m)
    ensures m < SMALL && forall k :: 0 <= k < |maxima| ==> 0 <= maxima[k] < SMALL
  {
    forall k | 0 <= k < |maxima|
      ensures 0 <= maxima[k] < SMALL
    {
      assert NodeMax(info, k, maxima[k]);
    }
  }

  lemma SmallDifference(a: int, b: int)
    requires 0 <= b <= a < SMALL
    ensures 0 <= I64(a - b) < SMALL
  {
    I64Small(a - b);
  }

  lemma TaskShiftIsSmall(info: Infos, lat: Shifts, m: int, i: int, j: int)
    requires SameShape(info, lat) && SmallTimes(info) && TaskShifts(info, lat, m) && At(info, i, j)
    ensures At(lat, i, j) && 0 <= lat[i][j] < SMALL
  {
    MaxSmall(info, m);
    SmallDifference(m, info[i][j].syncTime);
  }

  lemma NodeShiftIsSmall(info: Infos, lat: Shifts, maxima: seq<int>, m: int, i: int, j: int)
    requires SameShape(info, lat) && SmallTimes(info) && NodeShifts(info, lat, maxima, m) && At(info, i, j)
    ensures At(lat, i, j) && 0 <= lat[i][j] < SMALL
  {
    MaximaSmall(info, maxima, m);
    SmallDifference(m, maxima[info[i][j].nodeId]);
  }

  /** The relative shifts of small times are small and not negative. */
  lemma RelativeIsSmall(strategy: Strategy, info: Infos, nodes: nat, before: Shifts, lat: Shifts, i: int, j: int)
    requires strategy != TsNoSync && SmallTimes(info) && Relative(strategy, info, nodes, before, lat) && At(info, i, j)
    ensures At(lat, i, j) && 0 <= lat[i][j] < SMALL
  {
    if strategy == TsTask {
      var m :| TaskShifts(info, lat, m);
      TaskShiftIsSmall(info, lat, m, i, j);
    } else {
      var maxima, m :| |maxima| == nodes && NodeShifts(info, lat, maxima, m);
      NodeShiftIsSmall(info, lat, maxima, m, i, j);
    }
  }

  lemma SmallSync(time: int, init: int, l: int, m: int)
    requires 0 <= init <= time < SMALL && 0 <= l < SMALL && 0 <= m <= U64(init + l)
    ensures Sync(I64(l - m), time) == time + I64(l - m) == time + l - m
  {
    InRange(init + l);
    I64Small(l - m);
    I64Small(time);
    InRange(time + l - m);
  }

  /** With times below 2^62, synchronising a time from the start of its task on is plain addition:
      nothing wraps, so order and distances within a task are kept. */
  lemma SyncIsAddition(strategy: Strategy, info: Infos, nodes: nat, before: Shifts, lat: Shifts, m: int, after: Shifts,
                       i: int, j: int, time: int)
    requires strategy != TsNoSync && SmallTimes(info) && Calculated(strategy, info, nodes, before, lat, m, after)
    requires At(info, i, j) && info[i][j].initTime <= time < SMALL
    ensures At(after, i, j) && Sync(after[i][j], time) == time + after[i][j]
  {
    RelativeIsSmall(strategy, info, nodes, before, lat, i, j);
    assert m >= 0;
    SmallSync(time, info[i][j].initTime, lat[i][j], m);
  }

  // ---------------------------------------------------------------- the module's state

  /** (a, b) comes before (i, j) in the order of the loops. */
  predicate Seen(a: int, b: int, i: int, j: int) { a < i || (a == i && b < j) }

  ghost predicate NodeMaxSeen(info: Infos, node: nat, m: int, i: int, j: int) {
    && (forall a, b :: At(info, a, b) && Seen(a, b, i, j) && info[a][b].nodeId == node ==> info[a][b].syncTime <= m)
    && (m == 0 || exists a, b :: At(info, a, b) && info[a][b].nodeId == node && info[a][b].syncTime == m)
  }

  lemma NodeMaxStep(info: Infos, node: nat, m: int, i: int, j: int)
    requires At(info, i, j) && NodeMaxSeen(info, node, m, i, j)
    ensures NodeMaxSeen(info, node, if info[i][j].nodeId == node then Max(m, info[i][j].syncTime) else m, i, j + 1)
  {
  }

  lemma NodeMaxRow(info: Infos, node: nat, m: int, i: int)
    requires 0 <= i < |info| && NodeMaxSeen(info, node, m, i, |info[i]|)
    ensures NodeMaxSeen(info, node, m, i + 1, 0)
  {
  }

  class TimeSync {
    var latencyTable: Shifts
    var syncInfo: Infos
    var nodeList: seq<string>
    ghost var names: seq<seq<string>>   // the node each task was set up with

    /** Node identifiers intern node names: in range, without duplicates, and naming their task's node. */
    ghost predicate Valid()
      reads this
    {
      && SameShape(syncInfo, latencyTable) && SameShape(syncInfo, names) && NoDup(nodeList)
      && forall i, j :: At(syncInfo, i, j) && syncInfo[i][j].init ==>
           syncInfo[i][j].nodeId < |nodeList| && nodeList[syncInfo[i][j].nodeId] == names[i][j]
    }

    constructor (numTasks: seq<nat>)
      requires |numTasks| > 0
      ensures Valid() && nodeList == [] && |syncInfo| == |numTasks|
      ensures forall i :: 0 <= i < |numTasks| ==> |syncInfo[i]| == numTasks[i]
      ensures forall i, j :: At(syncInfo, i, j) ==>
          syncInfo[i][j] == SyncInfo(false, 0, 0, 0) && latencyTable[i][j] == 0
    {
      latencyTable := seq(|numTasks|, i requires 0 <= i < |numTasks| => seq(numTasks[i], _ => 0));
      syncInfo := seq(|numTasks|, i requires 0 <= i < |numTasks| => seq(numTasks[i], _ => SyncInfo(false, 0, 0, 0)));
      nodeList := [];
      names := seq(|numTasks|, i requires 0 <= i < |numTasks| => seq(numTasks[i], _ => ""));
    }

    method GetNodeId(node: string) returns (id: nat)
      requires NoDup(nodeList)
      modifies this`nodeList
      ensures NoDup(nodeList) && old(nodeList) <= nodeList && id < |nodeList| && nodeList[id] == node
      ensures nodeList == if node in old(nodeList) then old(nodeList) else old(nodeList) + [node]
    {
      for i := 0 to |nodeList|
        invariant nodeList == old(nodeList) && node !in nodeList[..i]
      {
        if node == nodeList[i] {
          return i;
        }
      }
      nodeList := nodeList + [node];
      return |nodeList| - 1;
    }

    method SetInitialTime(app: nat, task: nat, initTime: Time, syncTime: Time, node: string)
      requires Valid() && At(syncInfo, app, task)
      modifies this
      ensures Valid() && latencyTable == old(latencyTable)
      ensures nodeList == if node in old(nodeList) then old(nodeList) else old(nodeList) + [node]
      ensures names == old(names)[app := old(names)[app][task := node]]
      ensures At(syncInfo, app, task) && syncInfo == old(syncInfo)[app := old(syncInfo)[app][task :=
        SyncInfo(true, initTime, syncTime, syncInfo[app][task].nodeId)]]
    {
      var info := syncInfo[app][task].(init := true);
      info := info.(initTime := initTime);
      info := info.(syncTime := syncTime);
      var id := GetNodeId(node);
      info := info.(nodeId := id);
      syncInfo := syncInfo[app := syncInfo[app][task := info]];
      names := names[app := names[app][task := node]];
    }

    /** Returns false, and changes nothing, unless all tasks are set up. The source reads task 0 of
        application 0, so that one must exist. */
    method CalculateLatencies(strategy: Strategy) returns (ok: bool, ghost lat: Shifts, ghost m: int)
      requires Valid() && At(syncInfo, 0, 0)
      modifies this`latencyTable
      ensures Valid() && (ok <==> AllInit(syncInfo))
      ensures !ok ==> latencyTable == old(latencyTable)
      ensures ok ==> Calculated(strategy, syncInfo, |nodeList|, old(latencyTable), lat, m, latencyTable)
    {
      lat, m := latencyTable, 0;
      for i := 0 to |syncInfo|
        invariant forall a, b :: At(syncInfo, a, b) && a < i ==> syncInfo[a][b].init
      {
        for j := 0 to |syncInfo[i]|
          invariant forall a, b :: At(syncInfo, a, b) && Seen(a, b, i, j) ==> syncInfo[a][b].init
        {
          if !syncInfo[i][j].init {
            assert At(syncInfo, i, j);
            return false, lat, m;
          }
        }
      }
      ok := true;
      match strategy {
        case TsTask => AlignTasks();
        case TsNode => AlignNodes();
        case TsDefault => AlignNodes();
        case TsNoSync =>
      }
      lat := latencyTable;
      m := MoveToZero();
    }

    /** Tasks run on the same node exactly if they have the same identifier. */
    lemma SameNodeSameId(i: int, j: int, k: int, l: int)
      requires Valid() && At(syncInfo, i, j) && At(syncInfo, k, l) && syncInfo[i][j].init && syncInfo[k][l].init
      ensures At(names, i, j) && At(names, k, l)
      ensures names[i][j] == names[k][l] <==> syncInfo[i][j].nodeId == syncInfo[k][l].nodeId
    {
    }

    /** Strategy TS_TASK. */
    method AlignTasks()
      requires Valid()
      modifies this`latencyTable
      ensures SameShape(syncInfo, latencyTable) && exists top :: TaskShifts(syncInfo, latencyTable, top)
    {
      var maxSyncTime := 0;
      ghost var wi, wj := 0, 0;
      for i := 0 to |syncInfo|
        invariant forall a, b :: At(syncInfo, a, b) && a < i ==> syncInfo[a][b].syncTime <= maxSyncTime
        invariant maxSyncTime == 0 || (At(syncInfo, wi, wj) && syncInfo[wi][wj].syncTime == maxSyncTime)
      {
        for j := 0 to |syncInfo[i]|
          invariant forall a, b :: At(syncInfo, a, b) && Seen(a, b, i, j) ==> syncInfo[a][b].syncTime <= maxSyncTime
          invariant maxSyncTime == 0 || (At(syncInfo, wi, wj) && syncInfo[wi][wj].syncTime == maxSyncTime)
        {
          if syncInfo[i][j].syncTime > maxSyncTime {
            wi, wj := i, j;
          }
          maxSyncTime := Max(maxSyncTime, syncInfo[i][j].syncTime);
        }
      }
      for i := 0 to |syncInfo|
        invariant SameShape(syncInfo, latencyTable)
        invariant forall a, b :: At(syncInfo, a, b) && a < i ==>
            latencyTable[a][b] == I64(maxSyncTime - syncInfo[a][b].syncTime)
      {
        for j := 0 to |syncInfo[i]|
          invariant SameShape(syncInfo, latencyTable)
          invariant forall a, b :: At(syncInfo, a, b) && Seen(a, b, i, j) ==>
            latencyTable[a][b] == I64(maxSyncTime - syncInfo[a][b].syncTime)
        {
          latencyTable := latencyTable[i := latencyTable[i][j := I64(maxSyncTime - syncInfo[i][j].syncTime)]];
        }
      }
      assert TaskShifts(syncInfo, latencyTable, maxSyncTime);
    }

    /** Strategies TS_NODE and TS_DEFAULT. */
    method AlignNodes()
      requires Valid() && AllInit(syncInfo)
      modifies this`latencyTable
      ensures SameShape(syncInfo, latencyTable)
      ensures exists maxima, top :: |maxima| == |nodeList| && NodeShifts(syncInfo, latencyTable, maxima, top)
    {
      var maxPerNode := MaximaPerNode();
      var maxSyncTime := 0;
      for i := 0 to |maxPerNode|
        invariant forall k :: 0 <= k < i ==> maxPerNode[k] <= maxSyncTime
        invariant maxSyncTime == 0 || maxSyncTime in maxPerNode
      {
        maxSyncTime := Max(maxSyncTime, maxPerNode[i]);
      }
      assert NodeMaxima(syncInfo, maxPerNode, maxSyncTime);
      ShiftByNode(maxPerNode, maxSyncTime);
      assert NodeShifts(syncInfo, latencyTable, maxPerNode, maxSyncTime);
    }

    method ShiftByNode(maxPerNode: seq<int>, maxSyncTime: int)
      requires SameShape(syncInfo, latencyTable)
      requires forall i, j :: At(syncInfo, i, j) ==> syncInfo[i][j].nodeId < |maxPerNode|
      modifies this`latencyTable
      ensures SameShape(syncInfo, latencyTable)
      ensures forall i, j :: At(syncInfo, i, j) ==>
          latencyTable[i][j] == I64(maxSyncTime - maxPerNode[syncInfo[i][j].nodeId])
    {
      for i := 0 to |syncInfo|
        invariant SameShape(syncInfo, latencyTable)
        invariant forall a, b :: At(syncInfo, a, b) && a < i ==>
          latencyTable[a][b] == I64(maxSyncTime - maxPerNode[syncInfo[a][b].nodeId])
      {
        for j := 0 to |syncInfo[i]|
          invariant SameShape(syncInfo, latencyTable)
          invariant forall a, b :: At(syncInfo, a, b) && Seen(a, b, i, j) ==>
            latencyTable[a][b] == I64(maxSyncTime - maxPerNode[syncInfo[a][b].nodeId])
        {
          assert At(syncInfo, i, j);
          latencyTable := latencyTable[i := latencyTable[i][j := I64(maxSyncTime - maxPerNode[syncInfo[i][j].nodeId])]];
        }
      }
    }

    method MaximaPerNode() returns (maxima: seq<int>)
      requires Valid() && AllInit(syncInfo)
      ensures |maxima| == |nodeList| && forall k :: 0 <= k < |maxima| ==> NodeMax(syncInfo, k, maxima[k])
      ensures forall i, j :: At(syncInfo, i, j) ==> syncInfo[i][j].nodeId < |maxima|
    {
      maxima := seq(|nodeList|, _ => 0);
      for i := 0 to |syncInfo|
        invariant |maxima| == |nodeList| && forall k :: 0 <= k < |maxima| ==> NodeMaxSeen(syncInfo, k, maxima[k], i, 0)
      {
        for j := 0 to |syncInfo[i]|
          invariant |maxima| == |nodeList| && forall k :: 0 <= k < |maxima| ==>
              NodeMaxSeen(syncInfo, k, maxima[k], i, j)
        {
          assert At(syncInfo, i, j);
          ghost var before := maxima;
          var k := syncInfo[i][j].nodeId;
          maxima := maxima[k := Max(maxima[k], syncInfo[i][j].syncTime)];
          forall n | 0 <= n < |maxima|
            ensures NodeMaxSeen(syncInfo, n, maxima[n], i, j + 1)
          {
            NodeMaxStep(syncInfo, n, before[n], i, j);
          }
        }
        forall n | 0 <= n < |maxima|
          ensures NodeMaxSeen(syncInfo, n, maxima[n], i + 1, 0)
        {
          NodeMaxRow(syncInfo, n, maxima[n], i);
        }
      }
      forall k | 0 <= k < |maxima|
        ensures NodeMax(syncInfo, k, maxima[k])
      {
        assert NodeMaxSeen(syncInfo, k, maxima[k], |syncInfo|, 0);
      }
    }

    /** The last two loops: find the earliest shifted start and move everything left by it. */
    method MoveToZero() returns (minInitTime: int)
      requires SameShape(syncInfo, latencyTable) && At(syncInfo, 0, 0)
      modifies this`latencyTable
      ensures MinStart(syncInfo, old(latencyTable), minInitTime) &&
          MovedLeft(old(latencyTable), latencyTable, minInitTime)
    {
      ghost var lat := latencyTable;
      minInitTime := U64(syncInfo[0][0].initTime + latencyTable[0][0]);
      ghost var wi, wj := 0, 0;
      for i := 0 to |syncInfo|
        invariant At(syncInfo, wi, wj) && minInitTime == Start(syncInfo, lat, wi, wj)
        invariant forall a, b :: At(syncInfo, a, b) && a < i ==> minInitTime <= Start(syncInfo, lat, a, b)
      {
        for j := 0 to |syncInfo[i]|
          invariant At(syncInfo, wi, wj) && minInitTime == Start(syncInfo, lat, wi, wj)
          invariant forall a, b :: At(syncInfo, a, b) && Seen(a, b, i, j) ==> minInitTime <= Start(syncInfo, lat, a, b)
        {
          if Start(syncInfo, lat, i, j) < minInitTime {
            wi, wj := i, j;
          }
          minInitTime := Min(minInitTime, U64(syncInfo[i][j].initTime + latencyTable[i][j]));
        }
      }
      assert MinStart(syncInfo, lat, minInitTime);
      for i := 0 to |syncInfo|
        invariant SameShape(lat, latencyTable)
        invariant forall a, b :: At(lat, a, b) ==>
            latencyTable[a][b] == if a < i then I64(lat[a][b] - minInitTime) else lat[a][b]
      {
        for j := 0 to |syncInfo[i]|
          invariant SameShape(lat, latencyTable)
          invariant forall a, b :: At(lat, a, b) ==>
            latencyTable[a][b] == if Seen(a, b, i, j) then I64(lat[a][b] - minInitTime) else lat[a][b]
        {
          assert At(lat, i, j);
          latencyTable := latencyTable[i := latencyTable[i][j := I64(latencyTable[i][j] - minInitTime)]];
        }
      }
    }
  }
}
