/** Switching between detailed and bursts tracing, mode.c. */
module TraceMode {
  import opened Common

  const TRACE_MODE_DETAIL: int := 1
  const TRACE_MODE_BURSTS: int := 2

  predicate IsValidMode(mode: int) { mode == TRACE_MODE_DETAIL || mode == TRACE_MODE_BURSTS }

  function Other(mode: int): int { if mode == TRACE_MODE_DETAIL then TRACE_MODE_BURSTS else TRACE_MODE_DETAIL }

  /** What the per-thread arrays hold for one thread. */
  datatype Thread = Thread(depth: int, current: int, future: int, pending: bool, first: bool)

  function Started(mode: int): Thread { Thread(0, mode, mode, false, true) }

  function Switched(t: Thread): Thread { t.(pending := true, future := Other(t.current)) }

  /** Does a change write a mode event? */
  predicate Emits(t: Thread) { t.first || (t.pending && t.future != t.current) }

  function Changed(t: Thread): Thread {
    if t.pending || t.first then t.(current := t.future, pending := false, first := false) else t
  }

  // ---------------------------------------------------------------- the process

  /** The threads, what each thread's buffer has got of mode events, and the starting mode. Buffers
      outlive a shrinking of the thread arrays. */
  datatype Modes = Modes(threads: seq<Thread>, events: seq<seq<int>>, starting: int)

  /** `traced` says whether tracing is on when a change happens. */
  datatype Op =
    | SetInitial(mode: int)
    | Resize(threads: nat)
    | Switch(threads: nat)
    | Change(tid: nat, traced: bool)

  function Resized(ts: seq<Thread>, n: nat, starting: int): (r: seq<Thread>)
    ensures |r| == n
    ensures forall i :: 0 <= i < n ==> r[i] == if i < |ts| then ts[i] else Started(starting)
    decreases if n < |ts| then |ts| - n else n - |ts|
  {
    if n == |ts| then ts
    else if n < |ts| then Resized(ts[..|ts| - 1], n, starting)
    else Resized(ts + [Started(starting)], n, starting)
  }

  function Grown(events: seq<seq<int>>, n: nat): (r: seq<seq<int>>)
    ensures |r| == Max(n, |events|) && forall i :: 0 <= i < |r| ==> r[i] == if i < |events| then events[i] else []
    decreases if n < |events| then 0 else n - |events|
  {
    if n <= |events| then events else Grown(events + [[]], n)
  }

  function SwitchFirst(ts: seq<Thread>, n: nat): (r: seq<Thread>)
    requires n <= |ts|
    ensures |r| == |ts| && forall i :: 0 <= i < |ts| ==> r[i] == if i < n then Switched(ts[i]) else ts[i]
    decreases n
  {
    if n == 0 then ts else SwitchFirst(ts[n - 1 := Switched(ts[n - 1])], n - 1)
  }

  /** The arrays cover the threads an operation talks about. */
  predicate Legal(m: Modes, op: Op) {
    match op
    case SetInitial(_) => true
    case Resize(_) => true
    case Switch(n) => n <= |m.threads|
    case Change(tid, _) => tid < |m.threads|
  }

  function Apply(m: Modes, op: Op): (r: Modes)
    requires |m.threads| <= |m.events| && Legal(m, op)
    ensures |r.threads| <= |r.events|
  {
    match op
    case SetInitial(mode) => if IsValidMode(mode) then m.(starting := mode) else m
    case Resize(n) => Modes(Resized(m.threads, n, m.starting), Grown(m.events, n), m.starting)
    case Switch(n) => m.(threads := SwitchFirst(m.threads, n))
    case Change(tid, traced) =>
      var t := m.threads[tid];
      m.(threads := m.threads[tid := Changed(t)],
         events := if Emits(t) && traced then m.events[tid := m.events[tid] + [t.future]] else m.events)
  }

  ghost predicate LegalRun(m: Modes, ops: seq<Op>)
    requires |m.threads| <= |m.events|
    decreases |ops|, 0
  {
    ops == [] || (LegalRun(m, ops[..|ops| - 1]) && Legal(Run(m, ops[..|ops| - 1]), ops[|ops| - 1]))
  }

  ghost function Run(m: Modes, ops: seq<Op>): (r: Modes)
    requires |m.threads| <= |m.events| && LegalRun(m, ops)
    ensures |r.threads| <= |r.events|
    decreases |ops|, 1
  {
    if ops == [] then m else Apply(Run(m, ops[..|ops| - 1]), ops[|ops| - 1])
  }

  /** Before TMODE_setInitial and Trace_Mode_Initialize. */
  const BEGINNING := Modes([], [], TRACE_MODE_DETAIL)

  // ---------------------------------------------------------------- every run

  ghost predicate Alternates(events: seq<int>) {
    && (forall k :: 0 <= k < |events| ==> events[k] == TRACE_MODE_DETAIL || events[k] == TRACE_MODE_BURSTS)
    && forall k :: 0 < k < |events| ==> events[k] != events[k - 1]
  }

  /** The thread arrays never shrink. */
  ghost predicate NeverShrinks(m: Modes, ops: seq<Op>)
    requires |m.threads| <= |m.events| && LegalRun(m, ops)
    decreases |ops|
  {
    ops == [] ||
    (var n := |ops| - 1;
     NeverShrinks(m, ops[..n]) && (ops[n].Resize? ==> ops[n].threads >= |Run(m, ops[..n]).threads|))
  }

  /** Does the operation make thread i write a mode event, were it traced? */
  predicate EmitsFor(m: Modes, op: Op, i: nat)
    requires Legal(m, op)
  {
    op.Change? && op.tid == i && Emits(m.threads[i])
  }

  /** The emitting changes of thread i along a run: whether each was traced. */
  ghost function Emissions(m: Modes, ops: seq<Op>, i: nat): seq<bool>
    requires |m.threads| <= |m.events| && LegalRun(m, ops)
    decreases |ops|
  {
    if ops == [] then []
    else
      var n := |ops| - 1;
      Emissions(m, ops[..n], i) + if EmitsFor(Run(m, ops[..n]), ops[n], i) then [ops[n].traced] else []
  }

  /** The mode of the first of them. */
  ghost function FirstMode(m: Modes, ops: seq<Op>, i: nat): int
    requires |m.threads| <= |m.events| && LegalRun(m, ops)
    decreases |ops|
  {
    if ops == [] then TRACE_MODE_DETAIL
    else
      var n := |ops| - 1;
      var before := Run(m, ops[..n]);
      if Emissions(m, ops[..n], i) == [] && EmitsFor(before, ops[n], i) then before.threads[i].future
      else FirstMode(m, ops[..n], i)
  }

  /** The k-th mode when modes take turns. */
  function ModeAt(first: int, k: nat): int { if k % 2 == 0 then first else Other(first) }

  /** The modes at the traced places. */
  function Recorded(first: int, traced: seq<bool>): seq<int>
    decreases |traced|
  {
    if traced == [] then []
    else
      var n := |traced| - 1;
      Recorded(first, traced[..n]) + if traced[n] then [ModeAt(first, n)] else []
  }

  /** Place b is the next traced one after place a. */
  ghost predicate NextTraced(traced: seq<bool>, a: int, b: int) {
    0 <= a < b < |traced| && traced[a] && traced[b] && forall k :: a < k < b ==> !traced[k]
  }

  /** Between one traced place and the next there are evenly many others: one of the two is an odd
      place, the other an even one. */
  ghost predicate EvenGaps(traced: seq<bool>) {
    forall a, b {:trigger NextTraced(traced, a, b)} :: NextTraced(traced, a, b) ==> a % 2 != b % 2
  }

  /** The last traced place, -1 if there is none. */
  function LastTraced(traced: seq<bool>): (p: int)
    ensures -1 <= p < |traced| && (p >= 0 ==> traced[p]) && forall k :: p < k < |traced| ==> !traced[k]
    decreases |traced|
  {
    if traced == [] then -1
    else if traced[|traced| - 1] then |traced| - 1
    else LastTraced(traced[..|traced| - 1])
  }

  /** Evenly many places follow the last traced one. */
  predicate EvenSince(traced: seq<bool>) { LastTraced(traced) >= 0 ==> LastTraced(traced) % 2 != |traced| % 2 }

  lemma {:induction false} LastRecorded(first: int, traced: seq<bool>)
    ensures var r, p := Recorded(first, traced), LastTraced(traced);
      (r == [] <==> p == -1) && (r != [] ==> r[|r| - 1] == ModeAt(first, p))
    decreases |traced|
  {
    if traced != [] {
      LastRecorded(first, traced[..|traced| - 1]);
    }
  }

  lemma AlternatesSnoc(events: seq<int>, e: int)
    requires IsValidMode(e)
    ensures Alternates(events + [e]) <==> Alternates(events) && (events != [] ==> e == Other(events[|events| - 1]))
  {
    var r := events + [e];
    if Alternates(r) {
      assert forall k :: 0 <= k < |events| ==> r[k] == events[k];
      assert events != [] ==> r[|events|] == Other(r[|events| - 1]);
    }
  }

  lemma NextTracedSnoc(traced: seq<bool>, t: bool, a: int, b: int)
    ensures NextTraced(traced + [t], a, b)
       <==> NextTraced(traced, a, b) || (t && b == |traced| && a == LastTraced(traced) && a >= 0)
  {
    var r, n, p := traced + [t], |traced|, LastTraced(traced);
    assert forall k :: 0 <= k < n ==> r[k] == traced[k];
    if NextTraced(r, a, b) && b == n {
      assert p >= 0 ==> r[p];
    }
  }

  lemma EvenGapsBefore(traced: seq<bool>, t: bool)
    requires EvenGaps(traced + [t])
    ensures EvenGaps(traced) && (t ==> EvenSince(traced))
  {
    NextTracedSnoc(traced, t, LastTraced(traced), |traced|);
    forall a, b | NextTraced(traced, a, b)
      ensures a % 2 != b % 2
    {
      NextTracedSnoc(traced, t, a, b);
    }
  }

  lemma EvenGapsAfter(traced: seq<bool>, t: bool)
    requires EvenGaps(traced) && (t ==> EvenSince(traced))
    ensures EvenGaps(traced + [t])
  {
    forall a, b | NextTraced(traced + [t], a, b)
      ensures a % 2 != b % 2
    {
      NextTracedSnoc(traced, t, a, b);
    }
  }

  lemma ModeTurns(first: int, p: nat, n: nat)
    requires IsValidMode(first) && p <= n
    ensures IsValidMode(ModeAt(first, n))
    ensures ModeAt(first, n) == Other(ModeAt(first, p)) <==> p % 2 != n % 2
    ensures ModeAt(first, n) == ModeAt(first, p) <==> p % 2 == n % 2
  {
  }

  /** The last mode recorded is the last mode if and only if evenly many places follow it. */
  lemma LastRecordedIsLast(first: int, traced: seq<bool>)
    requires IsValidMode(first) && traced != []
    ensures var r := Recorded(first, traced);
      r != [] ==>
        (r[|r| - 1] == ModeAt(first, |traced| - 1) <==> LastTraced(traced) % 2 == (|traced| - 1) % 2)
  {
    LastRecorded(first, traced);
    if LastTraced(traced) >= 0 {
      ModeTurns(first, LastTraced(traced), |traced| - 1);
    }
  }

  lemma AllPlaces(traced: seq<bool>)
    requires forall k :: 0 <= k < |traced| ==> traced[k]
    ensures EvenGaps(traced) && LastTraced(traced) == |traced| - 1
  {
    forall a, b | NextTraced(traced, a, b)
      ensures b == a + 1
    {
      assert traced[a + 1];
    }
  }

  lemma {:induction false} EvenGapsAlternate(first: int, traced: seq<bool>)
    requires IsValidMode(first) && EvenGaps(traced)
    ensures Alternates(Recorded(first, traced))
    decreases |traced|
  {
    if traced != [] {
      var n := |traced| - 1;
      assert traced == traced[..n] + [traced[n]];
      EvenGapsBefore(traced[..n], traced[n]);
      EvenGapsAlternate(first, traced[..n]);
      OneMorePlace(first, traced[..n], traced[n]);
    }
  }

  lemma {:induction false} AlternatingGapsEven(first: int, traced: seq<bool>)
    requires IsValidMode(first) && Alternates(Recorded(first, traced))
    ensures EvenGaps(traced)
    decreases |traced|
  {
    if traced != [] {
      var n := |traced| - 1;
      assert traced == traced[..n] + [traced[n]];
      OneMorePlace(first, traced[..n], traced[n]);
      AlternatingGapsEven(first, traced[..n]);
      EvenGapsAfter(traced[..n], traced[n]);
    }
  }

  lemma OneMorePlace(first: int, traced: seq<bool>, t: bool)
    requires IsValidMode(first)
    ensures Alternates(Recorded(first, traced + [t]))
       <==> Alternates(Recorded(first, traced)) && (t ==> EvenSince(traced))
  {
    var r, n, p := Recorded(first, traced), |traced|, LastTraced(traced);
    assert (traced + [t])[..n] == traced;
    if t {
      LastRecorded(first, traced);
      assert Recorded(first, traced + [t]) == r + [ModeAt(first, n)];
      AlternatesSnoc(r, ModeAt(first, n));
      if p >= 0 {
        ModeTurns(first, p, n);
        assert r[|r| - 1] == ModeAt(first, p);
      }
    } else {
      assert Recorded(first, traced + [t]) == r;
    }
  }

  /** Modes that take turns are recorded alternately if and only if the gaps are even. */
  lemma RecordedAlternates(first: int, traced: seq<bool>)
    requires IsValidMode(first)
    ensures Alternates(Recorded(first, traced)) <==> EvenGaps(traced)
  {
    if EvenGaps(traced) {
      EvenGapsAlternate(first, traced);
    }
    if Alternates(Recorded(first, traced)) {
      AlternatingGapsEven(first, traced);
    }
  }

  /** A thread, its emitting changes so far, and its events. */
  ghost predicate Follows(t: Thread, traced: seq<bool>, first: int, events: seq<int>) {
    && IsValidMode(first) && IsValidMode(t.current)
    && t.future == (if t.pending then Other(t.current) else t.current)
    && (t.first <==> traced == []) && (traced != [] ==> t.current == ModeAt(first, |traced| - 1))
    && events == Recorded(first, traced)
  }

  lemma ChangeFollows(t: Thread, traced: seq<bool>, first: int, events: seq<int>, on: bool)
    requires Follows(t, traced, first, events) && Emits(t)
    ensures Follows(Changed(t), traced + [on], if traced == [] then t.future else first,
        if on then events + [t.future] else events)
  {
    assert (traced + [on])[..|traced|] == traced;
    if traced != [] {
      ModeTurns(first, |traced| - 1, |traced|);
    }
  }

  /** Every operation but a shrinking keeps a thread, its changes and its events in step. */
  lemma StepKeeps(m: Modes, op: Op, i: nat, traced: seq<bool>, first: int)
    requires |m.threads| == |m.events| && IsValidMode(m.starting) && IsValidMode(first) && Legal(m, op)
    requires if i < |m.threads| then Follows(m.threads[i], traced, first, m.events[i]) else traced == []
    requires op.Resize? ==> op.threads >= |m.threads|
    ensures var m', emits := Apply(m, op), EmitsFor(m, op, i);
      var first' := if traced == [] && emits then m.threads[i].future else first;
      var traced' := traced + if emits then [op.traced] else [];
      && |m'.threads| == |m'.events| && IsValidMode(m'.starting) && IsValidMode(first')
      && if i < |m'.threads| then Follows(m'.threads[i], traced', first', m'.events[i]) else traced' == []
  {
    if EmitsFor(m, op, i) {
      ChangeFollows(m.threads[i], traced, first, m.events[i], op.traced);
    } else {
      assert traced + [] == traced;
    }
  }

  lemma {:induction false} RunFollows(ops: seq<Op>, i: nat)
    requires LegalRun(BEGINNING, ops) && NeverShrinks(BEGINNING, ops)
    ensures var r, e, first := Run(BEGINNING, ops), Emissions(BEGINNING, ops, i), FirstMode(BEGINNING, ops, i);
      && |r.threads| == |r.events| && IsValidMode(r.starting) && IsValidMode(first)
      && if i < |r.threads| then Follows(r.threads[i], e, first, r.events[i]) else e == []
    decreases |ops|
  {
    if ops != [] {
      var n := |ops| - 1;
      RunFollows(ops[..n], i);
      StepKeeps(Run(BEGINNING, ops[..n]), ops[n], i, Emissions(BEGINNING, ops[..n], i),
          FirstMode(BEGINNING, ops[..n], i));
    }
  }

  /** Over every run in which the arrays never shrink, the mode events of a thread alternate if and
      only if between any two consecutive traced changes evenly many untraced ones were made. */
  lemma AlternatesExactly(ops: seq<Op>, i: nat)
    requires LegalRun(BEGINNING, ops) && NeverShrinks(BEGINNING, ops) && i < |Run(BEGINNING, ops).threads|
    ensures Alternates(Run(BEGINNING, ops).events[i]) <==> EvenGaps(Emissions(BEGINNING, ops, i))
  {
    RunFollows(ops, i);
    RecordedAlternates(FirstMode(BEGINNING, ops, i), Emissions(BEGINNING, ops, i));
  }

  /** The last event is the mode the thread is in if and only if evenly many untraced changes
      followed it. */
  lemma LastEventExactly(ops: seq<Op>, i: nat)
    requires LegalRun(BEGINNING, ops) && NeverShrinks(BEGINNING, ops) && i < |Run(BEGINNING, ops).threads|
    ensures var r, e := Run(BEGINNING, ops), Emissions(BEGINNING, ops, i);
      r.events[i] != [] ==>
        (r.events[i][|r.events[i]| - 1] == r.threads[i].current <==> LastTraced(e) % 2 == (|e| - 1) % 2)
  {
    RunFollows(ops, i);
    if Emissions(BEGINNING, ops, i) != [] {
      LastRecordedIsLast(FirstMode(BEGINNING, ops, i), Emissions(BEGINNING, ops, i));
    }
  }

  /** The thread arrays never shrink, and every change is traced. */
  ghost predicate Steady(m: Modes, ops: seq<Op>)
    requires |m.threads| <= |m.events| && LegalRun(m, ops)
  {
    NeverShrinks(m, ops) && forall k :: 0 <= k < |ops| && ops[k].Change? ==> ops[k].traced
  }

  lemma {:induction false} AllTraced(m: Modes, ops: seq<Op>, i: nat)
    requires |m.threads| <= |m.events| && LegalRun(m, ops)
    requires forall k :: 0 <= k < |ops| && ops[k].Change? ==> ops[k].traced
    ensures forall k :: 0 <= k < |Emissions(m, ops, i)| ==> Emissions(m, ops, i)[k]
    decreases |ops|
  {
    if ops != [] {
      AllTraced(m, ops[..|ops| - 1], i);
    }
  }

  /** So if every change is traced, the mode events of every thread alternate strictly, and the
      last one is the mode the thread is in. */
  lemma EventsAlternate(ops: seq<Op>, i: nat)
    requires LegalRun(BEGINNING, ops) && Steady(BEGINNING, ops)
    requires i < |Run(BEGINNING, ops).threads|
    ensures var r := Run(BEGINNING, ops);
      Alternates(r.events[i]) && (r.events[i] != [] ==> r.events[i][|r.events[i]| - 1] == r.threads[i].current)
  {
    AllTraced(BEGINNING, ops, i);
    AllPlaces(Emissions(BEGINNING, ops, i));
    AlternatesExactly(ops, i);
    LastEventExactly(ops, i);
  }

  /** How often the modes are switched in a run. */
  function Switches(ops: seq<Op>): nat
    decreases |ops|
  {
    if ops == [] then 0
    else Switches(ops[..|ops| - 1]) + if ops[|ops| - 1].Switch? then 1 else 0
  }

  /** A thread makes its first change, and then at most one for every switch. */
  lemma {:induction false} ChangesPerSwitch(ops: seq<Op>, i: nat)
    requires LegalRun(BEGINNING, ops) && NeverShrinks(BEGINNING, ops)
    ensures var r, e := Run(BEGINNING, ops), Emissions(BEGINNING, ops, i);
      if i < |r.threads| then
        |e| + (if r.threads[i].pending then 1 else 0) + (if r.threads[i].first then 1 else 0) <= 1 + Switches(ops)
      else e == []
    decreases |ops|
  {
    if ops != [] {
      ChangesPerSwitch(ops[..|ops| - 1], i);
    }
  }

  lemma FewPlaces(traced: seq<bool>)
    requires |traced| <= 2
    ensures EvenGaps(traced)
    ensures LastTraced(traced) >= 0 ==> (LastTraced(traced) % 2 == (|traced| - 1) % 2 <==> traced != [true, false])
  {
    forall a, b | NextTraced(traced, a, b)
      ensures a % 2 != b % 2
    {
    }
  }

  /** With at most one switch, all that the program makes, the mode events of every thread alternate
      whether they are traced or not, and the last one is the mode the thread is in unless its first
      change was traced and the one after the switch was not. */
  lemma OneSwitchAlternates(ops: seq<Op>, i: nat)
    requires LegalRun(BEGINNING, ops) && NeverShrinks(BEGINNING, ops) && i < |Run(BEGINNING, ops).threads|
    requires Switches(ops) <= 1
    ensures var r := Run(BEGINNING, ops);
      && Alternates(r.events[i])
      && (r.events[i] != [] ==>
          (r.events[i][|r.events[i]| - 1] == r.threads[i].current <==> Emissions(BEGINNING, ops, i) != [true, false]))
  {
    var e := Emissions(BEGINNING, ops, i);
    ChangesPerSwitch(ops, i);
    FewPlaces(e);
    AlternatesExactly(ops, i);
    LastEventExactly(ops, i);
    RunFollows(ops, i);
    LastRecorded(FirstMode(BEGINNING, ops, i), e);
  }

  lemma RunSnoc(m: Modes, ops: seq<Op>, op: Op, i: nat)
    requires |m.threads| <= |m.events| && LegalRun(m, ops) && Legal(Run(m, ops), op)
    ensures LegalRun(m, ops + [op]) && Run(m, ops + [op]) == Apply(Run(m, ops), op)
    ensures NeverShrinks(m, ops + [op])
       <==> NeverShrinks(m, ops) && (op.Resize? ==> op.threads >= |Run(m, ops).threads|)
    ensures Emissions(m, ops + [op], i)
         == Emissions(m, ops, i) + if EmitsFor(Run(m, ops), op, i) then [op.traced] else []
  {
    assert (ops + [op])[..|ops|] == ops;
  }

  /** Switching the first n threads and changing thread i. */
  function SwitchedAndChanged(ops: seq<Op>, n: nat, i: nat, traced: bool): seq<Op> {
    ops + [Switch(n)] + [Change(i, traced)]
  }

  lemma OneMoreEmission(ops: seq<Op>, n: nat, i: nat, traced: bool)
    requires LegalRun(BEGINNING, ops) && NeverShrinks(BEGINNING, ops) && i < n <= |Run(BEGINNING, ops).threads|
    requires Emissions(BEGINNING, ops, i) != []
    ensures var ops' := SwitchedAndChanged(ops, n, i, traced);
      && LegalRun(BEGINNING, ops') && NeverShrinks(BEGINNING, ops')
      && |Run(BEGINNING, ops').threads| == |Run(BEGINNING, ops).threads|
      && Emissions(BEGINNING, ops', i) == Emissions(BEGINNING, ops, i) + [traced]
  {
    RunFollows(ops, i);
    RunSnoc(BEGINNING, ops, Switch(n), i);
    RunSnoc(BEGINNING, ops + [Switch(n)], Change(i, traced), i);
  }

  /** In any run, a switch and a change while tracing is off, after a traced change, leave a last
      event that is not the mode the thread is in. */
  lemma LastSwitchLost(ops: seq<Op>, n: nat, i: nat)
    requires LegalRun(BEGINNING, ops) && NeverShrinks(BEGINNING, ops) && i < n <= |Run(BEGINNING, ops).threads|
    requires var e := Emissions(BEGINNING, ops, i); e != [] && e[|e| - 1]
    ensures var ops' := SwitchedAndChanged(ops, n, i, false);
      LegalRun(BEGINNING, ops') &&
      var r := Run(BEGINNING, ops');
      && i < |r.threads| && r.events[i] != [] && r.events[i][|r.events[i]| - 1] != r.threads[i].current
  {
    var ops', e := SwitchedAndChanged(ops, n, i, false), Emissions(BEGINNING, ops, i);
    OneMoreEmission(ops, n, i, false);
    assert (e + [false])[..|e|] == e;
    assert LastTraced(e + [false]) == |e| - 1;
    RunFollows(ops', i);
    LastRecorded(FirstMode(BEGINNING, ops', i), e + [false]);
    LastEventExactly(ops', i);
  }

  lemma BeginsInBursts()
    ensures var m := Apply(Apply(BEGINNING, SetInitial(TRACE_MODE_BURSTS)), Resize(1));
      Apply(m, Change(0, true))
      == Modes([Changed(Started(TRACE_MODE_BURSTS))], [[TRACE_MODE_BURSTS]], TRACE_MODE_BURSTS)
  {
    var m := Apply(Apply(BEGINNING, SetInitial(TRACE_MODE_BURSTS)), Resize(1));
    var t := Started(TRACE_MODE_BURSTS);
    assert m == Modes([t], [[]], TRACE_MODE_BURSTS);
    var events: seq<seq<int>> := [[]];
    assert [t][0 := Changed(t)] == [Changed(t)];
    assert events[0] + [TRACE_MODE_BURSTS] == [TRACE_MODE_BURSTS];
    assert events[0 := [TRACE_MODE_BURSTS]] == [[TRACE_MODE_BURSTS]];
  }

  lemma SwitchesUntraced(m: Modes, t: Thread)
    requires m.threads == [t] && |m.events| == 1
    ensures Apply(Apply(m, Switch(1)), Change(0, false)) == m.(threads := [Changed(Switched(t))])
  {
    var switched := Apply(m, Switch(1));
    assert switched == m.(threads := [Switched(t)]);
    assert [Switched(t)][0 := Changed(Switched(t))] == [Changed(Switched(t))];
  }

  /** Such a run: a process starts in bursts mode, and stops tracing before its MPI_Finalize
      switches to detail. */
  lemma FinalizeUntraced()
    ensures var start: seq<Op> := [] + [SetInitial(TRACE_MODE_BURSTS)] + [Resize(1)] + [Change(0, true)];
      var ops := SwitchedAndChanged(start, 1, 0, false);
      && Switches(ops) == 1 && LegalRun(BEGINNING, ops)
      && Run(BEGINNING, ops).events == [[TRACE_MODE_BURSTS]]
      && |Run(BEGINNING, ops).threads| == 1 && Run(BEGINNING, ops).threads[0].current == TRACE_MODE_DETAIL
  {
    var none: seq<Op> := [];
    var chosen := none + [SetInitial(TRACE_MODE_BURSTS)];
    var sized := chosen + [Resize(1)];
    var begun := sized + [Change(0, true)];
    OpsSnoc(none, SetInitial(TRACE_MODE_BURSTS));
    OpsSnoc(chosen, Resize(1));
    OpsSnoc(sized, Change(0, true));
    BeginsInBursts();
    OpsSnoc(begun, Switch(1));
    OpsSnoc(begun + [Switch(1)], Change(0, false));
    SwitchesUntraced(Run(BEGINNING, begun), Changed(Started(TRACE_MODE_BURSTS)));
  }

  lemma OpsSnoc(ops: seq<Op>, op: Op)
    requires LegalRun(BEGINNING, ops) && Legal(Run(BEGINNING, ops), op)
    ensures LegalRun(BEGINNING, ops + [op]) && Run(BEGINNING, ops + [op]) == Apply(Run(BEGINNING, ops), op)
    ensures Switches(ops + [op]) == Switches(ops) + if op.Switch? then 1 else 0
  {
    assert (ops + [op])[..|ops|] == ops;
  }

  /** A caller that switched more often could see the same mode twice: in any run, one untraced
      change between traced ones does that. */
  lemma UntracedRepeats(ops: seq<Op>, n: nat, i: nat)
    requires LegalRun(BEGINNING, ops) && NeverShrinks(BEGINNING, ops) && i < n <= |Run(BEGINNING, ops).threads|
    requires var e := Emissions(BEGINNING, ops, i); e != [] && e[|e| - 1]
    ensures var ops' := SwitchedAndChanged(SwitchedAndChanged(ops, n, i, false), n, i, true);
      && LegalRun(BEGINNING, ops') && NeverShrinks(BEGINNING, ops') && i < |Run(BEGINNING, ops').threads|
      && !Alternates(Run(BEGINNING, ops').events[i])
  {
    var once := SwitchedAndChanged(ops, n, i, false);
    OneMoreEmission(ops, n, i, false);
    OneMoreEmission(once, n, i, true);
    OddGap(Emissions(BEGINNING, ops, i));
    AlternatesExactly(SwitchedAndChanged(once, n, i, true), i);
  }

  lemma OddGap(traced: seq<bool>)
    requires traced != [] && traced[|traced| - 1]
    ensures !EvenGaps(traced + [false] + [true])
  {
    assert NextTraced(traced + [false] + [true], |traced| - 1, |traced| + 1);
  }

  /** Such a run: one thread, its first change, and then the two switches. */
  lemma OneThreadRepeats()
    ensures var start: seq<Op> := [] + [Resize(1)] + [Change(0, true)];
      var ops' := SwitchedAndChanged(SwitchedAndChanged(start, 1, 0, false), 1, 0, true);
      LegalRun(BEGINNING, ops') && Run(BEGINNING, ops').events != [] && !Alternates(Run(BEGINNING, ops').events[0])
  {
    var start: seq<Op> := [];
    RunSnoc(BEGINNING, start, Resize(1), 0);
    RunSnoc(BEGINNING, start + [Resize(1)], Change(0, true), 0);
    UntracedRepeats(start + [Resize(1)] + [Change(0, true)], 1, 0);
  }

  /** Were the arrays shrunk and grown again, a thread that comes back would announce the starting
      mode anew; its events would go on alternating if and only if it announced the other one last. */
  lemma ShrinkingRepeats(m: Modes)
    requires |m.threads| == |m.events| > 0 && IsValidMode(m.starting)
    ensures var n := |m.threads|;
      var m' := Apply(Apply(Apply(m, Resize(n - 1)), Resize(n)), Change(n - 1, true));
      var events := m.events[n - 1];
      && m'.events[n - 1] == events + [m.starting]
      && (Alternates(m'.events[n - 1])
          <==> Alternates(events) && (events != [] ==> m.starting != events[|events| - 1]))
  {
    var n := |m.threads|;
    var shrunk := Apply(m, Resize(n - 1));
    var grown := Apply(shrunk, Resize(n));
    assert grown.events == m.events && grown.threads[n - 1] == Started(m.starting);
    AlternatesSnoc(m.events[n - 1], m.starting);
  }

  function Repeated(op: Op, k: nat): seq<Op> {
    if k == 0 then [] else Repeated(op, k - 1) + [op]
  }

  /** Any positive number of switches in a row does what one does. */
  lemma {:induction false} SwitchesActAsOne(m: Modes, n: nat, k: nat)
    requires |m.threads| <= |m.events| && n <= |m.threads| && k > 0
    ensures LegalRun(m, Repeated(Switch(n), k)) && Run(m, Repeated(Switch(n), k)) == Apply(m, Switch(n))
    decreases k
  {
    var ops := Repeated(Switch(n), k);
    assert ops[..k - 1] == Repeated(Switch(n), k - 1) by { RepeatedSize(Switch(n), k - 1); }
    RepeatedSize(Switch(n), k);
    if k > 1 {
      SwitchesActAsOne(m, n, k - 1);
      var once := SwitchFirst(m.threads, n);
      assert SwitchFirst(once, n) == once;
    }
  }

  lemma {:induction false} RepeatedSize(op: Op, k: nat)
    ensures |Repeated(op, k)| == k
  {
    if k > 0 {
      RepeatedSize(op, k - 1);
    }
  }

  /** A switch followed by a change puts a thread in the other mode, and says so once. */
  lemma SwitchThenChange(t: Thread)
    requires !t.first && IsValidMode(t.current)
    ensures Changed(Switched(t)).current == Other(t.current) != t.current && Emits(Switched(t)) &&
        !Emits(Changed(Switched(t)))
  {
  }

  // ---------------------------------------------------------------- the arrays

  class TraceModes {
    var mpiDeepness: seq<int>
    var currentTraceMode: seq<int>
    var futureTraceMode: seq<int>
    var pendingTraceModeChange: seq<bool>
    var firstTraceMode: seq<bool>
    var startingTraceMode: int
    var buffers: seq<seq<int>>   // mode events per thread
    ghost var threads: seq<Thread>

    ghost predicate Valid()
      reads this
    {
      && |mpiDeepness| == |currentTraceMode| == |futureTraceMode| == |pendingTraceModeChange| == |firstTraceMode| ==
          |threads|
      && |threads| <= |buffers|
      && forall i :: 0 <= i < |threads| ==> threads[i] == Entries(i)
    }

    ghost function Entries(i: nat): Thread
      requires i < |mpiDeepness| == |currentTraceMode| == |futureTraceMode| == |pendingTraceModeChange| ==
          |firstTraceMode|
      reads this
    {
      Thread(mpiDeepness[i], currentTraceMode[i], futureTraceMode[i], pendingTraceModeChange[i], firstTraceMode[i])
    }

    ghost function Value(): Modes
      reads this
    {
      Modes(threads, buffers, startingTraceMode)
    }

    constructor ()
      ensures Valid() && Value() == BEGINNING
    {
      mpiDeepness, currentTraceMode, futureTraceMode, pendingTraceModeChange, firstTraceMode := [], [], [], [], [];
      startingTraceMode := TRACE_MODE_DETAIL;
      buffers, threads := [], [];
    }

    method SetInitial(mode: int)
      requires Valid()
      modifies this`startingTraceMode
      ensures Valid() && Value() == Apply(old(Value()), Op.SetInitial(mode))
    {
      if IsValidMode(mode) {
        startingTraceMode := mode;
      }
    }

    /** Callers pass the number of threads the arrays have; buffers are extended alongside. */
    method ReInitialize(oldNumThreads: nat, newNumThreads: nat)
      requires Valid() && oldNumThreads == |currentTraceMode|
      modifies this
      ensures Valid() && Value() == Apply(old(Value()), Resize(newNumThreads))
    {
      mpiDeepness := Realloc(mpiDeepness, newNumThreads, 0);
      currentTraceMode := Realloc(currentTraceMode, newNumThreads, 0);
      futureTraceMode := Realloc(futureTraceMode, newNumThreads, 0);
      pendingTraceModeChange := Realloc(pendingTraceModeChange, newNumThreads, false);
      firstTraceMode := Realloc(firstTraceMode, newNumThreads, false);
      buffers := Grown(buffers, newNumThreads);
      threads := Resized(threads, newNumThreads, startingTraceMode);
      for i := oldNumThreads to Max(oldNumThreads, newNumThreads)
        invariant |mpiDeepness| == |currentTraceMode| == |futureTraceMode| == newNumThreads
        invariant |pendingTraceModeChange| == |firstTraceMode| == |threads| == newNumThreads <= |buffers|
        invariant Value() == Apply(old(Value()), Resize(newNumThreads))
        invariant forall k :: 0 <= k < i && k < newNumThreads ==> threads[k] == Entries(k)
      {
        mpiDeepness := mpiDeepness[i := 0];
        currentTraceMode := currentTraceMode[i := startingTraceMode];
        futureTraceMode := futureTraceMode[i := startingTraceMode];
        pendingTraceModeChange := pendingTraceModeChange[i := false];
        firstTraceMode := firstTraceMode[i := true];
      }
    }

    method Switch(numThreads: nat)
      requires Valid() && numThreads <= |currentTraceMode|
      modifies this
      ensures Valid() && Value() == Apply(old(Value()), Op.Switch(numThreads))
    {
      ghost var before := threads;
      for i := 0 to numThreads
        invariant Valid() && |threads| == |before| && buffers == old(buffers) &&
            startingTraceMode == old(startingTraceMode)
        invariant forall k :: 0 <= k < |before| ==> threads[k] == if k < i then Switched(before[k]) else before[k]
      {
        pendingTraceModeChange := pendingTraceModeChange[i := true];
        futureTraceMode := futureTraceMode[i :=
          if currentTraceMode[i] == TRACE_MODE_DETAIL then TRACE_MODE_BURSTS else TRACE_MODE_DETAIL];
        threads := threads[i := Switched(threads[i])];
      }
      assert threads == SwitchFirst(before, numThreads);
    }

    method Change(tid: nat, traced: bool)
      requires Valid() && tid < |currentTraceMode|
      modifies this
      ensures Valid() && Value() == Apply(old(Value()), Op.Change(tid, traced))
    {
      ghost var t := threads[tid];
      if pendingTraceModeChange[tid] || firstTraceMode[tid] {
        if futureTraceMode[tid] != currentTraceMode[tid] || firstTraceMode[tid] {
          currentTraceMode := currentTraceMode[tid := futureTraceMode[tid]];
          if traced {
            buffers := buffers[tid := buffers[tid] + [currentTraceMode[tid]]];
          }
        }
        pendingTraceModeChange := pendingTraceModeChange[tid := false];
        firstTraceMode := firstTraceMode[tid := false];
      }
      threads := threads[tid := Changed(t)];
    }
  }

  /** realloc: keeps what fits; `junk` stands for the uninitialised rest. */
  function Realloc<T>(s: seq<T>, n: nat, junk: T): (r: seq<T>)
    ensures |r| == n && forall i :: 0 <= i < n && i < |s| ==> r[i] == s[i]
    decreases if n < |s| then 0 else n - |s|
  {
    if n <= |s| then s[..n] else Realloc(s + [junk], n, junk)
  }
}
