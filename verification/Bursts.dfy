/** CPU bursts: the records trace_macros_mpi.h writes at MPI calls in bursts mode, for one thread
    with tracing on. */
module Bursts {
  const EVT_END: int := 0
  const EVT_BEGIN: int := 1
  const CPU_BURST_EV: int := 40000015
  const U64_RANGE: int := 0x1_0000_0000_0000_0000

  /** 64-bit times; only their difference is taken modulo 2^64. */
  type Time = int

  /** Where the counters of a record come from: read on the spot, or accumulated since the last one. */
  datatype Counters = Read | Accumulated

  datatype Record = Record(time: Time, event: int, value: int, counters: Counters)

  /** `accumulated` is ACCUMULATED_COUNTERS_INITIALIZED. */
  datatype Thread = Thread(lastExit: Time, lastBegin: Time, depth: int, accumulated: bool, buffer: seq<Record>)

  /** Unsigned subtraction. */
  function Minus(a: Time, b: Time): Time { if b <= a then a - b else a - b + U64_RANGE }

  /** BURSTS_MODE_TRACE_MPIEVENT with sampling support. */
  function SamplingEvent(t: Thread, threshold: nat, time: Time, value: int): Thread {
    if value == EVT_BEGIN then
      if Minus(time, t.lastExit) > threshold then
        t.(buffer := t.buffer + [Record(t.lastExit, CPU_BURST_EV, value, Accumulated)]
                              + [Record(time, CPU_BURST_EV, 0, Read)],
           accumulated := false)
      else t
    else t.(accumulated := true)
  }

  /** The same macro without sampling support: counters may have to be read at the start. */
  function PlainEvent(t: Thread, threshold: nat, time: Time, value: int): Thread {
    if value == EVT_BEGIN then
      if Minus(time, t.lastExit) > threshold then
        var source := if t.accumulated then Accumulated else Read;
        t.(buffer := t.buffer + [Record(t.lastExit, CPU_BURST_EV, value, source)]
                              + [Record(time, CPU_BURST_EV, 0, Read)],
           accumulated := false)
      else t.(accumulated := true)
    else t.(accumulated := true)
  }

  /** TRACE_MPIEVENT in bursts mode. */
  function MpiEvent(sampling: bool, t: Thread, threshold: nat, time: Time, value: int): Thread {
    var u := if sampling then SamplingEvent(t, threshold, time, value) else PlainEvent(t, threshold, time, value);
    if value == EVT_BEGIN then u.(depth := u.depth + 1, lastBegin := time)
    else if value == EVT_END then u.(depth := u.depth - 1, lastExit := time)
    else u
  }

  /** TRACE_MPIINITEV: any mode; only its end counts as an exit. */
  function MpiInitEvent(t: Thread, event: int, time: Time, value: int): Thread {
    t.(buffer := t.buffer + [Record(time, event, value, Read)],
       accumulated := false,
       lastExit := if value == EVT_END then time else t.lastExit)
  }

  datatype Call = Call(begin: Time, end: Time)

  /** An MPI call: its begin event, then its end event. */
  function OneCall(sampling: bool, t: Thread, threshold: nat, call: Call): Thread {
    MpiEvent(sampling, MpiEvent(sampling, t, threshold, call.begin, EVT_BEGIN), threshold, call.end, EVT_END)
  }

  function Calls(sampling: bool, t: Thread, threshold: nat, calls: seq<Call>): Thread
    decreases |calls|
  {
    if calls == [] then t
    else
      var n := |calls| - 1;
      OneCall(sampling, Calls(sampling, t, threshold, calls[..n]), threshold, calls[n])
  }

  /** Calls one after the other, none nested, none before the last exit. */
  ghost predicate InTimeOrder(lastExit: Time, calls: seq<Call>) {
    && (forall k :: 0 <= k < |calls| ==> calls[k].begin <= calls[k].end)
    && (calls != [] ==> lastExit <= calls[0].begin)
    && (forall k :: 0 < k < |calls| ==> calls[k - 1].end <= calls[k].begin)
  }

  // ---------------------------------------------------------------- what the records say

  /** A stretch of computation between two MPI calls. */
  datatype Gap = Gap(start: Time, stop: Time)

  function ExitBefore(lastExit: Time, calls: seq<Call>, k: nat): Time
    requires k <= |calls|
  {
    if k == 0 then lastExit else calls[k - 1].end
  }

  /** The gaps longer than the threshold, in order. */
  function LongGaps(lastExit: Time, threshold: nat, calls: seq<Call>): seq<Gap>
    decreases |calls|
  {
    if calls == [] then []
    else
      var n := |calls| - 1;
      var exit := ExitBefore(lastExit, calls, n);
      LongGaps(lastExit, threshold, calls[..n]) +
      if calls[n].begin - exit > threshold then [Gap(exit, calls[n].begin)] else []
  }

  /** A record without its counters. */
  datatype Mark = Mark(time: Time, event: int, value: int)

  function MarkOf(x: Record): Mark { Mark(x.time, x.event, x.value) }

  function Marks(records: seq<Record>): (r: seq<Mark>)
    ensures |r| == |records|
  {
    if records == [] then [] else Marks(records[..|records| - 1]) + [MarkOf(records[|records| - 1])]
  }

  lemma {:induction false} MarksIndex(records: seq<Record>, k: nat)
    requires k < |records|
    ensures Marks(records)[k] == MarkOf(records[k])
    decreases |records|
  {
    if k < |records| - 1 {
      MarksIndex(records[..|records| - 1], k);
    }
  }

  /** Every gap as a begin and an end mark. */
  function GapMarks(gaps: seq<Gap>): (r: seq<Mark>)
    ensures |r| == 2 * |gaps|
  {
    if gaps == [] then [] else GapMarks(gaps[..|gaps| - 1]) + MarksOf(gaps[|gaps| - 1])
  }

  function MarksOf(g: Gap): seq<Mark> { [Mark(g.start, CPU_BURST_EV, EVT_BEGIN), Mark(g.stop, CPU_BURST_EV, EVT_END)] }

  lemma MarksSnoc(records: seq<Record>, x: Record)
    ensures Marks(records + [x]) == Marks(records) + [MarkOf(x)]
  {
    assert (records + [x])[..|records|] == records;
  }

  lemma GapMarksSnoc(gaps: seq<Gap>, g: Gap)
    ensures GapMarks(gaps + [g]) == GapMarks(gaps) + MarksOf(g)
  {
    assert (gaps + [g])[..|gaps|] == gaps;
  }

  /** The begin of a call: what it adds to the buffer. */
  lemma BeginMarks(sampling: bool, t: Thread, threshold: nat, time: Time)
    requires t.lastExit <= time
    ensures Marks(MpiEvent(sampling, t, threshold, time, EVT_BEGIN).buffer) == Marks(t.buffer) +
      if time - t.lastExit > threshold then MarksOf(Gap(t.lastExit, time)) else []
  {
    if time - t.lastExit > threshold {
      var source := if sampling || t.accumulated then Accumulated else Read;
      var first, second := Record(t.lastExit, CPU_BURST_EV, EVT_BEGIN, source),
          Record(time, CPU_BURST_EV, EVT_END, Read);
      assert MpiEvent(sampling, t, threshold, time, EVT_BEGIN).buffer == t.buffer + [first] + [second];
      MarksOfTwo(t.buffer, first, second);
    }
  }

  /** A call begun before the last exit wraps the subtraction, so it counts as one after a long gap
      unless threshold and distance together reach 2^64. */
  lemma EarlyBegin(sampling: bool, t: Thread, threshold: nat, time: Time)
    requires time < t.lastExit
    ensures Marks(MpiEvent(sampling, t, threshold, time, EVT_BEGIN).buffer) == Marks(t.buffer) +
      if t.lastExit - time + threshold < 0x1_0000_0000_0000_0000 then MarksOf(Gap(t.lastExit, time)) else []
  {
    if Minus(time, t.lastExit) > threshold {
      var source := if sampling || t.accumulated then Accumulated else Read;
      var first, second := Record(t.lastExit, CPU_BURST_EV, EVT_BEGIN, source),
          Record(time, CPU_BURST_EV, EVT_END, Read);
      assert MpiEvent(sampling, t, threshold, time, EVT_BEGIN).buffer == t.buffer + [first] + [second];
      MarksOfTwo(t.buffer, first, second);
    }
  }

  lemma MarksOfTwo(records: seq<Record>, x: Record, y: Record)
    ensures Marks(records + [x] + [y]) == Marks(records) + [MarkOf(x), MarkOf(y)]
  {
    MarksSnoc(records, x);
    MarksSnoc(records + [x], y);
  }

  /** One call: its gap is recorded if it is long. */
  lemma OneCallMarks(sampling: bool, t: Thread, threshold: nat, call: Call)
    requires t.lastExit <= call.begin
    ensures var r := OneCall(sampling, t, threshold, call);
      && r.depth == t.depth && r.lastExit == call.end
      && Marks(r.buffer) == Marks(t.buffer) +
           if call.begin - t.lastExit > threshold then MarksOf(Gap(t.lastExit, call.begin)) else []
  {
    BeginMarks(sampling, t, threshold, call.begin);
    var mid := MpiEvent(sampling, t, threshold, call.begin, EVT_BEGIN);
    assert mid.depth == t.depth + 1;
    var r := MpiEvent(sampling, mid, threshold, call.end, EVT_END);
    assert r.buffer == mid.buffer && r.depth == mid.depth - 1;
  }

  lemma PrefixInOrder(lastExit: Time, calls: seq<Call>)
    requires InTimeOrder(lastExit, calls) && calls != []
    ensures var n := |calls| - 1;
      && InTimeOrder(lastExit, calls[..n]) && ExitBefore(lastExit, calls[..n], n) == ExitBefore(lastExit, calls, n)
      && ExitBefore(lastExit, calls, n) <= calls[n].begin
  {
  }

  /** After calls in time order the buffer has got exactly the long gaps, whichever macro wrote it;
      the depth is back, and the last exit is the end of the last call. */
  lemma {:induction false} BurstsAreLongGaps(sampling: bool, t: Thread, threshold: nat, calls: seq<Call>)
    requires InTimeOrder(t.lastExit, calls)
    ensures var r := Calls(sampling, t, threshold, calls);
      && r.depth == t.depth && r.lastExit == ExitBefore(t.lastExit, calls, |calls|)
      && Marks(r.buffer) == Marks(t.buffer) + GapMarks(LongGaps(t.lastExit, threshold, calls))
    decreases |calls|
  {
    if calls != [] {
      var n := |calls| - 1;
      PrefixInOrder(t.lastExit, calls);
      BurstsAreLongGaps(sampling, t, threshold, calls[..n]);
      var before := Calls(sampling, t, threshold, calls[..n]);
      OneCallMarks(sampling, before, threshold, calls[n]);
      LongGapsStep(t.lastExit, threshold, calls, Marks(t.buffer));
    }
  }

  /** What one more call adds to the marks of the long gaps. */
  lemma LongGapsStep(lastExit: Time, threshold: nat, calls: seq<Call>, marks: seq<Mark>)
    requires calls != []
    ensures var n := |calls| - 1;
      var gap := Gap(ExitBefore(lastExit, calls, n), calls[n].begin);
      (marks + GapMarks(LongGaps(lastExit, threshold, calls[..n])))
        + (if gap.stop - gap.start > threshold then MarksOf(gap) else [])
      == marks + GapMarks(LongGaps(lastExit, threshold, calls))
  {
    var n := |calls| - 1;
    var gaps, gap := LongGaps(lastExit, threshold, calls[..n]), Gap(ExitBefore(lastExit, calls, n), calls[n].begin);
    GapMarksSnoc(gaps, gap);
    assert gaps + [] == gaps;
    Associative(marks, GapMarks(gaps), if gap.stop - gap.start > threshold then MarksOf(gap) else []);
  }

  lemma Associative<T>(a: seq<T>, b: seq<T>, c: seq<T>)
    ensures (a + b) + c == a + (b + c)
  {
  }

  /** Gaps one after the other, each longer than the threshold, between two times. */
  ghost predicate InOrder(gaps: seq<Gap>, threshold: nat, from: Time, to: Time) {
    && (forall k :: 0 <= k < |gaps| ==>
        gaps[k].stop - gaps[k].start > threshold && from <= gaps[k].start && gaps[k].stop <= to)
    && (forall j, k :: 0 <= j < k < |gaps| ==> gaps[j].stop <= gaps[k].start)
  }

  lemma InOrderSnoc(gaps: seq<Gap>, threshold: nat, from: Time, to: Time, g: Gap, end: Time)
    requires InOrder(gaps, threshold, from, to) && from <= to <= g.start && g.stop - g.start > threshold &&
        g.stop <= end
    ensures InOrder(gaps + [g], threshold, from, end)
  {
  }

  /** The gaps found lie one after the other, each longer than the threshold. */
  lemma {:induction false} GapsInOrder(lastExit: Time, threshold: nat, calls: seq<Call>)
    requires InTimeOrder(lastExit, calls)
    ensures InOrder(LongGaps(lastExit, threshold, calls), threshold, lastExit, ExitBefore(lastExit, calls, |calls|))
    decreases |calls|
  {
    if calls != [] {
      var n := |calls| - 1;
      PrefixInOrder(lastExit, calls);
      GapsInOrder(lastExit, threshold, calls[..n]);
      ExitNotBefore(lastExit, calls, n);
      var gaps, exit := LongGaps(lastExit, threshold, calls[..n]), ExitBefore(lastExit, calls, n);
      if calls[n].begin - exit > threshold {
        InOrderSnoc(gaps, threshold, lastExit, exit, Gap(exit, calls[n].begin), calls[n].end);
      } else {
        assert LongGaps(lastExit, threshold, calls) == gaps;
      }
    }
  }

  lemma {:induction false} ExitNotBefore(lastExit: Time, calls: seq<Call>, k: nat)
    requires InTimeOrder(lastExit, calls) && k <= |calls|
    ensures lastExit <= ExitBefore(lastExit, calls, k)
  {
    if k > 0 {
      ExitNotBefore(lastExit, calls, k - 1);
    }
  }

  lemma {:induction false} AddedMark(before: seq<Record>, r: seq<Record>, added: seq<Mark>, i: nat)
    requires Marks(r) == Marks(before) + added && i < |added|
    ensures |r| == |before| + |added| && MarkOf(r[|before| + i]) == added[i]
  {
    MarksIndex(r, |before| + i);
    assert (Marks(before) + added)[|Marks(before)| + i] == added[i];
  }

  /** The i-th record after `before` begins or ends a burst in turn, and is not after its successor. */
  ghost predicate InTurn(before: seq<Record>, r: seq<Record>, i: nat)
    requires |before| + i < |r|
  {
    var k := |before| + i;
    && r[k].event == CPU_BURST_EV && r[k].value == (if i % 2 == 0 then EVT_BEGIN else EVT_END)
    && (k + 1 < |r| ==> r[k].time <= r[k + 1].time)
  }

  lemma {:induction false} GapRecordInTurn(before: seq<Record>, r: seq<Record>, gaps: seq<Gap>, threshold: nat,
      from: Time, to: Time, i: nat)
    requires InOrder(gaps, threshold, from, to) && Marks(r) == Marks(before) + GapMarks(gaps) && |before| + i < |r|
    ensures InTurn(before, r, i)
  {
    var m := GapMarks(gaps);
    assert |r| == |Marks(r)| == |before| + |m|;
    MarkAt(gaps, i, threshold, from, to);
    AddedMark(before, r, m, i);
    if i + 1 < |m| {
      AddedMark(before, r, m, i + 1);
    }
  }

  lemma {:induction false} TwoEach(before: seq<Record>, r: seq<Record>, gaps: seq<Gap>)
    requires Marks(r) == Marks(before) + GapMarks(gaps)
    ensures (|r| - |before|) % 2 == 0
  {
    assert |r| - |before| == 2 * |gaps|;
  }

  /** So over any calls in time order the burst records come in pairs of begin and end, and their
      times never go back. */
  lemma {:induction false} RecordsAlternate(sampling: bool, t: Thread, threshold: nat, calls: seq<Call>, i: nat)
    requires InTimeOrder(t.lastExit, calls) && |t.buffer| + i < |Calls(sampling, t, threshold, calls).buffer|
    ensures var r := Calls(sampling, t, threshold, calls).buffer;
      InTurn(t.buffer, r, i) && (|r| - |t.buffer|) % 2 == 0
  {
    BurstsAreLongGaps(sampling, t, threshold, calls);
    GapsInOrder(t.lastExit, threshold, calls);
    var gaps := LongGaps(t.lastExit, threshold, calls);
    var r := Calls(sampling, t, threshold, calls).buffer;
    TwoEach(t.buffer, r, gaps);
    GapRecordInTurn(t.buffer, r, gaps, threshold, t.lastExit, ExitBefore(t.lastExit, calls, |calls|), i);
  }

  lemma {:induction false} GapMark(gaps: seq<Gap>, k: nat)
    requires k < |gaps|
    ensures GapMarks(gaps)[2 * k] == MarksOf(gaps[k])[0] && GapMarks(gaps)[2 * k + 1] == MarksOf(gaps[k])[1]
    decreases |gaps|
  {
    var n := |gaps| - 1;
    if k < n {
      GapMark(gaps[..n], k);
    }
  }

  lemma {:induction false} MarkAt(gaps: seq<Gap>, i: nat, threshold: nat, from: Time, to: Time)
    requires i < 2 * |gaps| && InOrder(gaps, threshold, from, to)
    ensures var m := GapMarks(gaps);
      && m[i].event == CPU_BURST_EV && m[i].value == (if i % 2 == 0 then EVT_BEGIN else EVT_END)
      && (i + 1 < |m| ==> m[i].time <= m[i + 1].time)
  {
    var k := i / 2;
    GapMark(gaps, k);
    assert gaps[k].stop - gaps[k].start > threshold;
    if k + 1 < |gaps| {
      GapMark(gaps, k + 1);
      assert gaps[k].stop <= gaps[k + 1].start;
    }
  }

  lemma OneCallCounters(sampling: bool, t: Thread, threshold: nat, call: Call)
    requires t.lastExit <= call.begin
    ensures var r := OneCall(sampling, t, threshold, call);
      && r.accumulated && r.lastExit == call.end && t.buffer <= r.buffer
      && (call.begin - t.lastExit <= threshold ==> r.buffer == t.buffer)
      && (call.begin - t.lastExit > threshold ==>
            && |r.buffer| == |t.buffer| + 2
            && r.buffer[|t.buffer|].counters == (if sampling || t.accumulated then Accumulated else Read)
            && r.buffer[|t.buffer| + 1].counters == Read)
  {
    var mid := MpiEvent(sampling, t, threshold, call.begin, EVT_BEGIN);
    assert OneCall(sampling, t, threshold, call).buffer == mid.buffer;
  }

  /** The counters of what one call adds to a buffer with evenly many records beyond the first `size`. */
  lemma NewCounters(sampling: bool, t: Thread, threshold: nat, call: Call, size: nat, i: nat)
    requires t.lastExit <= call.begin && size <= |t.buffer| <= size + i && (|t.buffer| - size) % 2 == 0
    requires size + i < |OneCall(sampling, t, threshold, call).buffer|
    ensures OneCall(sampling, t, threshold, call).buffer[size + i].counters
         == if i % 2 == 0 && (sampling || t.accumulated) then Accumulated else Read
    ensures call.begin - t.lastExit > threshold
  {
    OneCallCounters(sampling, t, threshold, call);
    assert size + i == |t.buffer| || size + i == |t.buffer| + 1;
  }

  /** Where the counters of the i-th new record come from: a record that ends a burst reads them; one
      that begins it has those accumulated, unless it is the very first and nothing was. */
  ghost predicate CountersAt(sampling: bool, t: Thread, threshold: nat, calls: seq<Call>, r: seq<Record>, i: nat) {
    && calls != [] && |t.buffer| + i < |r|
    && r[|t.buffer| + i].counters ==
         if i % 2 == 1 || (i == 0 && !sampling && !t.accumulated && calls[0].begin - t.lastExit > threshold) then Read
         else Accumulated
  }

  /** So it is over any calls in time order. */
  lemma {:induction false} CountersOf(sampling: bool, t: Thread, threshold: nat, calls: seq<Call>, i: nat)
    requires InTimeOrder(t.lastExit, calls) && |t.buffer| + i < |Calls(sampling, t, threshold, calls).buffer|
    ensures CountersAt(sampling, t, threshold, calls, Calls(sampling, t, threshold, calls).buffer, i)
    decreases |calls|
  {
    var n := |calls| - 1;
    var before := Calls(sampling, t, threshold, calls[..n]);
    PrefixInOrder(t.lastExit, calls);
    BurstsAreLongGaps(sampling, t, threshold, calls[..n]);
    if |t.buffer| + i < |before.buffer| {
      CountersOf(sampling, t, threshold, calls[..n], i);
      CountersStay(sampling, t, threshold, calls, before, i);
    } else {
      TwoEach(t.buffer, before.buffer, LongGaps(t.lastExit, threshold, calls[..n]));
      CountersNew(sampling, t, threshold, calls, before, i);
    }
  }

  lemma CountersStay(sampling: bool, t: Thread, threshold: nat, calls: seq<Call>, before: Thread, i: nat)
    requires calls != [] && before.lastExit <= calls[|calls| - 1].begin
    requires CountersAt(sampling, t, threshold, calls[..|calls| - 1], before.buffer, i)
    ensures var r := OneCall(sampling, before, threshold, calls[|calls| - 1]).buffer;
      CountersAt(sampling, t, threshold, calls, r, i)
  {
    OneCallCounters(sampling, before, threshold, calls[|calls| - 1]);
  }

  lemma {:induction false} CountersNew(sampling: bool, t: Thread, threshold: nat, calls: seq<Call>, before: Thread,
      i: nat)
    requires InTimeOrder(t.lastExit, calls) && calls != []
    requires before == Calls(sampling, t, threshold, calls[..|calls| - 1])
    requires before.lastExit <= calls[|calls| - 1].begin && (|before.buffer| - |t.buffer|) % 2 == 0
    requires |t.buffer| <= |before.buffer| <= |t.buffer| + i
    requires |t.buffer| + i < |OneCall(sampling, before, threshold, calls[|calls| - 1]).buffer|
    ensures var r := OneCall(sampling, before, threshold, calls[|calls| - 1]).buffer;
      CountersAt(sampling, t, threshold, calls, r, i)
  {
    var n := |calls| - 1;
    NewCounters(sampling, before, threshold, calls[n], |t.buffer|, i);
    if n > 0 {
      PrefixInOrder(t.lastExit, calls);
      CallsAccumulate(sampling, t, threshold, calls[..n]);
      FirstGapShort(sampling, t, threshold, calls[..n]);
    }
  }

  lemma {:induction false} FirstGapShort(sampling: bool, t: Thread, threshold: nat, calls: seq<Call>)
    requires InTimeOrder(t.lastExit, calls) && calls != []
    ensures var r := Calls(sampling, t, threshold, calls).buffer;
      |r| >= |t.buffer| && (|r| == |t.buffer| ==> calls[0].begin - t.lastExit <= threshold)
    decreases |calls|
  {
    var n := |calls| - 1;
    PrefixInOrder(t.lastExit, calls);
    BurstsAreLongGaps(sampling, t, threshold, calls[..n]);
    OneCallCounters(sampling, Calls(sampling, t, threshold, calls[..n]), threshold, calls[n]);
    if n > 0 {
      FirstGapShort(sampling, t, threshold, calls[..n]);
    }
  }

  lemma {:induction false} CallsAccumulate(sampling: bool, t: Thread, threshold: nat, calls: seq<Call>)
    requires InTimeOrder(t.lastExit, calls) && calls != []
    ensures Calls(sampling, t, threshold, calls).accumulated
  {
    PrefixInOrder(t.lastExit, calls);
    BurstsAreLongGaps(sampling, t, threshold, calls[..|calls| - 1]);
    OneCallCounters(sampling, Calls(sampling, t, threshold, calls[..|calls| - 1]), threshold, calls[|calls| - 1]);
  }

  /** An MPI event as the macro gets it. */
  datatype Event = Event(time: Time, value: int)

  function Events(sampling: bool, t: Thread, threshold: nat, events: seq<Event>): Thread
    decreases |events|
  {
    if events == [] then t
    else
      var n := |events| - 1;
      MpiEvent(sampling, Events(sampling, t, threshold, events[..n]), threshold, events[n].time, events[n].value)
  }

  /** The same but for where counters come from. */
  ghost predicate Alike(t: Thread, u: Thread) {
    t.lastExit == u.lastExit && t.lastBegin == u.lastBegin && t.depth == u.depth && Marks(t.buffer) == Marks(u.buffer)
  }

  lemma OneEventAlike(t: Thread, u: Thread, threshold: nat, time: Time, value: int)
    requires Alike(t, u)
    ensures Alike(MpiEvent(true, t, threshold, time, value), MpiEvent(false, u, threshold, time, value))
  {
    if value == EVT_BEGIN && Minus(time, t.lastExit) > threshold {
      var source := if u.accumulated then Accumulated else Read;
      MarksSnoc(t.buffer, Record(t.lastExit, CPU_BURST_EV, value, Accumulated));
      MarksSnoc(u.buffer, Record(t.lastExit, CPU_BURST_EV, value, source));
      MarksSnoc(t.buffer + [Record(t.lastExit, CPU_BURST_EV, value, Accumulated)], Record(time, CPU_BURST_EV, 0, Read));
      MarksSnoc(u.buffer + [Record(t.lastExit, CPU_BURST_EV, value, source)], Record(time, CPU_BURST_EV, 0, Read));
    }
  }

  /** On any events, nested or out of order too, both macros write the same times and values; only
      the counters may come from elsewhere. */
  lemma {:induction false} VariantsAgree(t: Thread, threshold: nat, events: seq<Event>)
    ensures Alike(Events(true, t, threshold, events), Events(false, t, threshold, events))
    decreases |events|
  {
    if events != [] {
      var n := |events| - 1;
      VariantsAgree(t, threshold, events[..n]);
      OneEventAlike(Events(true, t, threshold, events[..n]), Events(false, t, threshold, events[..n]),
                    threshold, events[n].time, events[n].value);
    }
  }

  function CountOf(events: seq<Event>, value: int): nat
    decreases |events|
  {
    if events == [] then 0
    else CountOf(events[..|events| - 1], value) + if events[|events| - 1].value == value then 1 else 0
  }

  /** Event k is the latest one with this value. */
  ghost predicate IsLatest(events: seq<Event>, k: nat, value: int) {
    k < |events| && events[k].value == value && forall l :: k < l < |events| ==> events[l].value != value
  }

  /** Over any events the depth is the number of calls begun and not ended, and the last begin and
      the last exit are the times of the latest such events. */
  lemma {:induction false} DepthCounts(sampling: bool, t: Thread, threshold: nat, events: seq<Event>)
    ensures var r := Events(sampling, t, threshold, events);
      && r.depth == t.depth + CountOf(events, 1) - CountOf(events, 0)
      && (forall k: nat :: IsLatest(events, k, 1) ==> r.lastBegin == events[k].time)
      && (forall k: nat :: IsLatest(events, k, 0) ==> r.lastExit == events[k].time)
    decreases |events|
  {
    if events != [] {
      var n := |events| - 1;
      DepthCounts(sampling, t, threshold, events[..n]);
      EventEffect(sampling, Events(sampling, t, threshold, events[..n]), threshold, events[n].time, events[n].value);
      LatestIs(events, 1);
      LatestIs(events, 0);
    }
  }

  lemma EventEffect(sampling: bool, t: Thread, threshold: nat, time: Time, value: int)
    ensures var r := MpiEvent(sampling, t, threshold, time, value);
      && r.depth == t.depth + (if value == 1 then 1 else 0) - (if value == 0 then 1 else 0)
      && r.lastBegin == (if value == 1 then time else t.lastBegin)
      && r.lastExit == if value == 0 then time else t.lastExit
  {
  }

  /** The latest event of a kind is the new one, or the latest of those before. */
  lemma LatestIs(events: seq<Event>, value: int)
    requires events != []
    ensures var n := |events| - 1;
      forall k: nat :: IsLatest(events, k, value) ==>
        if events[n].value == value then k == n
        else k < n && events[..n][k] == events[k] && IsLatest(events[..n], k, value)
  {
  }

  // ---------------------------------------------------------------- when times go back

  /** Events in the order of their times, none before the last exit. */
  ghost predicate EventsInOrder(lastExit: Time, events: seq<Event>) {
    && (events != [] ==> lastExit <= events[0].time)
    && forall k :: 0 < k < |events| ==> events[k - 1].time <= events[k].time
  }

  /** The time of the last end among some events. */
  function ExitAfter(lastExit: Time, events: seq<Event>): Time
    decreases |events|
  {
    if events == [] then lastExit
    else
      var n := |events| - 1;
      if events[n].value == EVT_END then events[n].time else ExitAfter(lastExit, events[..n])
  }

  /** Event a begins a call after a gap longer than the threshold. */
  predicate LongBegin(lastExit: Time, threshold: nat, events: seq<Event>, a: int) {
    && 0 <= a < |events| && events[a].value == EVT_BEGIN
    && events[a].time - ExitAfter(lastExit, events[..a]) > threshold
  }

  /** No end follows that begin. */
  ghost predicate OpenSince(lastExit: Time, threshold: nat, events: seq<Event>, a: int) {
    LongBegin(lastExit, threshold, events, a) && forall k :: a < k < |events| ==> events[k].value != EVT_END
  }

  /** Event b begins another call before one begun after a long gap ends. */
  ghost predicate Reopened(lastExit: Time, threshold: nat, events: seq<Event>, a: int, b: int) {
    && a < b < |events| && LongBegin(lastExit, threshold, events, a) && events[b].value == EVT_BEGIN
    && forall k :: a < k < b ==> events[k].value != EVT_END
  }

  ghost predicate SomeOpen(lastExit: Time, threshold: nat, events: seq<Event>) {
    exists a :: OpenSince(lastExit, threshold, events, a)
  }

  ghost predicate SomeReopened(lastExit: Time, threshold: nat, events: seq<Event>) {
    exists a, b :: Reopened(lastExit, threshold, events, a, b)
  }

  /** The gap before an event, counted from the last end before it. */
  predicate LongGap(lastExit: Time, threshold: nat, events: seq<Event>, time: Time) {
    time - ExitAfter(lastExit, events) > threshold
  }

  lemma LongBeginSnoc(lastExit: Time, threshold: nat, events: seq<Event>, e: Event, a: int)
    ensures LongBegin(lastExit, threshold, events + [e], a)
       <==> if a == |events| then e.value == EVT_BEGIN && LongGap(lastExit, threshold, events, e.time)
            else LongBegin(lastExit, threshold, events, a)
  {
    if 0 <= a <= |events| {
      assert (events + [e])[..a] == events[..a];
      assert events[..|events|] == events;
    }
  }

  lemma OpenSnoc(lastExit: Time, threshold: nat, events: seq<Event>, e: Event)
    ensures SomeOpen(lastExit, threshold, events + [e])
       <==> (e.value == EVT_BEGIN && LongGap(lastExit, threshold, events, e.time))
            || (e.value != EVT_END && SomeOpen(lastExit, threshold, events))
  {
    var r, n := events + [e], |events|;
    forall a
      ensures OpenSince(lastExit, threshold, r, a)
         <==> if a == n then e.value == EVT_BEGIN && LongGap(lastExit, threshold, events, e.time)
              else OpenSince(lastExit, threshold, events, a) && e.value != EVT_END
    {
      LongBeginSnoc(lastExit, threshold, events, e, a);
      assert forall k :: 0 <= k < n ==> r[k] == events[k];
      if 0 <= a < n && (forall k :: a < k < |r| ==> r[k].value != EVT_END) {
        assert r[n] == e;
      }
    }
    if e.value == EVT_BEGIN && LongGap(lastExit, threshold, events, e.time) {
      assert OpenSince(lastExit, threshold, r, n);
    } else if e.value != EVT_END && SomeOpen(lastExit, threshold, events) {
      var a :| OpenSince(lastExit, threshold, events, a);
      assert OpenSince(lastExit, threshold, r, a);
    }
  }

  lemma ReopenedSnoc(lastExit: Time, threshold: nat, events: seq<Event>, e: Event)
    ensures SomeReopened(lastExit, threshold, events + [e])
       <==> SomeReopened(lastExit, threshold, events)
            || (e.value == EVT_BEGIN && SomeOpen(lastExit, threshold, events))
  {
    var r, n := events + [e], |events|;
    forall a, b
      ensures Reopened(lastExit, threshold, r, a, b)
         <==> if b == n then OpenSince(lastExit, threshold, events, a) && e.value == EVT_BEGIN
              else Reopened(lastExit, threshold, events, a, b)
    {
      LongBeginSnoc(lastExit, threshold, events, e, a);
      assert forall k :: 0 <= k < n ==> r[k] == events[k];
    }
    if SomeReopened(lastExit, threshold, events) {
      var a, b :| Reopened(lastExit, threshold, events, a, b);
      assert Reopened(lastExit, threshold, r, a, b);
    } else if e.value == EVT_BEGIN && SomeOpen(lastExit, threshold, events) {
      var a :| OpenSince(lastExit, threshold, events, a);
      assert Reopened(lastExit, threshold, r, a, n);
    }
  }

  /** The times of some records never go back. */
  ghost predicate TimesGrow(buffer: seq<Record>) {
    forall k :: 0 < k < |buffer| ==> buffer[k - 1].time <= buffer[k].time
  }

  lemma TimesGrowSnoc(buffer: seq<Record>, x: Record)
    ensures TimesGrow(buffer + [x]) <==> TimesGrow(buffer) && (buffer != [] ==> buffer[|buffer| - 1].time <= x.time)
  {
    var r := buffer + [x];
    assert forall k :: 0 <= k < |buffer| ==> r[k] == buffer[k];
    if TimesGrow(r) && buffer != [] {
      assert r[|buffer| - 1].time <= r[|buffer|].time;
    }
  }

  /** The last record is no later than a time. */
  predicate EndsBy(buffer: seq<Record>, time: Time) { buffer != [] ==> buffer[|buffer| - 1].time <= time }

  /** Time of the latest event. */
  function Latest(lastExit: Time, events: seq<Event>): Time {
    if events == [] then lastExit else events[|events| - 1].time
  }

  /** What holds along events in order: records grow unless a call was begun inside a long one; if
      they do, the last record is after the last exit exactly while a long call is open. */
  ghost predicate InStep(u: Thread, lastExit: Time, threshold: nat, events: seq<Event>) {
    && u.lastExit == ExitAfter(lastExit, events) <= Latest(lastExit, events)
    && (SomeOpen(lastExit, threshold, events) ==> LongGap(lastExit, threshold, events, Latest(lastExit, events)))
    && (TimesGrow(u.buffer) <==> !SomeReopened(lastExit, threshold, events))
    && (TimesGrow(u.buffer) ==>
          EndsBy(u.buffer, Latest(lastExit, events))
          && (SomeOpen(lastExit, threshold, events) <==> !EndsBy(u.buffer, u.lastExit)))
  }

  lemma OneEventInStep(sampling: bool, u: Thread, lastExit: Time, threshold: nat, events: seq<Event>, e: Event)
    requires InStep(u, lastExit, threshold, events) && Latest(lastExit, events) <= e.time
    ensures InStep(MpiEvent(sampling, u, threshold, e.time, e.value), lastExit, threshold, events + [e])
  {
    OpenSnoc(lastExit, threshold, events, e);
    ReopenedSnoc(lastExit, threshold, events, e);
    assert (events + [e])[..|events|] == events;
    if e.value == EVT_BEGIN && e.time - u.lastExit > threshold {
      var source := if sampling || u.accumulated then Accumulated else Read;
      var first := Record(u.lastExit, CPU_BURST_EV, e.value, source);
      TimesGrowSnoc(u.buffer, first);
      TimesGrowSnoc(u.buffer + [first], Record(e.time, CPU_BURST_EV, 0, Read));
    }
  }

  lemma {:induction false} EventsInStep(sampling: bool, t: Thread, threshold: nat, events: seq<Event>)
    requires EventsInOrder(t.lastExit, events) && TimesGrow(t.buffer) && EndsBy(t.buffer, t.lastExit)
    ensures InStep(Events(sampling, t, threshold, events), t.lastExit, threshold, events)
    decreases |events|
  {
    if events != [] {
      var n := |events| - 1;
      EventsInStep(sampling, t, threshold, events[..n]);
      assert events == events[..n] + [events[n]];
      OneEventInStep(sampling, Events(sampling, t, threshold, events[..n]), t.lastExit, threshold, events[..n],
          events[n]);
    }
  }

  /** Over any events in order, the times of the records never go back if and only if no call is
      begun before one that was begun after a long gap has ended. */
  lemma TimesGrowExactly(sampling: bool, t: Thread, threshold: nat, events: seq<Event>)
    requires EventsInOrder(t.lastExit, events) && TimesGrow(t.buffer) && EndsBy(t.buffer, t.lastExit)
    ensures TimesGrow(Events(sampling, t, threshold, events).buffer)
       <==> forall a, b :: !Reopened(t.lastExit, threshold, events, a, b)
  {
    EventsInStep(sampling, t, threshold, events);
  }

  /** A call made inside one that follows a long gap reports that gap twice: times go back. */
  lemma NestedCallGoesBack(sampling: bool, t: Thread, threshold: nat, outer: Time, inner: Time)
    requires t.buffer == [] && outer - t.lastExit > threshold && outer <= inner
    ensures var r := Events(sampling, t, threshold, [Event(outer, EVT_BEGIN)] + [Event(inner, EVT_BEGIN)]).buffer;
      !TimesGrow(r) && |r| == 4 && r[1].time == outer > t.lastExit == r[2].time
  {
    var events := [Event(outer, EVT_BEGIN)] + [Event(inner, EVT_BEGIN)];
    assert events[..0] == [] && events[..1] == [Event(outer, EVT_BEGIN)];
    var once := MpiEvent(sampling, t, threshold, outer, EVT_BEGIN);
    assert Events(sampling, t, threshold, events[..0]) == t && Events(sampling, t, threshold, events[..1]) == once;
    assert once.lastExit == t.lastExit && |once.buffer| == 2;
    assert Events(sampling, t, threshold, events) == MpiEvent(sampling, once, threshold, inner, EVT_BEGIN);
    assert Reopened(t.lastExit, threshold, events, 0, 1);
    TimesGrowExactly(sampling, t, threshold, events);
  }

  // ---------------------------------------------------------------- after MPI_Init

  /** An initialisation call: two events, of which only the end counts as an exit. */
  function InitCall(t: Thread, event: int, call: Call): Thread {
    MpiInitEvent(MpiInitEvent(t, event, call.begin, EVT_BEGIN), event, call.end, EVT_END)
  }

  /** After an initialisation the gaps are measured from its end, whatever came before: the buffer
      gets the two records of the initialisation and then exactly the long gaps. */
  lemma {:induction false} BurstsAfterInit(sampling: bool, t: Thread, threshold: nat, event: int, init: Call,
      calls: seq<Call>)
    requires InTimeOrder(init.end, calls)
    ensures var r := Calls(sampling, InitCall(t, event, init), threshold, calls);
      && r.depth == t.depth && r.lastExit == ExitBefore(init.end, calls, |calls|)
      && Marks(r.buffer) == Marks(t.buffer) + [Mark(init.begin, event, EVT_BEGIN)] + [Mark(init.end, event, EVT_END)]
           + GapMarks(LongGaps(init.end, threshold, calls))
    ensures var u := InitCall(t, event, init);
      !u.accumulated && forall k :: |t.buffer| <= k < |u.buffer| ==> u.buffer[k].counters == Read
  {
    var first, second := Record(init.begin, event, EVT_BEGIN, Read), Record(init.end, event, EVT_END, Read);
    MarksSnoc(t.buffer, first);
    MarksSnoc(t.buffer + [first], second);
    BurstsAreLongGaps(sampling, InitCall(t, event, init), threshold, calls);
  }

  // ---------------------------------------------------------------- the macros in place

  class TracingThread {
    const sampling: bool
    const threshold: nat
    var lastExit: Time
    var lastBegin: Time
    var depth: int
    var accumulated: bool
    var buffer: seq<Record>

    ghost function Value(): Thread
      reads this
    {
      Thread(lastExit, lastBegin, depth, accumulated, buffer)
    }

    constructor (sampling: bool, threshold: nat)
      ensures Value() == Thread(0, 0, 0, false, []) && this.sampling == sampling && this.threshold == threshold
    {
      this.sampling, this.threshold := sampling, threshold;
      lastExit, lastBegin, depth, accumulated, buffer := 0, 0, 0, false, [];
    }

    method TraceMpiInitEvent(time: Time, event: int, value: int)
      modifies this
      ensures Value() == MpiInitEvent(old(Value()), event, time, value)
    {
      accumulated := false;
      buffer := buffer + [Record(time, event, value, Read)];
      if value == EVT_END {
        lastExit := time;
      }
    }

    method TraceMpiEvent(time: Time, value: int)
      modifies this
      ensures Value() == MpiEvent(sampling, old(Value()), threshold, time, value)
    {
      if sampling {
        BurstsModeSampling(time, value);
      } else {
        BurstsModePlain(time, value);
      }
      if value == EVT_BEGIN {
        depth := depth + 1;
        lastBegin := time;
      } else if value == EVT_END {
        depth := depth - 1;
        lastExit := time;
      }
    }

    method BurstsModeSampling(time: Time, value: int)
      modifies this
      ensures Value() == SamplingEvent(old(Value()), threshold, time, value)
    {
      if value == EVT_BEGIN {
        if Minus(time, lastExit) > threshold {
          buffer := buffer + [Record(lastExit, CPU_BURST_EV, value, Accumulated)];
          buffer := buffer + [Record(time, CPU_BURST_EV, 0, Read)];
          accumulated := false;
        }
      } else {
        accumulated := true;
      }
    }

    method BurstsModePlain(time: Time, value: int)
      modifies this
      ensures Value() == PlainEvent(old(Value()), threshold, time, value)
    {
      if value == EVT_BEGIN {
        if Minus(time, lastExit) > threshold {
          var source := Read;
          if accumulated {
            source := Accumulated;
            accumulated := false;
          }
          buffer := buffer + [Record(lastExit, CPU_BURST_EV, value, source)];
          buffer := buffer + [Record(time, CPU_BURST_EV, 0, Read)];
        } else {
          accumulated := true;
        }
      } else {
        accumulated := true;
      }
    }
  }
}
