/** Names of intermediate trace files (common.h) and how genmpits.c reads them back. */
module TraceFiles {
  import opened Common

  const INT_MAX := 0x7FFF_FFFF
  const DIGITS_PID := 10
  const DIGITS_TASK := 6
  const DIGITS_THREAD := 6
  const EXT_MPIT := ".mpit"

  // ---------------------------------------------------------------- writing

  function Digit(d: int): char
    requires 0 <= d < 10
  {
    '0' + d as char
  }

  function Decimal(v: nat): string {
    if v < 10 then [Digit(v)] else Decimal(v / 10) + [Digit(v % 10)]
  }

  function Zeros(n: nat): string {
    if n == 0 then "" else Zeros(n - 1) + ['0']
  }

  /** Decimal notation with at least `width` digits. */
  function Padded(v: nat, width: nat): string {
    Zeros(Max(width - |Decimal(v)|, 0)) + Decimal(v)
  }

  /** Directory, application and host, then the three numbers and the extension. */
  function FileName(prefix: string, pid: nat, task: nat, thread: nat): string {
    prefix + Padded(pid, DIGITS_PID) + Padded(task, DIGITS_TASK) + Padded(thread, DIGITS_THREAD) + EXT_MPIT
  }

  // ---------------------------------------------------------------- reading

  function DigitValue(c: char): int { c as int - '0' as int }

  /** What a digit loop makes of some characters. */
  function Number(s: string): int
    decreases |s|
  {
    if s == "" then 0 else Number(s[..|s| - 1]) * 10 + DigitValue(s[|s| - 1])
  }

  /** Long enough for the three numbers and the extension. */
  predicate Readable(name: string) { |name| >= |EXT_MPIT| + DIGITS_THREAD + DIGITS_TASK + DIGITS_PID }

  /** `n` characters ending `back` characters before the end of the name. */
  function FieldOf(name: string, back: nat, n: nat): string
    requires back + n <= |name|
  {
    name[|name| - back - n..|name| - back]
  }

  function TaskOf(name: string): int
    requires Readable(name)
  {
    Number(FieldOf(name, |EXT_MPIT| + DIGITS_THREAD, DIGITS_TASK))
  }

  function PidOf(name: string): int
    requires Readable(name)
  {
    Number(FieldOf(name, |EXT_MPIT| + DIGITS_THREAD + DIGITS_TASK, DIGITS_PID))
  }

  /** A digit loop over the `n` characters that end `back` characters before the end. */
  method ReadNumber(name: string, back: nat, n: nat) returns (v: int)
    requires back + n <= |name|
    ensures v == Number(FieldOf(name, back, n))
  {
    v := 0;
    ghost var field := FieldOf(name, back, n);
    for i := 0 to n
      invariant v == Number(field[..i])
    {
      v := v * 10 + DigitValue(name[|name| - back - n + i]);
      assert field[..i + 1][..i] == field[..i];
    }
    assert field[..n] == field;
  }

  predicate AllDigits(s: string) {
    forall k :: 0 <= k < |s| ==> '0' <= s[k] <= '9'
  }

  function Pow10(n: nat): nat { if n == 0 then 1 else 10 * Pow10(n - 1) }

  lemma {:induction false} DecimalRead(v: nat)
    ensures AllDigits(Decimal(v)) && |Decimal(v)| > 0 && Number(Decimal(v)) == v
  {
    if v < 10 {
      assert Decimal(v)[..0] == "";
    } else {
      DecimalRead(v / 10);
      assert Decimal(v)[..|Decimal(v)| - 1] == Decimal(v / 10);
    }
  }

  lemma {:induction false} ZerosAreZero(n: nat)
    ensures |Zeros(n)| == n && AllDigits(Zeros(n)) && Number(Zeros(n)) == 0
  {
    if n > 0 {
      ZerosAreZero(n - 1);
      assert Zeros(n)[..n - 1] == Zeros(n - 1);
    }
  }

  /** Leading zeros do not change a number. */
  lemma {:induction false} ZerosRead(n: nat, s: string)
    ensures Number(Zeros(n) + s) == Number(s)
    decreases |s|
  {
    if s == "" {
      ZerosAreZero(n);
      assert Zeros(n) + s == Zeros(n);
    } else {
      ZerosRead(n, s[..|s| - 1]);
      assert (Zeros(n) + s)[..|Zeros(n) + s| - 1] == Zeros(n) + s[..|s| - 1];
    }
  }

  /** Reading back what was written gives the number, however wide. */
  lemma PaddedRead(v: nat, width: nat)
    ensures AllDigits(Padded(v, width)) && Number(Padded(v, width)) == v &&
        |Padded(v, width)| == Max(width, |Decimal(v)|)
  {
    DecimalRead(v);
    ZerosAreZero(Max(width - |Decimal(v)|, 0));
    ZerosRead(Max(width - |Decimal(v)|, 0), Decimal(v));
  }

  lemma {:induction false} DecimalLength(v: nat, n: nat)
    requires n > 0
    ensures |Decimal(v)| <= n <==> v < Pow10(n)
  {
    if v < 10 {
      PowGrows(1, n);
    } else if n == 1 {
      DecimalRead(v / 10);
    } else {
      DecimalLength(v / 10, n - 1);
    }
  }

  lemma {:induction false} PowGrows(m: nat, n: nat)
    requires m <= n
    ensures Pow10(m) <= Pow10(n) && Pow10(1) == 10
    decreases n
  {
    if m < n {
      PowGrows(m, n - 1);
    }
  }

  /** Some digits stay below the power of ten of their length. */
  lemma {:induction false} NumberBelow(s: string)
    requires AllDigits(s)
    ensures 0 <= Number(s) < Pow10(|s|)
    decreases |s|
  {
    if s != "" {
      NumberBelow(s[..|s| - 1]);
    }
  }

  /** On the way through some digits the loop never holds more than in the end. */
  lemma {:induction false} PartialsBelow(s: string, k: nat)
    requires AllDigits(s) && k <= |s|
    ensures 0 <= Number(s[..k]) <= Number(s)
    decreases |s|
  {
    NumberBelow(s[..k]);
    if k < |s| {
      assert s[..|s| - 1][..k] == s[..k];
      PartialsBelow(s[..|s| - 1], k);
    } else {
      assert s[..k] == s;
    }
  }

  lemma Powers()
    ensures Pow10(6) == 1_000_000 && Pow10(10) == 10_000_000_000
  {
    assert Pow10(3) == 1000;
    assert Pow10(6) == 1_000_000;
    assert Pow10(8) == 100_000_000;
  }

  // ---------------------------------------------------------------- round trip

  /** The three numbers of a name, one after the other, and where they are read. */
  lemma FieldsApart(prefix: string, pid: string, task: string, thread: string)
    requires |thread| == DIGITS_THREAD && |task| >= DIGITS_TASK && |pid| >= DIGITS_PID
    ensures var name := prefix + pid + task + thread + EXT_MPIT;
      && Readable(name)
      && FieldOf(name, |EXT_MPIT| + DIGITS_THREAD, DIGITS_TASK) == task[|task| - DIGITS_TASK..]
      && (|task| == DIGITS_TASK ==>
            FieldOf(name, |EXT_MPIT| + DIGITS_THREAD + DIGITS_TASK, DIGITS_PID) == pid[|pid| - DIGITS_PID..])
  {
  }

  /** The directory, application and host come first; of numbers in range, the thread is the last six
      digits before the extension. */
  lemma ThreadReadsBack(prefix: string, pid: nat, task: nat, thread: nat)
    requires pid <= INT_MAX && task < 1_000_000 && thread < 1_000_000
    ensures var name, n := FileName(prefix, pid, task, thread), |prefix|;
      && |name| == n + 27 && name[..n] == prefix && name[n + 22..] == ".mpit"
      && AllDigits(name[n..n + 22]) && Number(name[n..n + 10]) == pid && Number(name[n + 10..n + 16]) == task
      && Number(name[n + 16..n + 22]) == thread
  {
    var p, t, h := Padded(pid, DIGITS_PID), Padded(task, DIGITS_TASK), Padded(thread, DIGITS_THREAD);
    Powers();
    PaddedRead(pid, DIGITS_PID);
    PaddedRead(task, DIGITS_TASK);
    PaddedRead(thread, DIGITS_THREAD);
    DecimalLength(pid, DIGITS_PID);
    DecimalLength(task, DIGITS_TASK);
    DecimalLength(thread, DIGITS_THREAD);
    FiveParts(prefix, p, t, h, EXT_MPIT);
  }

  lemma FiveParts(a: string, b: string, c: string, d: string, e: string)
    requires |b| == 10 && |c| == |d| == 6 && AllDigits(b) && AllDigits(c) && AllDigits(d)
    ensures var s, n := a + b + c + d + e, |a|;
      && |s| == n + 22 + |e| && s[..n] == a && s[n..n + 10] == b && s[n + 10..n + 16] == c && s[n + 16..n + 22] == d
      && s[n + 22..] == e && AllDigits(s[n..n + 22])
  {
    var s, n := a + b + c + d + e, |a|;
    assert s[n..n + 22] == b + c + d;
  }

  /** Files of one directory, application and host never share a name. */
  lemma NamesDiffer(a: Source, b: Source)
    requires InRange(a) && InRange(b)
    ensures NameOf(a) == NameOf(b) <==> a == b
  {
    ThreadReadsBack(a.prefix, a.pid, a.task, a.thread);
    ThreadReadsBack(b.prefix, b.pid, b.task, b.thread);
  }

  /** Every name written from a pid, a task and a thread in range reads back as written, and the
      digit loops stay within an int all the way. */
  lemma NameRoundTrip(prefix: string, pid: nat, task: nat, thread: nat, k: nat)
    requires pid <= INT_MAX && task < 1_000_000 && thread < 1_000_000 && k <= 10
    ensures var name := FileName(prefix, pid, task, thread);
      && Readable(name) && PidOf(name) == pid && TaskOf(name) == task
      && 0 <= Number(FieldOf(name, |EXT_MPIT| + DIGITS_THREAD + DIGITS_TASK, DIGITS_PID)[..k]) <= INT_MAX
      && (k <= 6 ==> 0 <= Number(FieldOf(name, |EXT_MPIT| + DIGITS_THREAD, DIGITS_TASK)[..k]) <= INT_MAX)
  {
    var p, t, h := Padded(pid, DIGITS_PID), Padded(task, DIGITS_TASK), Padded(thread, DIGITS_THREAD);
    Powers();
    PaddedRead(pid, DIGITS_PID);
    PaddedRead(task, DIGITS_TASK);
    PaddedRead(thread, DIGITS_THREAD);
    DecimalLength(pid, DIGITS_PID);
    DecimalLength(task, DIGITS_TASK);
    DecimalLength(thread, DIGITS_THREAD);
    FieldsApart(prefix, p, t, h);
    assert p[|p| - DIGITS_PID..] == p && t[|t| - DIGITS_TASK..] == t;
    PartialsBelow(p, k);
    if k <= 6 {
      PartialsBelow(t, k);
    }
  }

  /** A task number reads back exactly when it has no more than six digits. */
  lemma TaskReadsBack(prefix: string, pid: nat, task: nat, thread: nat)
    requires pid <= INT_MAX && thread < 1_000_000
    ensures var name := FileName(prefix, pid, task, thread);
      Readable(name) && (TaskOf(name) == task <==> task < 1_000_000)
  {
    if task < 1_000_000 {
      NameRoundTrip(prefix, pid, task, thread, 0);
    } else {
      TaskBelow(prefix, pid, task, thread);
    }
  }

  /** Whatever the task, the number read has six digits. */
  lemma TaskBelow(prefix: string, pid: nat, task: nat, thread: nat)
    requires thread < 1_000_000
    ensures var name := FileName(prefix, pid, task, thread);
      Readable(name) && 0 <= TaskOf(name) < 1_000_000
  {
    var p, t, h := Padded(pid, DIGITS_PID), Padded(task, DIGITS_TASK), Padded(thread, DIGITS_THREAD);
    Powers();
    PaddedRead(pid, DIGITS_PID);
    PaddedRead(task, DIGITS_TASK);
    PaddedRead(thread, DIGITS_THREAD);
    DecimalLength(thread, DIGITS_THREAD);
    FieldsApart(prefix, p, t, h);
    NumberBelow(t[|t| - DIGITS_TASK..]);
  }

  // ---------------------------------------------------------------- the comparator

  function Sign(x: int): int { if x == 0 then 0 else if x > 0 then 1 else -1 }

  /** The comparator given to qsort. */
  method SortFilesByTime(s1: string, s2: string) returns (c: int)
    requires Readable(s1) && Readable(s2)
    ensures c == Sign(PidOf(s1) - PidOf(s2))
  {
    var pid1 := ReadNumber(s1, |EXT_MPIT| + DIGITS_THREAD + DIGITS_TASK, DIGITS_PID);
    var pid2 := ReadNumber(s2, |EXT_MPIT| + DIGITS_THREAD + DIGITS_TASK, DIGITS_PID);
    if pid1 == pid2 {
      c := 0;
    } else if pid1 > pid2 {
      c := 1;
    } else {
      c := -1;
    }
  }

  /** What a trace file was written from. */
  datatype Source = Source(prefix: string, pid: nat, task: nat, thread: nat)

  predicate InRange(s: Source) { s.pid <= INT_MAX && s.task < 1_000_000 && s.thread < 1_000_000 }

  function NameOf(s: Source): string { FileName(s.prefix, s.pid, s.task, s.thread) }

  /** Written names are ordered by the pids they were written from, whatever their prefixes. */
  lemma ComparesPids(a: Source, b: Source)
    requires InRange(a) && InRange(b)
    ensures Readable(NameOf(a)) && Readable(NameOf(b))
    ensures Sign(PidOf(NameOf(a)) - PidOf(NameOf(b))) == Sign(a.pid - b.pid)
  {
    NameRoundTrip(a.prefix, a.pid, a.task, a.thread, 0);
    NameRoundTrip(b.prefix, b.pid, b.task, b.thread, 0);
  }

  /** Written names in an order the comparator accepts between neighbours. */
  ghost predicate Sorted(ids: seq<Source>) {
    && (forall k :: 0 <= k < |ids| ==> InRange(ids[k]) && Readable(NameOf(ids[k])))
    && (forall k {:trigger InOrder(ids, k)} :: 1 <= k < |ids| ==> InOrder(ids, k))
  }

  /** The comparator does not put file k before the file listed ahead of it. */
  ghost predicate InOrder(ids: seq<Source>, k: int) {
    1 <= k < |ids| && Readable(NameOf(ids[k - 1])) && Readable(NameOf(ids[k]))
    && Sign(PidOf(NameOf(ids[k - 1])) - PidOf(NameOf(ids[k]))) <= 0
  }

  lemma NeighboursByPid(ids: seq<Source>, k: nat)
    requires Sorted(ids) && 1 <= k < |ids|
    ensures ids[k - 1].pid <= ids[k].pid
  {
    assert InOrder(ids, k);
    ComparesPids(ids[k - 1], ids[k]);
  }

  /** Sorted files go by pid, so that the files of one process stand together. */
  lemma {:induction false} SortedByPid(ids: seq<Source>, i: nat, j: nat)
    requires Sorted(ids) && i <= j < |ids|
    ensures ids[i].pid <= ids[j].pid
    ensures ids[i].pid == ids[j].pid ==> forall k :: i <= k <= j ==> ids[k].pid == ids[i].pid
    decreases j
  {
    if i < j {
      SortedByPid(ids, i, j - 1);
      NeighboursByPid(ids, j);
    }
  }

  // ---------------------------------------------------------------- the listing

  datatype Line = Separator | Named(file: string, pid: Option<int>)

  function LinesOf(file: string, first: bool, pidlabel: bool): seq<Line>
    requires Readable(file)
  {
    (if TaskOf(file) == 0 && !first then [Separator] else [])
    + [Named(file, if pidlabel then Some(PidOf(file)) else None)]
  }

  /** What DumpFiles prints: a separator before every file of a task 0 but the first file. */
  function Listing(files: seq<string>, pidlabel: bool): seq<Line>
    requires forall f :: f in files ==> Readable(f)
    decreases |files|
  {
    if files == [] then []
    else
      var n := |files| - 1;
      Listing(files[..n], pidlabel) + LinesOf(files[n], n == 0, pidlabel)
  }

  method DumpFiles(files: seq<string>, pidlabel: bool) returns (lines: seq<Line>)
    requires forall f :: f in files ==> Readable(f)
    ensures lines == Listing(files, pidlabel)
  {
    lines := [];
    for j := 0 to |files|
      invariant lines == Listing(files[..j], pidlabel)
    {
      var tmp := files[j];
      assert tmp in files;
      var task := ReadNumber(tmp, |EXT_MPIT| + DIGITS_THREAD, DIGITS_TASK);
      var pid := ReadNumber(tmp, |EXT_MPIT| + DIGITS_THREAD + DIGITS_TASK, DIGITS_PID);
      if task == 0 && j > 0 {
        lines := lines + [Separator];
      }
      if pidlabel {
        lines := lines + [Named(tmp, Some(pid))];
      } else {
        lines := lines + [Named(tmp, None)];
      }
      assert files[..j + 1][..j] == files[..j];
    }
    assert files[..|files|] == files;
  }

  /** The lines that name a file. */
  function Entries(lines: seq<Line>): seq<Line>
    decreases |lines|
  {
    if lines == [] then []
    else
      var n := |lines| - 1;
      Entries(lines[..n]) + if lines[n].Named? then [lines[n]] else []
  }

  function NamesOf(ids: seq<Source>): (r: seq<string>)
    ensures |r| == |ids| && forall k :: 0 <= k < |ids| ==> r[k] == NameOf(ids[k])
  {
    if ids == [] then [] else NamesOf(ids[..|ids| - 1]) + [NameOf(ids[|ids| - 1])]
  }

  lemma EntriesConcat(a: seq<Line>, l: Line)
    ensures Entries(a + [l]) == Entries(a) + if l.Named? then [l] else []
  {
    assert (a + [l])[..|a|] == a;
  }

  lemma EntriesOfFile(lines: seq<Line>, file: string, first: bool, pidlabel: bool)
    requires Readable(file)
    ensures Entries(lines + LinesOf(file, first, pidlabel))
         == Entries(lines) + [Named(file, if pidlabel then Some(PidOf(file)) else None)]
  {
    var named := Named(file, if pidlabel then Some(PidOf(file)) else None);
    if TaskOf(file) == 0 && !first {
      assert lines + LinesOf(file, first, pidlabel) == (lines + [Separator]) + [named];
      EntriesConcat(lines, Separator);
      EntriesConcat(lines + [Separator], named);
    } else {
      assert lines + LinesOf(file, first, pidlabel) == lines + [named];
      EntriesConcat(lines, named);
    }
  }

  predicate EntryFor(l: Line, file: string, pidlabel: bool) {
    Readable(file) && l == Named(file, if pidlabel then Some(PidOf(file)) else None)
  }

  /** Every file is listed once, in its place. */
  lemma {:induction false} EntriesAre(files: seq<string>, pidlabel: bool)
    requires forall f :: f in files ==> Readable(f)
    ensures var entries := Entries(Listing(files, pidlabel));
      |entries| == |files| && forall k :: 0 <= k < |files| ==> EntryFor(entries[k], files[k], pidlabel)
    decreases |files|
  {
    if files != [] {
      var n := |files| - 1;
      assert files[n] in files;
      EntriesAre(files[..n], pidlabel);
      EntriesOfFile(Listing(files[..n], pidlabel), files[n], n == 0, pidlabel);
    }
  }

  lemma NamesReadable(ids: seq<Source>)
    requires forall k :: 0 <= k < |ids| ==> InRange(ids[k])
    ensures forall f :: f in NamesOf(ids) ==> Readable(f)
    ensures forall k :: 0 <= k < |ids| ==> Readable(NameOf(ids[k])) && PidOf(NameOf(ids[k])) == ids[k].pid
  {
    forall k | 0 <= k < |ids|
      ensures Readable(NameOf(ids[k])) && PidOf(NameOf(ids[k])) == ids[k].pid
    {
      NameRoundTrip(ids[k].prefix, ids[k].pid, ids[k].task, ids[k].thread, 0);
    }
  }

  /** If pids are asked for, every written file is listed with the pid it was written from. */
  lemma ListedWithPid(ids: seq<Source>, pidlabel: bool)
    requires forall k :: 0 <= k < |ids| ==> InRange(ids[k])
    ensures forall f :: f in NamesOf(ids) ==> Readable(f)
    ensures var entries := Entries(Listing(NamesOf(ids), pidlabel));
      |entries| == |ids| && forall k :: 0 <= k < |ids| ==>
        entries[k] == Named(NameOf(ids[k]), if pidlabel then Some(ids[k].pid as int) else None)
  {
    NamesReadable(ids);
    EntriesAre(NamesOf(ids), pidlabel);
    var entries := Entries(Listing(NamesOf(ids), pidlabel));
    assert forall k :: 0 <= k < |ids| ==> EntryFor(entries[k], NamesOf(ids)[k], pidlabel);
  }

  /** Groups of files between separators. */
  function Groups(lines: seq<Line>): (gs: seq<seq<string>>)
    ensures |gs| > 0
    decreases |lines|
  {
    if lines == [] then [[]]
    else
      var gs, last := Groups(lines[..|lines| - 1]), lines[|lines| - 1];
      if last.Separator? then gs + [[]] else gs[..|gs| - 1] + [gs[|gs| - 1] + [last.file]]
  }

  function Flat(gs: seq<seq<string>>): seq<string>
    decreases |gs|
  {
    if gs == [] then [] else Flat(gs[..|gs| - 1]) + gs[|gs| - 1]
  }

  /** A group's files are all readable and none but the first is of a task 0. */
  predicate OneRun(group: seq<string>) {
    forall k :: 0 <= k < |group| ==> Readable(group[k]) && (k > 0 ==> TaskOf(group[k]) != 0)
  }

  lemma OneRunSnoc(group: seq<string>, file: string)
    ensures OneRun(group + [file]) <==> OneRun(group) && Readable(file) && (group != [] ==> TaskOf(file) != 0)
  {
    var r := group + [file];
    assert forall k :: 0 <= k < |group| ==> r[k] == group[k];
    assert r[|group|] == file;
    if OneRun(r) {
      assert Readable(r[|group|]);
    }
  }

  predicate StartsAtZero(group: seq<string>) { group != [] && Readable(group[0]) && TaskOf(group[0]) == 0 }

  /** The groups of a listing. */
  ghost predicate WellGrouped(gs: seq<seq<string>>, files: seq<string>) {
    && Flat(gs) == files
    && (forall k :: 0 <= k < |gs| ==> OneRun(gs[k]))
    && (forall k :: 1 <= k < |gs| ==> StartsAtZero(gs[k]))
    && (files != [] ==> gs[0] != [])
  }

  /** The separators cut the files, in their order, into groups; every group after the first
      starts with a file of a task 0, and no file of a task 0 stands further on in a group. */
  lemma {:induction false} ListingGroups(files: seq<string>, pidlabel: bool)
    requires forall f :: f in files ==> Readable(f)
    ensures WellGrouped(Groups(Listing(files, pidlabel)), files)
    decreases |files|
  {
    if files == [] {
      assert Flat([[]]) == Flat([[]][..0]) + [];
    } else {
      var n := |files| - 1;
      assert files == files[..n] + [files[n]] && files[n] in files;
      ListingGroups(files[..n], pidlabel);
      var gs := Groups(Listing(files[..n], pidlabel));
      GroupsOfLines(Listing(files[..n], pidlabel), files[n], n == 0, pidlabel);
      if TaskOf(files[n]) == 0 && n > 0 {
        NewGroup(gs, files[..n], files[n]);
      } else {
        SameGroup(gs, files[..n], files[n]);
      }
    }
  }

  lemma GroupsSnoc(lines: seq<Line>, l: Line)
    ensures var gs := Groups(lines);
      Groups(lines + [l]) == if l.Separator? then gs + [[]] else gs[..|gs| - 1] + [gs[|gs| - 1] + [l.file]]
  {
    assert (lines + [l])[..|lines|] == lines;
  }

  /** A file opens a new group or joins the last one. */
  lemma GroupsOfLines(lines: seq<Line>, file: string, first: bool, pidlabel: bool)
    requires Readable(file)
    ensures var gs := Groups(lines);
      Groups(lines + LinesOf(file, first, pidlabel))
        == if TaskOf(file) == 0 && !first then gs + [[file]] else gs[..|gs| - 1] + [gs[|gs| - 1] + [file]]
  {
    var named := Named(file, if pidlabel then Some(PidOf(file)) else None);
    if TaskOf(file) == 0 && !first {
      assert lines + LinesOf(file, first, pidlabel) == (lines + [Separator]) + [named];
      GroupsSnoc(lines, Separator);
      GroupsSnoc(lines + [Separator], named);
      assert (Groups(lines) + [[]])[..|Groups(lines)|] == Groups(lines);
      assert [] + [file] == [file];
    } else {
      assert lines + LinesOf(file, first, pidlabel) == lines + [named];
      GroupsSnoc(lines, named);
    }
  }

  lemma NewGroup(gs: seq<seq<string>>, files: seq<string>, file: string)
    requires gs != [] && files != [] && WellGrouped(gs, files) && Readable(file) && TaskOf(file) == 0
    ensures WellGrouped(gs + [[file]], files + [file])
  {
    assert (gs + [[file]])[..|gs|] == gs;
  }

  lemma SameGroup(gs: seq<seq<string>>, files: seq<string>, file: string)
    requires gs != [] && WellGrouped(gs, files) && Readable(file) && (TaskOf(file) == 0 ==> files == [])
    ensures WellGrouped(gs[..|gs| - 1] + [gs[|gs| - 1] + [file]], files + [file])
  {
    var n := |gs| - 1;
    var gs' := gs[..n] + [gs[n] + [file]];
    SameFlat(gs, files, file);
    if files == [] {
      EmptyFlat(gs);
    }
    OneRunSnoc(gs[n], file);
    if n > 0 {
      assert StartsAtZero(gs[n]);
      assert (gs[n] + [file])[0] == gs[n][0];
    }
  }

  lemma SameFlat(gs: seq<seq<string>>, files: seq<string>, file: string)
    requires gs != [] && Flat(gs) == files
    ensures Flat(gs[..|gs| - 1] + [gs[|gs| - 1] + [file]]) == files + [file]
  {
    var n := |gs| - 1;
    assert (gs[..n] + [gs[n] + [file]])[..n] == gs[..n];
    assert Flat(gs[..n]) + (gs[n] + [file]) == (Flat(gs[..n]) + gs[n]) + [file];
  }

  lemma {:induction false} EmptyFlat(gs: seq<seq<string>>)
    requires Flat(gs) == []
    ensures forall k :: 0 <= k < |gs| ==> gs[k] == []
    decreases |gs|
  {
    if gs != [] {
      EmptyFlat(gs[..|gs| - 1]);
    }
  }

  /** One more file in the listing. */
  lemma ListingSnoc(files: seq<string>, file: string, pidlabel: bool)
    requires Readable(file) && forall f :: f in files ==> Readable(f)
    ensures forall f :: f in files + [file] ==> Readable(f)
    ensures Listing(files + [file], pidlabel) == Listing(files, pidlabel) + LinesOf(file, files == [], pidlabel)
    ensures var gs := Groups(Listing(files, pidlabel));
      Groups(Listing(files + [file], pidlabel))
        == if TaskOf(file) == 0 && files != [] then gs + [[file]] else gs[..|gs| - 1] + [gs[|gs| - 1] + [file]]
  {
    assert (files + [file])[..|files|] == files;
    GroupsOfLines(Listing(files, pidlabel), file, files == [], pidlabel);
  }

  /** A listing shows one application if and only if no file but the first is of a task 0. */
  lemma {:induction false} OneApplication(files: seq<string>, pidlabel: bool)
    requires forall f :: f in files ==> Readable(f)
    ensures |Groups(Listing(files, pidlabel))| == 1 <==> forall k :: 0 < k < |files| ==> TaskOf(files[k]) != 0
  {
    OneGroup(files, pidlabel);
    assert forall k :: 0 <= k < |files| ==> files[k] in files;
  }

  lemma {:induction false} OneGroup(files: seq<string>, pidlabel: bool)
    requires forall f :: f in files ==> Readable(f)
    ensures |Groups(Listing(files, pidlabel))| == 1 <==> OneRun(files)
    decreases |files|
  {
    if files != [] {
      var n := |files| - 1;
      OneGroup(files[..n], pidlabel);
      assert files == files[..n] + [files[n]] && files[n] in files;
      ListingSnoc(files[..n], files[n], pidlabel);
      OneRunSnoc(files[..n], files[n]);
    }
  }

  /** So the files of two threads of a task 0 are listed as two applications. */
  lemma {:induction false} TwoThreadsTwoGroups(prefix: string, pid: nat, thread: nat, thread': nat, pidlabel: bool)
    requires pid <= INT_MAX && thread < 1_000_000 && thread' < 1_000_000
    ensures var a, b := FileName(prefix, pid, 0, thread), FileName(prefix, pid, 0, thread');
      && Readable(a) && Readable(b) && |Groups(Listing([a] + [b], pidlabel))| != 1
      && Groups(Listing([a] + [b], pidlabel)) == [[a], [b]]
  {
    var a, b := FileName(prefix, pid, 0, thread), FileName(prefix, pid, 0, thread');
    NameRoundTrip(prefix, pid, 0, thread, 0);
    NameRoundTrip(prefix, pid, 0, thread', 0);
    OneThenTwo(a, b, pidlabel);
  }

  lemma {:induction false} OneThenTwo(a: string, b: string, pidlabel: bool)
    requires Readable(a) && Readable(b) && TaskOf(b) == 0
    ensures |Groups(Listing([a] + [b], pidlabel))| != 1 && Groups(Listing([a] + [b], pidlabel)) == [[a], [b]]
  {
    OneApplication([a] + [b], pidlabel);
    assert ([a] + [b])[1] == b;
    var none: seq<string> := [];
    ListingSnoc(none, a, pidlabel);
    assert none + [a] == [a];
    ListingSnoc([a], b, pidlabel);
  }
}
