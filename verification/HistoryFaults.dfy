/** Lives in which writes fail, tear, go unlisted or never encode, and the process restarts in between. */
module HistoryFaults {
  import opened Ordering
  import opened Reports
  import opened HistoryLog
  import opened HistoryRuns

  /** A run the store knows, the name its report was given, and whether a readable file of that name was
      made. The file is listed in `run` unless the write was taken for a failure. */
  datatype Logged = Logged(run: Run, name: string, saved: bool)

  function RunsIn(log: seq<Logged>): seq<Run> {
    seq(|log|, i requires 0 <= i < |log| => log[i].run)
  }

  /** Where the window begins. */
  function Cut(log: seq<Logged>, limit: nat): nat {
    if |log| > limit then |log| - limit else 0
  }

  /** The runs the directory still shows when all listed files before position `cut` are gone. */
  function Shown(log: seq<Logged>, cut: nat): seq<Run> {
    if log == [] then []
    else
      var n, x := |log| - 1, log[|log| - 1];
      Shown(log[..n], cut) + if x.saved && (n >= cut || x.run.file == "") then [Run(x.run.report, x.name)] else []
  }

  function AllSaved(runs: seq<Run>): seq<Logged> {
    seq(|runs|, i requires 0 <= i < |runs| => Logged(runs[i], runs[i].file, true))
  }

  /** What a process knows: an append adds its run, a restart knows what the directory shows. */
  ghost function Known(dir: string, limit: nat, d: Dir, ops: seq<Op>): seq<Logged> {
    if ops == [] then AllSaved(Readable(d))
    else NextKnown(dir, limit, Known(dir, limit, d, ops[..|ops| - 1]), ops[|ops| - 1])
  }

  function LoggedAs(dir: string, r: Report, name: string, w: Write): Logged {
    Logged(Run(r, FileFor(dir, name, w)), name, w in {Written, Unlisted})
  }

  function NextKnown(dir: string, limit: nat, known: seq<Logged>, op: Op): seq<Logged> {
    match op
    case Append(r, name, w, _) => known + [LoggedAs(dir, r, name, w)]
    case Reopen(_) => AllSaved(Shown(known, Cut(known, limit)))
  }

  lemma ShownOneMore(log: seq<Logged>, x: Logged, cut: nat)
    ensures Shown(log + [x], cut)
         == Shown(log, cut) + if x.saved && (|log| >= cut || x.run.file == "") then [Run(x.run.report, x.name)] else []
  {
    assert (log + [x])[..|log|] == log;
  }

  /** Names come in order, and a listed file has the run's name. */
  ghost predicate Ordered(log: seq<Logged>) {
    && (forall i | 0 <= i < |log| :: log[i].run.file in {"", log[i].name})
    && (forall i, j | 0 <= i < j < |log| :: Less(log[i].name, log[j].name))
  }

  // One append.

  lemma {:induction false} NameAbsent(log: seq<Logged>, cut: nat, name: string)
    requires forall i | 0 <= i < |log| :: log[i].name != name
    ensures forall i | 0 <= i < |Shown(log, cut)| :: Shown(log, cut)[i].file != name
  {
    if log != [] {
      NameAbsent(log[..|log| - 1], cut, name);
    }
  }

  lemma {:induction false} SameBefore(log: seq<Logged>, a: nat, b: nat)
    requires |log| <= a && |log| <= b
    ensures Shown(log, a) == Shown(log, b)
  {
    if log != [] {
      SameBefore(log[..|log| - 1], a, b);
    }
  }

  lemma OthersStay(runs: seq<Run>, gone: set<string>)
    requires forall i | 0 <= i < |runs| :: runs[i].file !in gone
    ensures RunsWithout(runs, gone) == runs
  {
    RunsWithoutSuffix(runs, 0, gone);
    assert runs[..0] == [];
    assert [] + runs[0..] == runs;
  }

  ghost function ListedFile(x: Logged): set<string> {
    if x.run.file == "" then {} else {x.run.file}
  }

  lemma HeadFalls(init: seq<Logged>, x: Logged)
    requires Ordered(init + [x])
    ensures RunsWithout(Shown(init + [x], |init|), ListedFile(x)) == Shown(init + [x], |init| + 1)
  {
    var n, runs := |init|, Shown(init, |init|);
    assert (init + [x])[n] == x;
    assert forall i | 0 <= i < n :: (init + [x])[i] == init[i];
    ShownOneMore(init, x, n);
    ShownOneMore(init, x, n + 1);
    SameBefore(init, n, n + 1);
    NameAbsent(init, n, x.name);
    OthersStay(runs, ListedFile(x));
    if x.saved {
      RunsWithoutOneMore(runs, Run(x.run.report, x.name), ListedFile(x));
    } else {
      assert runs + [] == runs;
    }
  }

  /** When the window moves on, the file of the run that leaves it goes if it was listed. */
  lemma {:induction false} CutMoves(log: seq<Logged>, cut: nat)
    requires Ordered(log) && cut < |log|
    ensures RunsWithout(Shown(log, cut), ListedFile(log[cut])) == Shown(log, cut + 1)
  {
    var n := |log| - 1;
    var init, x := log[..n], log[n];
    assert init + [x] == log;
    if cut == n {
      HeadFalls(init, x);
    } else {
      CutMoves(init, cut);
      assert Less(log[cut].name, x.name);
      var runs := Shown(init, cut);
      if x.saved {
        RunsWithoutOneMore(runs, Run(x.run.report, x.name), ListedFile(log[cut]));
      } else {
        assert runs + [] == runs;
      }
    }
  }

  /** The file that leaves the window with one more run. */
  ghost function Leaver(log: seq<Logged>, limit: nat): set<string>
    requires limit > 0
  {
    if |log| < limit then {} else ListedFile(log[|log| - limit])
  }

  lemma EvictedOne(dir: string, limit: nat, log: seq<Logged>, file: string)
    requires limit > 0
    ensures Evicted(Window(dir, limit, RunsIn(log)), file) == Leaver(log, limit)
  {
    if |log| >= limit {
      FirstListed(log, limit, file);
    }
  }

  lemma FirstListed(log: seq<Logged>, limit: nat, file: string)
    requires 0 < limit <= |log|
    ensures var files := FilesOf(Recent(RunsIn(log), limit)) + [file];
            |files| == limit + 1 && files[0] == log[|log| - limit].run.file
  {
    assert Recent(RunsIn(log), limit)[0] == RunsIn(log)[|log| - limit];
  }

  lemma LaterIsNew(d: Dir, name: string)
    requires LaterThan(name, d)
    ensures name !in d.Keys
  {
  }

  lemma TornUnread(d: Dir, name: string)
    requires LaterThan(name, d)
    ensures Readable(d[name := Damaged]) == Readable(d)
  {
    var names := Listing(d.Keys);
    LaterIsNew(d, name);
    assert d[name := Damaged].Keys == d.Keys + {name};
    ListingGrows(d.Keys, name);
    TornSkipped(d, names, name);
  }

  lemma TornSkipped(d: Dir, names: seq<string>, name: string)
    requires name !in names
    ensures SavedRuns(d[name := Damaged], names + [name]) == SavedRuns(d, names)
  {
    SavedRunsFrame(d, names, name, Damaged);
    assert (names + [name])[..|names|] == names;
    assert SavedRuns(d, names) + [] == SavedRuns(d, names);
  }

  lemma WrittenReads(d: Dir, r: Report, name: string, w: Write)
    requires LaterThan(name, d)
    ensures Readable(WrittenTo(d, name, r, w)) == Readable(d) + if w in {Written, Unlisted} then [Run(r, name)] else []
  {
    assert Readable(d) + [] == Readable(d);
    match w
    case Written => ReadableGrows(d, r, name);
    case Unlisted => ReadableGrows(d, r, name);
    case Torn => TornUnread(d, name);
    case Failed =>
    case NotEncoded =>
  }

  /** The disk reads back as what is left of the log. */
  ghost predicate Reads(d: Dir, log: seq<Logged>, limit: nat) {
    Readable(d) == Shown(log, Cut(log, limit))
  }

  lemma WindowMoves(log: seq<Logged>, limit: nat, x: Logged)
    requires limit > 0 && Ordered(log + [x])
    ensures RunsWithout(Shown(log + [x], Cut(log, limit)), Leaver(log, limit))
         == Shown(log + [x], Cut(log + [x], limit))
  {
    if |log| < limit {
      OthersStay(Shown(log + [x], 0), {});
    } else {
      CutMoves(log + [x], |log| - limit);
    }
  }

  /** One append, however its write ends. */
  lemma AppendReads(dir: string, limit: nat, d: Dir, log: seq<Logged>, r: Report, name: string, w: Write)
    requires dir != "" && limit > 0 && LaterThan(name, d) && Reads(d, log, limit)
    requires Ordered(log + [LoggedAs(dir, r, name, w)])
    ensures Reads(AppendedDir(Window(dir, limit, RunsIn(log)), d, r, name, w, {}), log + [LoggedAs(dir, r, name, w)], limit)
  {
    var x, written := LoggedAs(dir, r, name, w), WrittenTo(d, name, r, w);
    EvictedOne(dir, limit, log, x.run.file);
    WrittenReads(d, r, name, w);
    ShownOneMore(log, x, Cut(log, limit));
    WindowMoves(log, limit, x);
    ReadableWithout(written, Leaver(log, limit));
    assert Leaver(log, limit) - {} == Leaver(log, limit);
  }

  // A restart.

  lemma {:induction false} ShownOfSaved(runs: seq<Run>, cut: nat)
    requires cut <= |runs| && forall i | 0 <= i < |runs| :: runs[i].file != ""
    ensures Shown(AllSaved(runs), cut) == runs[cut..]
    decreases |runs|
  {
    if cut == |runs| {
      AllListed(runs);
    } else {
      var n := |runs| - 1;
      ShownOfSaved(runs[..n], cut);
      assert AllSaved(runs)[..n] == AllSaved(runs[..n]);
      assert runs[cut..] == runs[..n][cut..] + [runs[n]];
    }
  }

  lemma {:induction false} AllListed(runs: seq<Run>)
    requires forall i | 0 <= i < |runs| :: runs[i].file != ""
    ensures Shown(AllSaved(runs), |runs|) == []
  {
    if runs != [] {
      var n := |runs| - 1;
      AllListed(runs[..n]);
      SameBefore(AllSaved(runs[..n]), n, n + 1);
      assert AllSaved(runs)[..n] == AllSaved(runs[..n]);
    }
  }

  /** The files of the runs before position `k` are all among the old ones. */
  lemma {:induction false} AllGone(runs: seq<Run>, k: nat, gone: set<string>)
    requires k <= |runs| && forall i | 0 <= i < k :: runs[i].file in gone
    ensures RunsWithout(runs[..k], gone) == []
  {
    if k > 0 {
      AllGone(runs, k - 1, gone);
      assert runs[..k][..k - 1] == runs[..k - 1];
    }
  }

  lemma AllOld(runs: seq<Run>, limit: nat, k: nat)
    requires k <= |runs| - limit && forall i | 0 <= i < |runs| :: runs[i].file != ""
    ensures forall i | 0 <= i < k :: runs[i].file in OldFiles(runs, limit)
  {
  }

  lemma OldGone(runs: seq<Run>, limit: nat)
    requires FilesInOrder(runs) && forall i | 0 <= i < |runs| :: runs[i].file != ""
    ensures RunsWithout(runs, OldFiles(runs, limit)) == runs[OldCount(runs, limit)..]
  {
    var k, gone := OldCount(runs, limit), OldFiles(runs, limit);
    if k == 0 {
      assert gone == {};
      OthersStay(runs, gone);
    } else {
      AllOld(runs, limit, k);
      AllGone(runs, k, gone);
      NoneOld(runs, limit, k, gone);
      RunsWithoutSuffix(runs, k, gone);
    }
  }

  function OldCount(runs: seq<Run>, limit: nat): nat {
    if |runs| > limit then |runs| - limit else 0
  }

  lemma ReadableFiles(d: Dir)
    requires "" !in d
    ensures FilesInOrder(Readable(d))
    ensures forall i | 0 <= i < |Readable(d)| :: Readable(d)[i].file != "" && Readable(d)[i].file in d.Keys
  {
    ReadableOrdered(d);
  }

  lemma PrunedReads(limit: nat, d: Dir)
    requires "" !in d
    ensures Readable(ReloadedDir(limit, d, {})) == Readable(d)[OldCount(Readable(d), limit)..]
  {
    var gone := OldFiles(Readable(d), limit);
    ReadableFiles(d);
    OldGone(Readable(d), limit);
    ReadableWithout(d, gone);
    assert gone - {} == gone;
  }

  /** Opening a directory prunes it to the last `limit` readable runs. */
  lemma OpenReads(limit: nat, d: Dir)
    requires "" !in d
    ensures Reads(ReloadedDir(limit, d, {}), AllSaved(Readable(d)), limit)
  {
    PrunedReads(limit, d);
    ReadableFiles(d);
    SavedWindow(Readable(d), limit);
  }

  lemma SavedWindow(runs: seq<Run>, limit: nat)
    requires forall i | 0 <= i < |runs| :: runs[i].file != ""
    ensures Shown(AllSaved(runs), Cut(AllSaved(runs), limit)) == runs[OldCount(runs, limit)..]
  {
    assert Cut(AllSaved(runs), limit) == OldCount(runs, limit);
    ShownOfSaved(runs, OldCount(runs, limit));
  }

  // Whole lives.

  ghost predicate CleanRemovals(ops: seq<Op>) {
    forall i | 0 <= i < |ops| :: ops[i].stuck == {}
  }

  ghost predicate Named(known: seq<Logged>, used: set<string>) {
    forall i | 0 <= i < |known| :: known[i].name in used
  }

  ghost predicate InStep(s: OnDisk, dir: string, limit: nat, known: seq<Logged>, used: set<string>) {
    && s.log == Window(dir, limit, RunsIn(known)) && Reads(s.dir, known, limit)
    && Ordered(known) && s.dir.Keys <= used && Named(known, used) && "" !in used
  }

  lemma OpenInStep(dir: string, limit: nat, d: Dir, used: set<string>)
    requires dir != "" && d.Keys <= used && "" !in used
    ensures InStep(Opened(dir, limit, d, {}), dir, limit, AllSaved(Readable(d)), used)
  {
    OpenReads(limit, d);
    ReadableFiles(d);
    assert RunsIn(AllSaved(Readable(d))) == Readable(d);
    assert Named(AllSaved(Readable(d)), used);
  }

  /** The next name comes after every file and every name used so far. */
  lemma NextOrdered(known: seq<Logged>, used: set<string>, x: Logged)
    requires Ordered(known) && Named(known, used)
    requires x.run.file in {"", x.name} && forall n | n in used :: Less(n, x.name)
    ensures Ordered(known + [x]) && Named(known + [x], used + {x.name})
  {
  }

  lemma NextName(d: Dir, runs: seq<Run>, run: Run)
    requires InOrder(runs + [run], d)
    ensures forall n | n in d.Keys + NamesOf(runs) :: Less(n, run.file)
  {
    var used: Dir := map n | n in d.Keys + NamesOf(runs) :: Damaged;
    NextIsLater(runs, run, d, used);
    assert forall n | n in d.Keys + NamesOf(runs) :: n in used.Keys;
  }

  lemma AppendInStep(s: OnDisk, dir: string, limit: nat, known: seq<Logged>, used: set<string>, op: Op)
    requires dir != "" && limit > 0 && InStep(s, dir, limit, known, used)
    requires op.Append? && op.stuck == {} && op.name != "" && forall n | n in used :: Less(n, op.name)
    ensures InStep(Step(s, op), dir, limit, known + [LoggedAs(dir, op.report, op.name, op.write)], used + {op.name})
  {
    var x := LoggedAs(dir, op.report, op.name, op.write);
    NextOrdered(known, used, x);
    StepPushes(dir, limit, RunsIn(known), s.dir, op);
    FilesBefore(s.dir, used, op.name);
    AppendReads(dir, limit, s.dir, known, op.report, op.name, op.write);
    RunsMore(known, x);
    KeysMore(s.log, s.dir, op);
  }

  lemma RunsMore(known: seq<Logged>, x: Logged)
    ensures RunsIn(known + [x]) == RunsIn(known) + [x.run]
  {
  }

  lemma FilesBefore(d: Dir, used: set<string>, name: string)
    requires d.Keys <= used && forall n | n in used :: Less(n, name)
    ensures LaterThan(name, d)
  {
  }

  lemma NamesMore(runs: seq<Run>, run: Run)
    ensures NamesOf(runs + [run]) == NamesOf(runs) + {run.file}
  {
    assert forall r :: r in runs + [run] <==> r in runs || r == run;
  }

  lemma KeysMore(log: Log, d: Dir, op: Op)
    requires op.Append?
    ensures AppendedDir(log, d, op.report, op.name, op.write, op.stuck).Keys <= d.Keys + {op.name}
  {
  }

  ghost function Used(d: Dir, ops: seq<Op>): set<string> {
    d.Keys + NamesOf(AppendedRuns(ops))
  }

  /** The names of the appends come in order, after the files found at the start. */
  ghost predicate NamesInOrder(d: Dir, ops: seq<Op>) {
    InOrder(AppendedRuns(ops), d) && forall i | 0 <= i < |ops| && ops[i].Append? :: ops[i].name != ""
  }

  lemma NextUsed(d: Dir, init: seq<Op>, op: Op)
    requires NamesInOrder(d, init + [op])
    ensures NamesInOrder(d, init)
    ensures Used(d, init + [op]) == Used(d, init) + if op.Append? then {op.name} else {}
    ensures op.Append? ==> op.name != "" && forall n | n in Used(d, init) :: Less(n, op.name)
  {
    var ops, runs := init + [op], AppendedRuns(init);
    OneMoreOp(init, op);
    assert forall i | 0 <= i < |init| :: init[i] == ops[i];
    assert ops[|init|] == op;
    if op.Append? {
      EarlierInOrder(runs, Run(op.report, op.name), d);
      NextName(d, runs, Run(op.report, op.name));
      NamesMore(runs, Run(op.report, op.name));
    }
  }

  lemma OneMoreOp(init: seq<Op>, op: Op)
    ensures AppendedRuns(init + [op])
         == if op.Append? then AppendedRuns(init) + [Run(op.report, op.name)] else AppendedRuns(init)
  {
    assert (init + [op])[..|init|] == init;
    assert AppendedRuns(init) + [] == AppendedRuns(init);
  }

  lemma EarlierInOrder(runs: seq<Run>, run: Run, d: Dir)
    requires InOrder(runs + [run], d)
    ensures InOrder(runs, d)
  {
    assert forall i | 0 <= i < |runs| :: runs[i] == (runs + [run])[i];
  }

  lemma StepInStep(s: OnDisk, dir: string, limit: nat, known: seq<Logged>, used: set<string>, op: Op)
    requires dir != "" && limit > 0 && InStep(s, dir, limit, known, used) && op.stuck == {}
    requires op.Append? ==> op.name != "" && forall n | n in used :: Less(n, op.name)
    ensures InStep(Step(s, op), dir, limit, NextKnown(dir, limit, known, op), used + if op.Append? then {op.name} else {})
  {
    if op.Append? {
      AppendInStep(s, dir, limit, known, used, op);
    } else {
      OpenInStep(dir, limit, s.dir, used);
      assert used + {} == used;
    }
  }

  lemma {:induction false} LifeInStep(dir: string, limit: nat, d: Dir, ops: seq<Op>)
    requires dir != "" && limit > 0 && "" !in d && CleanRemovals(ops) && NamesInOrder(d, ops)
    ensures InStep(Execute(Opened(dir, limit, d, {}), ops), dir, limit, Known(dir, limit, d, ops), Used(d, ops))
  {
    if ops == [] {
      OpenInStep(dir, limit, d, d.Keys + NamesOf([]));
    } else {
      var init, op := ops[..|ops| - 1], ops[|ops| - 1];
      assert init + [op] == ops;
      NextUsed(d, init, op);
      LifeInStep(dir, limit, d, init);
      StepInStep(Execute(Opened(dir, limit, d, {}), init), dir, limit, Known(dir, limit, d, init), Used(d, init), op);
    }
  }

  /** For any mix of restarts and appends, however their writes end: the store is the window of what the
      process knows, and a restart would show exactly the reports that were written whole and are either
      still in the window or never listed. */
  lemma FaultyLifeIsExact(dir: string, limit: nat, d: Dir, ops: seq<Op>)
    requires dir != "" && limit > 0 && "" !in d && CleanRemovals(ops) && NamesInOrder(d, ops)
    ensures var s, known := Execute(Opened(dir, limit, d, {}), ops), Known(dir, limit, d, ops);
            && s.log == Window(dir, limit, RunsIn(known))
            && Reloaded(dir, limit, s.dir) == Window(dir, limit, Shown(known, Cut(known, limit)))
  {
    LifeInStep(dir, limit, d, ops);
  }
}
