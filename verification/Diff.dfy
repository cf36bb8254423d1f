/** Run-over-run comparison of two reports. */
module Diffs {
  import opened Ordering
  import opened Reports
  import opened Normalise

  datatype DiffResult = DiffResult(appeared: seq<LocatedFinding>, resolved: seq<LocatedFinding>)

  function FindingKey(location: string, f: Finding): string {
    location + "|" + f.target + "|" + Normalised(f.message)
  }

  function Key(f: LocatedFinding): string {
    FindingKey(f.location, f.finding)
  }

  predicate Reportable(f: LocatedFinding) {
    f.finding.severity != OK
  }

  ghost function Keys(fs: seq<LocatedFinding>): set<string> {
    set f | f in fs && Reportable(f) :: Key(f)
  }

  ghost function ReportKeys(r: Report): set<string> {
    Keys(Located(r))
  }

  /** The reportable findings whose key is not in `known`, in order. */
  function Unknown(fs: seq<LocatedFinding>, known: set<string>): seq<LocatedFinding> {
    if fs == [] then []
    else
      var f := fs[|fs| - 1];
      Unknown(fs[..|fs| - 1], known) + if Reportable(f) && Key(f) !in known then [f] else []
  }

  ghost function DiffOf(older: Report, newer: Report): DiffResult {
    DiffResult(Unknown(Located(newer), ReportKeys(older)), Unknown(Located(older), ReportKeys(newer)))
  }

  lemma KeysGrow(fs: seq<LocatedFinding>, f: LocatedFinding)
    ensures Keys(fs + [f]) == Keys(fs) + if Reportable(f) then {Key(f)} else {}
  {
    forall k
      ensures k in Keys(fs + [f]) <==> k in Keys(fs) || (Reportable(f) && k == Key(f))
    {
      if k in Keys(fs) {
        var g :| g in fs && Reportable(g) && Key(g) == k;
        assert g in fs + [f];
      }
      assert f in fs + [f];
    }
  }

  method FindingKeys(r: Report) returns (keys: set<string>)
    ensures keys == ReportKeys(r)
  {
    keys := {};
    var fs := ForEachFinding(r);
    for i := 0 to |fs|
      invariant keys == Keys(fs[..i])
    {
      assert fs[..i + 1] == fs[..i] + [fs[i]];
      KeysGrow(fs[..i], fs[i]);
      if fs[i].finding.severity != OK {
        keys := keys + {FindingKey(fs[i].location, fs[i].finding)};
      }
    }
    assert fs[..|fs|] == fs;
  }

  /** One of the two walks of `Diff`. */
  method FindUnknown(r: Report, known: set<string>) returns (found: seq<LocatedFinding>)
    ensures found == Unknown(Located(r), known)
  {
    found := [];
    var fs := ForEachFinding(r);
    for i := 0 to |fs|
      invariant found == Unknown(fs[..i], known)
    {
      assert fs[..i + 1][..i] == fs[..i];
      if fs[i].finding.severity != OK && FindingKey(fs[i].location, fs[i].finding) !in known {
        found := found + [fs[i]];
      }
    }
    assert fs[..|fs|] == fs;
  }

  method Diff(older: Report, newer: Report) returns (d: DiffResult)
    ensures d == DiffOf(older, newer)
  {
    var oldKeys := FindingKeys(older);
    var newKeys := FindingKeys(newer);
    var appeared := FindUnknown(newer, oldKeys);
    var resolved := FindUnknown(older, newKeys);
    d := DiffResult(appeared, resolved);
  }

  // What a diff contains.

  /** Each occurrence of a reportable finding with an unknown key is kept, nothing else is. */
  lemma {:induction false} UnknownKeepsOccurrences(fs: seq<LocatedFinding>, known: set<string>, f: LocatedFinding)
    ensures multiset(Unknown(fs, known))[f]
         == if Reportable(f) && Key(f) !in known then multiset(fs)[f] else 0
  {
    if fs != [] {
      var init, x := fs[..|fs| - 1], fs[|fs| - 1];
      UnknownKeepsOccurrences(init, known, f);
      assert fs == init + [x];
      CountedOnceMore(init, x, f);
      CountedOnceMore(Unknown(init, known), x, f);
    }
  }

  lemma CountedOnceMore(fs: seq<LocatedFinding>, x: LocatedFinding, f: LocatedFinding)
    ensures multiset(fs + [x])[f] == multiset(fs)[f] + if x == f then 1 else 0
  {
  }

  lemma UnknownMembers(fs: seq<LocatedFinding>, known: set<string>)
    ensures forall f :: f in Unknown(fs, known) <==> f in fs && Reportable(f) && Key(f) !in known
  {
    forall f
      ensures f in Unknown(fs, known) <==> f in fs && Reportable(f) && Key(f) !in known
    {
      UnknownKeepsOccurrences(fs, known, f);
      assert f in fs <==> f in multiset(fs);
      assert f in Unknown(fs, known) <==> f in multiset(Unknown(fs, known));
    }
  }

  lemma UnknownKeys(fs: seq<LocatedFinding>, known: set<string>)
    ensures Keys(Unknown(fs, known)) == Keys(fs) - known
  {
    UnknownMembers(fs, known);
  }

  /** Applying a diff to the older key set gives the newer one, and the two parts are minimal. */
  lemma DiffAlgebra(older: Report, newer: Report)
    ensures var d := DiffOf(older, newer);
            && ReportKeys(newer) == (ReportKeys(older) - Keys(d.resolved)) + Keys(d.appeared)
            && Keys(d.appeared) !! ReportKeys(older)
            && Keys(d.resolved) !! ReportKeys(newer)
            && d.appeared == DiffOf(newer, older).resolved
  {
    UnknownKeys(Located(newer), ReportKeys(older));
    UnknownKeys(Located(older), ReportKeys(newer));
  }

  ghost function Applied(keys: set<string>, diffs: seq<DiffResult>): set<string> {
    if diffs == [] then keys
    else
      var d := diffs[|diffs| - 1];
      (Applied(keys, diffs[..|diffs| - 1]) - Keys(d.resolved)) + Keys(d.appeared)
  }

  ghost function ChainDiffs(runs: seq<Report>): seq<DiffResult>
    requires runs != []
  {
    seq(|runs| - 1, i requires 0 <= i < |runs| - 1 => DiffOf(runs[i], runs[i + 1]))
  }

  /** Folding the diffs of any chain of runs over the first key set reproduces the last one. */
  lemma {:induction false} DiffsReplay(runs: seq<Report>)
    requires runs != []
    ensures Applied(ReportKeys(runs[0]), ChainDiffs(runs)) == ReportKeys(runs[|runs| - 1])
  {
    if |runs| > 1 {
      var init := runs[..|runs| - 1];
      DiffsReplay(init);
      DiffAlgebra(runs[|runs| - 2], runs[|runs| - 1]);
      assert ChainDiffs(runs)[..|runs| - 2] == ChainDiffs(init);
    }
  }

  /** The runs agree finding by finding except for numbers in messages and severities above OK. */
  ghost predicate SameUpToCounts(a: Report, b: Report) {
    && |Located(a)| == |Located(b)|
    && forall i | 0 <= i < |Located(a)| ::
         var f, g := Located(a)[i], Located(b)[i];
         && f.location == g.location && f.finding.target == g.finding.target
         && Normalised(f.finding.message) == Normalised(g.finding.message)
         && (f.finding.severity == OK <==> g.finding.severity == OK)
  }

  /** A change of counts or of severity is never reported. */
  lemma CountsAreSilent(a: Report, b: Report)
    requires SameUpToCounts(a, b)
    ensures DiffOf(a, b) == DiffResult([], [])
  {
    SameCountsSameKeys(a, b);
    UnknownMembers(Located(b), ReportKeys(a));
    UnknownMembers(Located(a), ReportKeys(b));
    NoMembersEmpty(DiffOf(a, b).appeared);
    NoMembersEmpty(DiffOf(a, b).resolved);
  }

  lemma SameCountsSameKeys(a: Report, b: Report)
    requires SameUpToCounts(a, b)
    ensures ReportKeys(a) == ReportKeys(b)
  {
    var fs, gs := Located(a), Located(b);
    forall i | 0 <= i < |fs|
      ensures Key(fs[i]) == Key(gs[i])
    {
    }
    forall k | k in ReportKeys(a)
      ensures k in ReportKeys(b)
    {
      var i :| 0 <= i < |fs| && Reportable(fs[i]) && Key(fs[i]) == k;
      assert gs[i] in gs && Reportable(gs[i]) && Key(gs[i]) == k;
    }
    forall k | k in ReportKeys(b)
      ensures k in ReportKeys(a)
    {
      var i :| 0 <= i < |gs| && Reportable(gs[i]) && Key(gs[i]) == k;
      assert fs[i] in fs && Reportable(fs[i]) && Key(fs[i]) == k;
    }
  }

  lemma NoMembersEmpty<T>(xs: seq<T>)
    ensures xs == [] <==> forall x :: x !in xs
  {
    if xs != [] {
      assert xs[0] in xs;
    }
  }

  lemma SelfDiffEmpty(r: Report)
    ensures DiffOf(r, r) == DiffResult([], [])
  {
    CountsAreSilent(r, r);
  }

  // Which findings share a key.

  /** Locations and objects hold no '|' in practice; then a key names exactly one place,
      one object and one message up to numbers. */
  lemma KeyIdentifies(f: LocatedFinding, g: LocatedFinding)
    requires '|' !in f.location && '|' !in g.location
    requires '|' !in f.finding.target && '|' !in g.finding.target
    ensures Key(f) == Key(g) <==>
            && f.location == g.location && f.finding.target == g.finding.target
            && Normalised(f.finding.message) == Normalised(g.finding.message)
  {
    if Key(f) == Key(g) {
      var x := f.finding.target + "|" + Normalised(f.finding.message);
      var y := g.finding.target + "|" + Normalised(g.finding.message);
      assert Key(f) == f.location + ['|'] + x && Key(g) == g.location + ['|'] + y;
      SeparatorSplits('|', f.location, g.location, x, y);
      SeparatorSplits('|', f.finding.target, g.finding.target,
                     Normalised(f.finding.message), Normalised(g.finding.message));
    }
  }
}
