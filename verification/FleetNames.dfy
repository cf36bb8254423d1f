/** The directories and file names a fleet's histories end up under, spelled out. */
module FleetNames {
  import opened Decimal
  import opened Timestamps
  import opened Paths
  import opened Fleet

  // Directory names of clusters.

  /** ASCII letters and digits, '-', '_' and '.', by their codes. */
  predicate PlainCode(n: int) {
    48 <= n <= 57 || 65 <= n <= 90 || 97 <= n <= 122 || n == 45 || n == 95 || n == 46
  }

  /** Plain characters stay, every other becomes a '-'. */
  lemma SanitizedExactly(name: string)
    ensures |SanitizeName(name)| == |name|
    ensures forall i | 0 <= i < |name| ::
              SanitizeName(name)[i] == if PlainCode(name[i] as int) then name[i] else '-'
  {
  }

  // Clean paths.

  /** A path that cleaning leaves as it is. */
  predicate Tidy(dir: string) {
    dir != "" && Text(Clean(dir)) == dir
  }

  /** A segment that is no step to somewhere else. */
  predicate Plain(part: string) {
    part != "" && part != "." && part != ".." && '/' !in part
  }

  lemma {:induction false} JoinedGrows(parts: seq<string>, part: string)
    requires parts != []
    ensures Joined(parts + [part]) == Joined(parts) + "/" + part
  {
    var all := parts + [part];
    if |parts| == 1 {
      assert all[1..] == [part];
    } else {
      assert all[1..] == parts[1..] + [part];
      JoinedGrows(parts[1..], part);
    }
  }

  lemma StepDown(dir: string, part: string)
    requires dir != "" && Plain(part)
    ensures Clean(dir + "/" + part) == Enter(Clean(dir), part)
  {
    var name, parts := dir + "/" + part, Split(dir);
    assert name == dir + ['/'] + part;
    SplitAtEnd(dir, part);
    assert (parts + [part])[..|parts|] == parts;
    assert name[0] == dir[0];
  }

  /** The text of a path one plain segment further down. */
  lemma TextBelow(p: Path, part: string)
    requires Plain(part)
    ensures Text(Enter(p, part)) == if p.segments == [] then (if p.rooted then "/" + part else part)
                                    else Text(p) + "/" + part
  {
    if p.segments == [] {
      assert [] + [part] == [part];
    } else {
      JoinedGrows(p.segments, part);
    }
  }

  lemma WalkTwo(p: Path, a: string, b: string)
    ensures Walk(p, [a]) == Enter(p, a) && Walk(p, [a, b]) == Enter(Enter(p, a), b)
  {
    assert [a][..0] == [] && [a, b][..1] == [a];
  }

  lemma OneSegment(part: string)
    requires Plain(part)
    ensures Clean(part) == Path(false, [part]) && Clean("/" + part) == Path(true, [part])
  {
    var rooted := "/" + part;
    SplitPlain(part);
    assert part[0] in part && [] + [part] == [part];
    WalkTwo(Path(false, []), part, part);
    assert rooted[0] == '/' && rooted[1..] == part;
    assert Split(rooted) == [[]] + [part] == ["", part];
    WalkTwo(Path(true, []), "", part);
  }

  lemma NoSegment()
    ensures Clean("/") == Path(true, []) && Clean(".") == Path(false, [])
  {
    SplitPlain(".");
    assert "/"[1..] == [];
    assert Split("/") == [[]] + [[]] == ["", ""];
    WalkTwo(Path(true, []), "", "");
    WalkTwo(Path(false, []), ".", ".");
  }

  /** "/" and ".", what is right below them, and whatever is one plain segment below something tidy, are tidy. */
  lemma TidyExactly(dir: string, part: string)
    requires Plain(part)
    ensures Tidy("/") && Tidy(".") && Tidy(part) && Tidy("/" + part)
    ensures Tidy(dir) && dir != "/" && dir != "." ==> Tidy(dir + "/" + part)
  {
    NoSegment();
    OneSegment(part);
    if Tidy(dir) && dir != "/" && dir != "." {
      StepDown(dir, part);
      TextBelow(Clean(dir), part);
    }
  }

  // The directory of one cluster.

  /** Below a tidy common directory a cluster's own is named after it. */
  lemma DirectoryExactly(cfg: Config, name: string)
    requires Tidy(cfg.historyDir) && name !in {"", ".", ".."}
    ensures DirFor(cfg, name) == if cfg.historyDir == "/" then "/" + SanitizeName(name)
                                 else if cfg.historyDir == "." then SanitizeName(name)
                                 else cfg.historyDir + "/" + SanitizeName(name)
  {
    SanitizedAlike(name, name);
    OneSegment(SanitizeName(name));
    JoinEnters(cfg.historyDir, SanitizeName(name));
    TextBelow(Clean(cfg.historyDir), SanitizeName(name));
    CleanWellFormed(cfg.historyDir);
    RootShows(Clean(cfg.historyDir));
    TextInjective(Clean(cfg.historyDir), Path(true, []));
  }

  lemma DownAndUp(p: Path, part: string)
    requires Plain(part)
    ensures Enter(Enter(p, part), "..") == p && Enter(p, ".") == p && Enter(p, "") == p
  {
    var below := Enter(p, part);
    assert below.segments == p.segments + [part];
    assert below.segments[..|below.segments| - 1] == p.segments;
  }

  /** For a cluster called ".." it is the one above the common directory, and for one called "." or "" that
      directory itself. */
  lemma DotDirectoryExactly(cfg: Config, above: string, part: string)
    requires Tidy(above) && above != "/" && above != "." && Plain(part) && cfg.historyDir == above + "/" + part
    ensures DirFor(cfg, "..") == above
    ensures DirFor(cfg, ".") == DirFor(cfg, "") == above + "/" + part
  {
    TidyExactly(above, part);
    StepDown(above, part);
    DownAndUp(Clean(above), part);
    DotsEscape(cfg);
    assert SanitizeName("") == "";
  }

  /** A cluster keeps its history in memory when nothing is persisted or its directory cannot be made. */
  lemma OpenedExactly(cfg: Config, name: string, faults: Faults)
    ensures cfg.historyDir == "" ==> OpenedDir(cfg, name, faults) == ""
    ensures cfg.historyDir != "" && DirFor(cfg, name) in faults.unmakeable ==> OpenedDir(cfg, name, faults) == ""
    ensures cfg.historyDir != "" && DirFor(cfg, name) !in faults.unmakeable ==>
              OpenedDir(cfg, name, faults) == DirFor(cfg, name) != ""
  {
    if cfg.historyDir != "" {
      DirForNotEmpty(cfg, name);
    }
  }

  // File names.

  function C(n: nat): char { "0123456789"[n % 10] }

  function TwoDigits(n: nat): string { [C(n / 10), C(n)] }

  function ThreeDigits(n: nat): string { [C(n / 100)] + TwoDigits(n) }

  function FourDigits(n: nat): string { [C(n / 1000)] + ThreeDigits(n) }

  lemma DigitText(n: nat)
    ensures Digit(n % 10) == C(n)
  {
  }

  lemma PadTwo(n: nat)
    requires n < 100
    ensures ZeroPad(n, 2) == TwoDigits(n)
  {
    DigitText(n);
    DigitText(n / 10);
    assert ZeroPad(n / 10, 1) == [Digit(n / 10)];
  }

  lemma PadThree(n: nat)
    requires n < 1000
    ensures ZeroPad(n, 3) == ThreeDigits(n)
  {
    DigitText(n);
    PadTwo(n / 10);
    assert n / 10 / 10 == n / 100;
  }

  lemma PadFour(n: nat)
    requires n < 10000
    ensures ZeroPad(n, 4) == FourDigits(n)
  {
    DigitText(n);
    PadThree(n / 10);
    assert n / 10 / 10 == n / 100 && n / 10 / 100 == n / 1000;
  }

  /** Year, month and day, hour, minute and second, and milliseconds, in the fixed places of a file name. */
  lemma FileNameExactly(t: Instant)
    requires ValidInstant(t) && t.year < 10000
    ensures FileName(t) == "report-" + (FourDigits(t.year) + (TwoDigits(t.month) + (TwoDigits(t.day) + ("T"
      + (TwoDigits(t.hour) + (TwoDigits(t.minute) + (TwoDigits(t.second) + ("." + (ThreeDigits(t.milli) + "Z.json")))))))))
  {
    PadFour(t.year);
    PadTwo(t.month);
    PadTwo(t.day);
    PadTwo(t.hour);
    PadTwo(t.minute);
    PadTwo(t.second);
    PadThree(t.milli);
  }

  /** A reload takes up exactly the files called so with anything in between. */
  lemma GlobExactly(name: string, between: string)
    ensures IsReportName("report-" + between + ".json")
    ensures IsReportName(name) ==> |name| >= 12 && name == "report-" + name[7..|name| - 5] + ".json"
  {
    var made := "report-" + between + ".json";
    assert made[|made| - 5..] == ".json" && made[..7] == "report-";
    if IsReportName(name) {
      assert name[..7] == "report-" && name[|name| - 5..] == ".json";
      assert name == name[..7] + name[7..|name| - 5] + name[|name| - 5..];
    }
  }
}
