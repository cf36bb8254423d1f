/** The history store itself: bounded parallel slices, the last two reports, and a directory. */
module HistoryStore {
  import opened Ordering
  import opened Reports
  import opened Timestamps
  import opened Diffs
  import opened HistoryLog

  function DirAt(dirs: map<string, Dir>, dir: string): Dir {
    if dir in dirs then dirs[dir] else map[]
  }

  /** The file system with one directory replaced; memory-only stores ("") have none. */
  function WithDir(dirs: map<string, Dir>, dir: string, d: Dir): map<string, Dir> {
    if dir == "" then dirs else dirs[dir := d]
  }

  lemma WithDirTwice(dirs: map<string, Dir>, dir: string, a: Dir, b: Dir)
    ensures WithDir(WithDir(dirs, dir, a), dir, b) == WithDir(dirs, dir, b)
    ensures dir in dirs ==> WithDir(dirs, dir, DirAt(dirs, dir)) == dirs
  {
  }

  class FileSystem {
    var dirs: map<string, Dir>

    constructor (dirs: map<string, Dir>)
      ensures this.dirs == dirs
    {
      this.dirs := dirs;
    }

    method MkdirAll(dir: string)
      modifies this
      ensures dirs == old(dirs)[dir := DirAt(old(dirs), dir)]
    {
      dirs := dirs[dir := DirAt(dirs, dir)];
    }

    method WriteFile(dir: string, name: string, r: Report, w: Write)
      modifies this
      ensures dirs == old(dirs)[dir := WrittenTo(DirAt(old(dirs), dir), name, r, w)]
    {
      dirs := dirs[dir := WrittenTo(DirAt(dirs, dir), name, r, w)];
    }

    method Remove(dir: string, name: string, fails: bool)
      modifies this
      ensures dirs == old(dirs)[dir := DirAt(old(dirs), dir) - if fails then {} else {name}]
    {
      dirs := dirs[dir := DirAt(dirs, dir) - if fails then {} else {name}];
    }

    /** The names `filepath.Glob` matches, in whatever order, after `sort.Strings`. */
    method SortedGlob(dir: string) returns (names: seq<string>)
      ensures names == Listing(DirAt(dirs, dir).Keys)
    {
      names := SortedNames(DirAt(dirs, dir).Keys);
    }
  }

  class Store {
    const fs: FileSystem
    const dir: string
    const limit: nat
    var entries: seq<Entry>
    var files: seq<string>
    var prev: Option<Report>
    var last: Option<Report>
    /** Every run ever pushed; the fields above are its window. */
    ghost var runs: seq<Run>

    ghost function View(): Log
      reads this
    {
      Log(dir, limit, entries, files, prev, last)
    }

    ghost predicate Valid()
      reads this, fs
    {
      && limit >= 2 && |entries| == |files| <= limit
      && (dir != "" ==> dir in fs.dirs)
    }

    /** The fields show the window of the full log. */
    ghost predicate Refines()
      reads this
    {
      View() == Window(dir, limit, runs)
    }

    constructor (fs: FileSystem, dir: string, limit: nat)
      requires limit >= 2 && (dir != "" ==> dir in fs.dirs)
      ensures Valid() && Refines() && runs == []
      ensures this.fs == fs && this.dir == dir && this.limit == limit
    {
      this.fs, this.dir, this.limit := fs, dir, limit;
      entries, files, prev, last := [], [], None, None;
      runs := [];
    }

    /** Opens a store on whatever the directory holds. Null when the directory cannot be made. */
    static method New(fs: FileSystem, dir: string, limit: int, mkdirOk: bool, stuck: set<string>)
      returns (s: Store?)
      modifies fs
      ensures s == null <==> dir != "" && !mkdirOk
      ensures s == null ==> fs.dirs == old(fs.dirs)
      ensures s != null ==> fresh(s) && s.Valid() && s.Refines() && s.fs == fs && s.dir == dir && s.limit == Clamp(limit)
      ensures s != null ==> s.limit == if limit >= 2 then limit else 2
      ensures s != null ==> s.runs == if dir == "" then [] else Readable(DirAt(old(fs.dirs), dir))
      ensures s != null ==> s.View() == Reloaded(dir, Clamp(limit), DirAt(old(fs.dirs), dir))
      ensures s != null ==>
                fs.dirs == WithDir(old(fs.dirs), dir, ReloadedDir(Clamp(limit), DirAt(old(fs.dirs), dir), stuck))
    {
      if dir != "" && !mkdirOk {
        return null;
      }
      if dir == "" {
        s := new Store(fs, dir, Clamp(limit));
        return;
      }
      fs.MkdirAll(dir);
      s := new Store(fs, dir, Clamp(limit));
      s.Load(stuck);
    }

    /** Pushes every readable report of the directory in the order of the file names. */
    method Load(stuck: set<string>)
      requires Valid() && Refines() && runs == [] && dir != ""
      modifies this, fs
      ensures Valid() && Refines()
      ensures runs == Readable(DirAt(old(fs.dirs), dir))
      ensures fs.dirs == WithDir(old(fs.dirs), dir, ReloadedDir(limit, DirAt(old(fs.dirs), dir), stuck))
    {
      var names := fs.SortedGlob(dir);
      assert Distinct(names);
      LoadAll(names, fs.dirs[dir], stuck);
    }

    method LoadAll(names: seq<string>, ghost d: Dir, stuck: set<string>)
      requires Valid() && Refines() && runs == [] && dir != "" && DirAt(fs.dirs, dir) == d
      requires Distinct(names) && forall n | n in names :: n in d
      modifies this, fs
      ensures Valid() && Refines()
      ensures runs == SavedRuns(d, names)
      ensures fs.dirs == WithDir(old(fs.dirs), dir, d - (OldFiles(runs, limit) - stuck))
    {
      NothingOld(d, limit, stuck);
      WithDirTwice(fs.dirs, dir, d, d);
      assert names[..0] == [];
      for i := 0 to |names|
        invariant Valid() && Refines() && runs == SavedRuns(d, names[..i])
        invariant fs.dirs == WithDir(old(fs.dirs), dir, d - (OldFiles(runs, limit) - stuck))
      {
        assert names[..i + 1][..i] == names[..i];
        ghost var before := DirAt(fs.dirs, dir);
        LoadOne(names, i, d, stuck);
        WithDirTwice(old(fs.dirs), dir, before, d - (OldFiles(runs, limit) - stuck));
      }
      assert names[..|names|] == names;
    }

    /** Reads one file; unreadable files are skipped. */
    method LoadOne(names: seq<string>, i: nat, ghost d: Dir, stuck: set<string>)
      requires Valid() && Refines() && dir != "" && i < |names| && names[i] in d && Distinct(names)
      requires runs == SavedRuns(d, names[..i])
      requires DirAt(fs.dirs, dir) == d - (OldFiles(runs, limit) - stuck)
      modifies this, fs
      ensures Valid() && Refines()
      ensures runs == old(runs) + if d[names[i]].Saved? then [Run(d[names[i]].report, names[i])] else []
      ensures fs.dirs == WithDir(old(fs.dirs), dir, d - (OldFiles(runs, limit) - stuck))
    {
      SavedRunsNamed(d, names[..i]);
      assert forall n | n in names[..i] :: n != names[i];
      var file := fs.dirs[dir][names[i]];
      if file.Saved? {
        EvictionsAddUp(dir, limit, runs, Run(file.report, names[i]), d, stuck);
        Push(file.report, names[i], stuck);
      }
    }

    /** Records a fresh report. `w` is how persisting it ends, `stuck` the files that cannot be removed. */
    method Append(r: Report, w: Write, stuck: set<string>)
      requires Valid()
      modifies this, fs
      ensures Valid() && (old(Refines()) ==> Refines())
      ensures runs == old(runs) + [Run(r, FileFor(dir, FileName(r.generatedAt), w))]
      ensures View() == Appended(old(View()), r, FileName(r.generatedAt), w)
      ensures fs.dirs == WithDir(old(fs.dirs), dir,
                AppendedDir(old(View()), DirAt(old(fs.dirs), dir), r, FileName(r.generatedAt), w, stuck))
    {
      var file := "";
      if dir != "" {
        file := FileName(r.generatedAt);
        fs.WriteFile(dir, file, r, w);
        if w == Failed || w == Torn || w == Unlisted {
          file := "";
        }
      }
      ghost var written := DirAt(fs.dirs, dir);
      Push(r, file, stuck);
      WithDirTwice(old(fs.dirs), dir, written, DirAt(fs.dirs, dir));
    }

    /** `push`: one more run in the full log, the fields follow. */
    method Push(r: Report, file: string, stuck: set<string>)
      requires Valid()
      modifies this, fs
      ensures Valid() && (old(Refines()) ==> Refines())
      ensures runs == old(runs) + [Run(r, file)]
      ensures View() == Pushed(old(View()), r, file)
      ensures fs.dirs == WithDir(old(fs.dirs), dir,
                DirAt(old(fs.dirs), dir) - (Evicted(old(View()), file) - stuck))
    {
      PushRefinesAppend(dir, limit, runs, r, file);
      PushFields(r, file, stuck);
      runs := runs + [Run(r, file)];
    }

    /** Appends an entry, shifts the last two reports and prunes beyond the limit. */
    method PushFields(r: Report, file: string, stuck: set<string>)
      requires Valid()
      modifies this, fs
      ensures Valid() && runs == old(runs)
      ensures View() == Pushed(old(View()), r, file)
      ensures fs.dirs == WithDir(old(fs.dirs), dir,
                DirAt(old(fs.dirs), dir) - (Evicted(old(View()), file) - stuck))
    {
      entries := entries + [EntryOf(r)];
      files := files + [file];
      prev, last := last, Some(r);
      if |entries| > limit {
        Prune(stuck);
      } else {
        NothingEvicted(old(View()), file, DirAt(fs.dirs, dir), stuck);
        WithDirTwice(fs.dirs, dir, map[], map[]);
      }
    }

    /** The pruning loop: drops the oldest entries and removes their files. */
    method Prune(stuck: set<string>)
      requires limit < |entries| == |files| && (dir != "" ==> dir in fs.dirs)
      modifies this`entries, this`files, fs
      ensures entries == old(entries)[|old(entries)| - limit..]
      ensures files == old(files)[|old(files)| - limit..]
      ensures fs.dirs == WithDir(old(fs.dirs), dir, DirAt(old(fs.dirs), dir) - (Dropped(old(files), |old(files)| - limit) - stuck))
    {
      ghost var k := 0;
      assert DirAt(fs.dirs, dir) - (Dropped(files, 0) - stuck) == DirAt(fs.dirs, dir);
      while |entries| > limit
        invariant 0 <= k <= |old(entries)| - limit
        invariant entries == old(entries)[k..] && files == old(files)[k..]
        invariant dir != "" ==> dir in fs.dirs
        invariant fs.dirs == WithDir(old(fs.dirs), dir, DirAt(old(fs.dirs), dir) - (Dropped(old(files), k) - stuck))
        decreases |entries|
      {
        DroppedGrows(old(files), k, DirAt(old(fs.dirs), dir), stuck);
        if dir != "" && files[0] != "" {
          fs.Remove(dir, files[0], files[0] in stuck);
        }
        entries := entries[1..];
        files := files[1..];
        k := k + 1;
      }
    }

    method Entries() returns (index: seq<Entry>)
      requires Refines()
      ensures index == EntriesOf(Recent(runs, limit))
    {
      index := entries;
    }

    /** The diff of the two most recent runs, None before there are two. */
    method GetLastDiff() returns (d: Option<DiffResult>)
      ensures d == LastDiff(View())
    {
      if prev.None? || last.None? {
        return None;
      }
      var diff := Diff(prev.value, last.value);
      d := Some(diff);
    }
  }

  lemma NothingOld(d: Dir, limit: nat, stuck: set<string>)
    ensures d - (OldFiles([], limit) - stuck) == d
  {
  }

  lemma NothingEvicted(log: Log, file: string, d: Dir, stuck: set<string>)
    requires |log.files| < log.limit
    ensures d - (Evicted(log, file) - stuck) == d
  {
    assert Evicted(log, file) == {};
  }

  ghost function Dropped(files: seq<string>, k: nat): set<string>
    requires k <= |files|
  {
    set i | 0 <= i < k && files[i] != "" :: files[i]
  }

  lemma DroppedGrows(files: seq<string>, k: nat, d: Dir, stuck: set<string>)
    requires k < |files|
    ensures files[k] == "" ==> Dropped(files, k + 1) == Dropped(files, k)
    ensures d - (Dropped(files, k) - stuck) - (if files[k] in stuck + {""} then {} else {files[k]})
         == d - (Dropped(files, k + 1) - stuck)
  {
    assert Dropped(files, k + 1) == Dropped(files, k) + if files[k] == "" then {} else {files[k]};
  }

  lemma EvictionsAddUp(dir: string, limit: nat, runs: seq<Run>, run: Run, d: Dir, stuck: set<string>)
    ensures d - (OldFiles(runs, limit) - stuck) - (Evicted(Window(dir, limit, runs), run.file) - stuck)
         == d - (OldFiles(runs + [run], limit) - stuck)
  {
    var all := runs + [run];
    var files := FilesOf(Recent(runs, limit)) + [run.file];
    EvictedIsOld(dir, limit, runs, run.report, run.file);
    forall n
      ensures n in OldFiles(all, limit) <==> n in OldFiles(runs, limit) || n in Evicted(Window(dir, limit, runs), run.file)
    {
      if n in OldFiles(all, limit) && n !in OldFiles(runs, limit) {
        var i :| 0 <= i < |all| - limit && all[i].file != "" && all[i].file == n;
        assert i == |runs| - limit;
        assert files[0] == n;
      }
      if n in OldFiles(runs, limit) {
        var i :| 0 <= i < |runs| - limit && runs[i].file != "" && runs[i].file == n;
        assert all[i].file == n;
      }
    }
  }
}
