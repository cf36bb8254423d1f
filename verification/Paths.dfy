/** Lexical path cleaning, as `filepath.Join` does it on a slash-separated system. */
module Paths {
  import opened Ordering

  /** A cleaned path: whether it starts at the root, and its segments. */
  datatype Path = Path(rooted: bool, segments: seq<string>)

  const ROOT := Path(true, [])

  function Split(s: string): (parts: seq<string>)
    ensures parts != []
  {
    if s == [] then [[]]
    else
      var rest := Split(s[1..]);
      if s[0] == '/' then [[]] + rest else [[s[0]] + rest[0]] + rest[1..]
  }

  /** Descends into one segment; ".." climbs, as far as there is something to climb out of. */
  function Enter(p: Path, part: string): Path {
    var n := |p.segments|;
    if part == "" || part == "." then p
    else if part != ".." then p.(segments := p.segments + [part])
    else if n > 0 && p.segments[n - 1] != ".." then p.(segments := p.segments[..n - 1])
    else if p.rooted then p
    else p.(segments := p.segments + [".."])
  }

  function Walk(p: Path, parts: seq<string>): Path {
    if parts == [] then p else Enter(Walk(p, parts[..|parts| - 1]), parts[|parts| - 1])
  }

  function Clean(s: string): Path {
    Walk(Path(s != [] && s[0] == '/', []), Split(s))
  }

  function Joined(parts: seq<string>): string {
    if parts == [] then ""
    else if |parts| == 1 then parts[0]
    else parts[0] + ['/'] + Joined(parts[1..])
  }

  function Text(p: Path): string {
    if p.rooted then ['/'] + Joined(p.segments) else if p.segments == [] then "." else Joined(p.segments)
  }

  /** `filepath.Join` of a directory and one name; an empty name is ignored. */
  function Join(dir: string, name: string): string {
    if name == "" then Text(Clean(dir)) else Text(Clean(dir + ['/'] + name))
  }

  lemma {:induction false} SplitAtEnd(s: string, name: string)
    requires '/' !in name
    ensures Split(s + ['/'] + name) == Split(s) + [name]
  {
    var t := s + ['/'] + name;
    if s == [] {
      SplitPlain(name);
      assert t[1..] == name;
    } else {
      assert t[0] == s[0] && t[1..] == s[1..] + ['/'] + name;
      SplitAtEnd(s[1..], name);
    }
  }

  lemma {:induction false} SplitPlain(name: string)
    requires '/' !in name
    ensures Split(name) == [name]
  {
    if name != [] {
      SplitPlain(name[1..]);
      assert name == [name[0]] + name[1..];
    }
  }

  /** Joining a name is one more step from the cleaned directory. */
  lemma JoinEnters(dir: string, name: string)
    requires dir != "" && '/' !in name
    ensures Join(dir, name) == Text(Enter(Clean(dir), name))
  {
    var parts := Split(dir);
    SplitAtEnd(dir, name);
    assert (parts + [name])[..|parts|] == parts;
    assert (dir + ['/'] + name)[0] == dir[0];
  }

  // A cleaned path is determined by its text.

  predicate Proper(part: string) {
    part != "" && part != "." && '/' !in part
  }

  ghost predicate WellFormed(p: Path) {
    (forall part | part in p.segments :: Proper(part)) && (p.rooted ==> ".." !in p.segments)
  }

  lemma {:induction false} SplitHasNoSlash(s: string)
    ensures forall part | part in Split(s) :: '/' !in part
  {
    if s != [] {
      SplitHasNoSlash(s[1..]);
      assert Split(s[1..])[0] in Split(s[1..]);
    }
  }

  lemma {:induction false} WalkWellFormed(p: Path, parts: seq<string>)
    requires WellFormed(p) && forall part | part in parts :: '/' !in part
    ensures WellFormed(Walk(p, parts))
  {
    if parts != [] {
      WalkWellFormed(p, parts[..|parts| - 1]);
    }
  }

  lemma CleanWellFormed(s: string)
    ensures WellFormed(Clean(s))
  {
    SplitHasNoSlash(s);
    WalkWellFormed(Path(s != [] && s[0] == '/', []), Split(s));
  }

  lemma {:induction false} JoinedInjective(a: seq<string>, b: seq<string>)
    requires forall part | part in a :: Proper(part)
    requires forall part | part in b :: Proper(part)
    requires Joined(a) == Joined(b)
    ensures a == b
    decreases |a|
  {
    JoinedStart(a);
    JoinedStart(b);
    if a != [] && b != [] {
      assert Proper(a[0]) && Proper(b[0]);
      if |a| > 1 && |b| > 1 {
        SeparatorSplits('/', a[0], b[0], Joined(a[1..]), Joined(b[1..]));
        JoinedInjective(a[1..], b[1..]);
        assert a == [a[0]] + a[1..] && b == [b[0]] + b[1..];
      }
    }
  }

  lemma JoinedStart(a: seq<string>)
    requires forall part | part in a :: Proper(part)
    ensures a != [] ==> Joined(a) != "" && Joined(a)[0] != '/'
    ensures |a| > 1 <==> '/' in Joined(a)
    ensures Joined(a) != "."
  {
    if a != [] {
      assert Proper(a[0]);
      assert a[0][0] in a[0];
      if |a| > 1 {
        assert Joined(a)[|a[0]|] == '/';
        assert |Joined(a)| >= |a[0]| + 1;
      }
    }
  }

  lemma RootShows(p: Path)
    requires WellFormed(p)
    ensures Text(p) != "" && (Text(p)[0] == '/' <==> p.rooted)
  {
    JoinedStart(p.segments);
  }

  lemma TextInjective(p: Path, q: Path)
    requires WellFormed(p) && WellFormed(q)
    ensures Text(p) == Text(q) <==> p == q
  {
    RootShows(p);
    RootShows(q);
    JoinedStart(p.segments);
    JoinedStart(q.segments);
    if Text(p) == Text(q) {
      if p.rooted {
        assert Text(p)[1..] == Joined(p.segments) && Text(q)[1..] == Joined(q.segments);
        JoinedInjective(p.segments, q.segments);
      } else if p.segments != [] && q.segments != [] {
        JoinedInjective(p.segments, q.segments);
      }
    }
  }

  /** Two names lead from one directory to the same place exactly when they are equal, both stand for
      the directory itself, or climb out of the root. */
  lemma EnterCollides(p: Path, a: string, b: string)
    requires WellFormed(p)
    ensures Enter(p, a) == Enter(p, b) <==>
            || a == b
            || (a in {"", "."} && b in {"", "."})
            || (p == ROOT && a in {"", ".", ".."} && b in {"", ".", ".."})
  {
    EnterSize(p, a);
    EnterSize(p, b);
  }

  lemma EnterSize(p: Path, a: string)
    requires WellFormed(p)
    ensures var n, q := |p.segments|, Enter(p, a);
            && (a in {"", "."} ==> q == p)
            && (a !in {"", ".", ".."} ==> |q.segments| == n + 1 && q.segments[n] == a)
            && (a == ".." && p == ROOT ==> q == p)
            && (a == ".." && p != ROOT ==>
                  |q.segments| == n - 1 || (|q.segments| == n + 1 && q.segments[n] == ".."))
  {
  }
}
