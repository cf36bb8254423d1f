/** Fan-out of new findings: the global webhook hears everything, a team only its own. */
module Notify {
  import opened Reports

  datatype Notifier = Notifier(min: Severity)

  /** What a notifier posts: the findings at or above its threshold. Nothing when none qualifies. */
  function Qualifying(n: Notifier, fs: seq<LocatedFinding>): seq<LocatedFinding> {
    if fs == [] then []
    else
      var f := fs[|fs| - 1];
      Qualifying(n, fs[..|fs| - 1]) + if Rank(f.finding.severity) >= Rank(n.min) then [f] else []
  }

  /** The findings of one team, in order. Findings without a team belong to nobody. */
  function ShareOf(team: string, fs: seq<LocatedFinding>): seq<LocatedFinding> {
    if fs == [] then []
    else
      var f := fs[|fs| - 1];
      ShareOf(team, fs[..|fs| - 1]) + if f.team == team && team != "" then [f] else []
  }

  datatype Router = Router(globalSink: Option<Notifier>, teams: map<string, Notifier>)

  /** What the webhooks received. A team that got no request has no key. */
  datatype Delivery = Delivery(toGlobal: seq<LocatedFinding>, toTeam: map<string, seq<LocatedFinding>>)

  method NotifierNotify(n: Notifier, fs: seq<LocatedFinding>, reachable: bool)
    returns (post: seq<LocatedFinding>, ok: bool)
    ensures post == Qualifying(n, fs)
    ensures ok <==> post == [] || reachable
  {
    post := [];
    for i := 0 to |fs|
      invariant post == Qualifying(n, fs[..i])
    {
      assert fs[..i + 1][..i] == fs[..i];
      if Rank(fs[i].finding.severity) >= Rank(n.min) {
        post := post + [fs[i]];
      }
    }
    assert fs[..|fs|] == fs;
    ok := post == [] || reachable;
  }

  function Share(byTeam: map<string, seq<LocatedFinding>>, t: string): seq<LocatedFinding> {
    if t in byTeam then byTeam[t] else []
  }

  ghost predicate Grouped(byTeam: map<string, seq<LocatedFinding>>, fs: seq<LocatedFinding>) {
    forall t :: Share(byTeam, t) == ShareOf(t, fs)
  }

  lemma GroupedMore(byTeam: map<string, seq<LocatedFinding>>, fs: seq<LocatedFinding>, f: LocatedFinding)
    requires Grouped(byTeam, fs)
    ensures Grouped(if f.team == "" then byTeam else byTeam[f.team := Share(byTeam, f.team) + [f]], fs + [f])
  {
    var now := if f.team == "" then byTeam else byTeam[f.team := Share(byTeam, f.team) + [f]];
    forall t
      ensures Share(now, t) == ShareOf(t, fs + [f])
    {
      assert Share(byTeam, t) == ShareOf(t, fs);
    }
  }

  method GroupByTeam(fs: seq<LocatedFinding>) returns (byTeam: map<string, seq<LocatedFinding>>)
    ensures Grouped(byTeam, fs)
  {
    byTeam := map[];
    for i := 0 to |fs|
      invariant Grouped(byTeam, fs[..i])
    {
      var f := fs[i];
      GroupedMore(byTeam, fs[..i], f);
      assert fs[..i + 1] == fs[..i] + [f];
      if f.team != "" {
        byTeam := byTeam[f.team := Share(byTeam, f.team) + [f]];
      }
    }
    assert fs[..|fs|] == fs;
  }

  ghost function TeamPost(r: Router, fs: seq<LocatedFinding>, t: string): seq<LocatedFinding>
    requires t in r.teams
  {
    Qualifying(r.teams[t], ShareOf(t, fs))
  }

  /** Visits the teams in any order, as iteration over a Go map does. `down` holds the teams
      whose webhook fails. */
  method PostToTeams(r: Router, fs: seq<LocatedFinding>, down: set<string>)
    returns (posts: map<string, seq<LocatedFinding>>, ok: bool)
    ensures forall t :: t in posts <==> t in r.teams && TeamPost(r, fs, t) != []
    ensures forall t | t in posts :: posts[t] == TeamPost(r, fs, t)
    ensures ok <==> posts.Keys !! down
  {
    posts, ok := map[], true;
    var byTeam := GroupByTeam(fs);
    var rest := r.teams.Keys;
    while rest != {}
      invariant rest <= r.teams.Keys
      invariant forall t :: t in posts <==> t in r.teams && t !in rest && TeamPost(r, fs, t) != []
      invariant forall t | t in posts :: posts[t] == TeamPost(r, fs, t)
      invariant ok <==> posts.Keys !! down
      decreases rest
    {
      var t :| t in rest;
      rest := rest - {t};
      var share := Share(byTeam, t);
      assert share == ShareOf(t, fs);
      if share != [] {
        var post, sent := NotifierNotify(r.teams[t], share, t !in down);
        ok := ok && sent;
        if post != [] {
          posts := posts[t := post];
        }
      }
    }
  }

  method RouterNotify(r: Router, fs: seq<LocatedFinding>, globalUp: bool, down: set<string>)
    returns (d: Delivery, ok: bool)
    ensures d.toGlobal == if r.globalSink.Some? then Qualifying(r.globalSink.value, fs) else []
    ensures forall t :: t in d.toTeam <==> t in r.teams && TeamPost(r, fs, t) != []
    ensures forall t | t in d.toTeam :: d.toTeam[t] == TeamPost(r, fs, t)
    ensures ok <==> (d.toGlobal == [] || globalUp) && d.toTeam.Keys !! down
  {
    var toGlobal, globalOk := [], true;
    if r.globalSink.Some? {
      toGlobal, globalOk := NotifierNotify(r.globalSink.value, fs, globalUp);
    }
    var toTeam, teamsOk := map[], true;
    if |r.teams| > 0 {
      toTeam, teamsOk := PostToTeams(r, fs, down);
    }
    d, ok := Delivery(toGlobal, toTeam), globalOk && teamsOk;
  }

  lemma {:induction false} QualifyingCounts(n: Notifier, fs: seq<LocatedFinding>, f: LocatedFinding)
    ensures multiset(Qualifying(n, fs))[f]
         == if Rank(f.finding.severity) >= Rank(n.min) then multiset(fs)[f] else 0
  {
    if fs != [] {
      QualifyingCounts(n, fs[..|fs| - 1], f);
      assert fs == fs[..|fs| - 1] + [fs[|fs| - 1]];
    }
  }

  lemma {:induction false} ShareCounts(team: string, fs: seq<LocatedFinding>, f: LocatedFinding)
    ensures multiset(ShareOf(team, fs))[f] == if f.team == team && team != "" then multiset(fs)[f] else 0
  {
    if fs != [] {
      ShareCounts(team, fs[..|fs| - 1], f);
      assert fs == fs[..|fs| - 1] + [fs[|fs| - 1]];
    }
  }

  /** Each team is sent every qualifying finding of its own namespaces, as often as it occurs,
      and no finding of anybody else. */
  lemma TeamHearsExactlyItsOwn(r: Router, fs: seq<LocatedFinding>, t: string, f: LocatedFinding)
    requires t in r.teams
    ensures multiset(TeamPost(r, fs, t))[f]
         == if f.team == t && t != "" && Rank(f.finding.severity) >= Rank(r.teams[t].min)
            then multiset(fs)[f] else 0
  {
    QualifyingCounts(r.teams[t], ShareOf(t, fs), f);
    ShareCounts(t, fs, f);
  }
}
