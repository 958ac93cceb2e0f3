/** The order in which extensions and their dependencies are loaded: a depth-first
    traversal of a possibly cyclic dependency graph. */
module TczOrder {
  import opened TczNames

  datatype Result = Ok(order: seq<string>) | EmptyName

  // -------------------------------------------------------------------- the graph

  ghost predicate Edge(repo: Repository, a: string, b: string) {
    b in Dependencies(repo, a)
  }

  ghost predicate IsPath(repo: Repository, p: seq<string>) {
    p != [] && forall i :: 0 <= i < |p| - 1 ==> Edge(repo, p[i], p[i + 1])
  }

  ghost predicate PathFrom(repo: Repository, p: seq<string>, a: string, b: string) {
    IsPath(repo, p) && p[0] == a && p[|p| - 1] == b
  }

  ghost predicate Reaches(repo: Repository, a: string, b: string) {
    exists p :: PathFrom(repo, p, a, b)
  }

  lemma ReachesSelf(repo: Repository, a: string)
    ensures Reaches(repo, a, a)
  {
    assert PathFrom(repo, [a], a, a);
  }

  lemma ReachesNext(repo: Repository, a: string, b: string, c: string)
    requires Reaches(repo, a, b) && Edge(repo, b, c)
    ensures Reaches(repo, a, c)
  {
    var p :| PathFrom(repo, p, a, b);
    assert PathFrom(repo, p + [c], a, c);
  }

  lemma ReachesTrans(repo: Repository, a: string, b: string, c: string)
    requires Reaches(repo, a, b) && Reaches(repo, b, c)
    ensures Reaches(repo, a, c)
  {
    var p :| PathFrom(repo, p, a, b);
    var q :| PathFrom(repo, q, b, c);
    var r := p + q[1..];
    forall i | 0 <= i < |r| - 1
      ensures Edge(repo, r[i], r[i + 1])
    {
      if i < |p| - 1 {
        assert Edge(repo, p[i], p[i + 1]);
      } else {
        assert Edge(repo, q[i - |p| + 1], q[i - |p| + 2]);
      }
    }
    assert PathFrom(repo, r, a, c);
  }

  ghost predicate Closed(repo: Repository, s: set<string>) {
    forall a, b :: a in s && Edge(repo, a, b) ==> b in s
  }

  lemma ClosedStep(repo: Repository, s: set<string>, a: string, b: string)
    requires Closed(repo, s) && a in s && Edge(repo, a, b)
    ensures b in s
  {
  }

  lemma PathTail(repo: Repository, p: seq<string>)
    requires IsPath(repo, p) && |p| > 1
    ensures Edge(repo, p[0], p[1]) && IsPath(repo, p[1..])
  {
    hide Edge;
    forall i | 0 <= i < |p[1..]| - 1
      ensures Edge(repo, p[1..][i], p[1..][i + 1])
    {
      assert Edge(repo, p[i + 1], p[i + 2]);
    }
  }

  /** A set closed under dependencies contains all that its members reach. */
  lemma {:induction false} ClosedUnderReach(repo: Repository, s: set<string>, p: seq<string>)
    requires Closed(repo, s) && IsPath(repo, p) && p[0] in s
    ensures p[|p| - 1] in s
    decreases |p|
  {
    hide Edge, Closed;
    if |p| > 1 {
      PathTail(repo, p);
      ClosedStep(repo, s, p[0], p[1]);
      ClosedUnderReach(repo, s, p[1..]);
    }
  }

  // ---------------------------------------------------------- what an order promises

  ghost predicate NoRepeats(s: seq<string>) {
    forall i, j :: 0 <= i < j < |s| ==> s[i] != s[j]
  }

  ghost predicate BlankFree(seeds: seq<string>) {
    forall i :: 0 <= i < |seeds| ==> !Blank(seeds[i])
  }

  ghost predicate SeedReaches(repo: Repository, seeds: seq<string>, n: string)
    requires BlankFree(seeds)
  {
    exists i :: 0 <= i < |seeds| && Reaches(repo, Normalize(seeds[i]), n)
  }

  /** Each dependency of an element stands before it, or leads back to it. */
  ghost predicate DependenciesSettled(repo: Repository, order: seq<string>) {
    forall i, d :: 0 <= i < |order| && Edge(repo, order[i], d) ==> d in order[..i] || Reaches(repo, d, order[i])
  }

  /** No repetitions, exactly what the seeds reach, dependencies first up to cycles. */
  ghost predicate IsLoadOrder(repo: Repository, seeds: seq<string>, order: seq<string>)
    requires BlankFree(seeds)
  {
    && NoRepeats(order)
    && (forall n :: n in order <==> SeedReaches(repo, seeds, n))
    && DependenciesSettled(repo, order)
  }

  ghost predicate OnCycle(repo: Repository, a: string) {
    exists d :: Edge(repo, a, d) && Reaches(repo, d, a)
  }

  /** On an acyclic graph every dependency is loaded before everything that needs it. */
  lemma AcyclicLoadsDependenciesFirst(repo: Repository, seeds: seq<string>, order: seq<string>, i: nat, d: string)
    requires BlankFree(seeds) && IsLoadOrder(repo, seeds, order)
    requires forall n :: n in order ==> !OnCycle(repo, n)
    requires i < |order| && Edge(repo, order[i], d)
    ensures exists j :: 0 <= j < i && order[j] == d
  {
    assert order[i] in order && !OnCycle(repo, order[i]);
    assert d in order[..i];
  }

  /** Each dependency stands before what needs it. */
  ghost predicate DependenciesFirst(repo: Repository, order: seq<string>) {
    forall i, d :: 0 <= i < |order| && Edge(repo, order[i], d) ==> d in order[..i]
  }

  /** Exactly when all dependencies can come first, and then they do: when no name in the
      order lies on a cycle. */
  lemma DependenciesFirstIffAcyclic(repo: Repository, seeds: seq<string>, order: seq<string>)
    requires BlankFree(seeds) && IsLoadOrder(repo, seeds, order)
    ensures DependenciesFirst(repo, order) <==> forall n :: n in order ==> !OnCycle(repo, n)
  {
    hide Edge, Reaches;
    if DependenciesFirst(repo, order) {
      forall n | n in order
        ensures !OnCycle(repo, n)
      {
        var i :| 0 <= i < |order| && order[i] == n;
        NotBack(repo, order, i);
      }
    }
    if forall n :: n in order ==> !OnCycle(repo, n) {
      forall i, d | 0 <= i < |order| && Edge(repo, order[i], d)
        ensures d in order[..i]
      {
        AcyclicLoadsDependenciesFirst(repo, seeds, order, i, d);
      }
    }
  }

  /** What stands before a position is closed, so nothing there leads to the position. */
  lemma NotBack(repo: Repository, order: seq<string>, i: nat)
    requires NoRepeats(order) && DependenciesFirst(repo, order) && i < |order|
    ensures !OnCycle(repo, order[i])
  {
    hide Edge;
    var s := set n | n in order[..i];
    forall a, b | a in s && Edge(repo, a, b)
      ensures b in s
    {
      var k :| 0 <= k < i && order[k] == a;
      assert b in order[..k] && order[..k] <= order[..i];
    }
    forall d | Edge(repo, order[i], d) && Reaches(repo, d, order[i])
      ensures order[i] in s
    {
      var p :| PathFrom(repo, p, d, order[i]);
      ClosedUnderReach(repo, s, p);
    }
  }

  // --------------------------------------------------------------- the traversal

  class Resolver {
    const repo: Repository
    ghost const universe: set<string>
    var seen: set<string>
    var ordered: seq<string>

    ghost predicate Valid()
      reads this
    {
      && seen <= universe
      && (forall a, b :: Edge(repo, a, b) ==> b in universe)
      && (forall n :: n in ordered ==> n in seen)
      && NoRepeats(ordered) && DependenciesSettled(repo, ordered)
      && (forall a, b :: a in ordered && Edge(repo, a, b) ==> b in seen)
    }

    /** Visited but not finished: the names on the stack. */
    ghost predicate Open(n: string)
      reads this
    {
      n in seen && n !in ordered
    }

    constructor (repo: Repository, ghost universe: set<string>)
      requires forall a, b :: Edge(repo, a, b) ==> b in universe
      ensures Valid() && this.repo == repo && this.universe == universe && seen == {} && ordered == []
    {
      this.repo := repo;
      this.universe := universe;
      seen := {};
      ordered := [];
    }

    /** Visits a name that every open name reaches. Nothing open is closed, what is newly
        visited is reached from the name, and the order is only extended. */
    method Visit(name: string)
      requires Valid() && !Blank(name) && Normalize(name) in universe
      requires forall n :: Open(n) ==> Reaches(repo, n, Normalize(name))
      modifies this
      ensures Valid() && old(ordered) <= ordered && old(seen) <= seen && Normalize(name) in seen
      ensures forall n :: Open(n) <==> old(Open(n))
      ensures forall n :: n in seen && n !in old(seen) ==> Reaches(repo, Normalize(name), n)
      decreases universe - seen
    {
      hide Edge, Reaches, Normalize, Blank, Dependencies, NoRepeats, DependenciesSettled;
      var n := Normalize(name);
      if n in seen {
        return;
      }
      seen := seen + {n};
      ReachesSelf(repo, n);
      var deps := Dependencies(repo, n);
      var i := 0;
      while i < |deps|
        invariant i <= |deps| && Valid()
        invariant old(ordered) <= ordered && old(seen) + {n} <= seen
        invariant forall x :: Open(x) <==> old(Open(x)) || x == n
        invariant forall x :: x in seen && x !in old(seen) ==> Reaches(repo, n, x)
        invariant forall j :: 0 <= j < i ==> deps[j] in seen
      {
        IsDependency(repo, n, i);
        forall x | Open(x)
          ensures Reaches(repo, x, deps[i])
        {
          ReachesNext(repo, x, n, deps[i]);
        }
        ghost var before := seen;
        Visit(deps[i]);
        forall x | x in seen && x !in before
          ensures Reaches(repo, n, x)
        {
          ReachesNext(repo, n, n, deps[i]);
          ReachesTrans(repo, n, deps[i], x);
        }
        i := i + 1;
      }
      AllVisited(repo, n, seen);
      Finish(n);
    }

    /** The last step of a visit: the name joins the order. */
    method Finish(n: string)
      requires Valid() && Open(n)
      requires forall d :: Edge(repo, n, d) ==> d in seen
      requires forall x :: Open(x) ==> Reaches(repo, x, n)
      modifies this`ordered
      ensures Valid() && ordered == old(ordered) + [n]
    {
      forall d | Edge(repo, n, d) && d !in ordered
        ensures Reaches(repo, d, n)
      {
        assert Open(d);
      }
      Appended(repo, ordered, n);
      ordered := ordered + [n];
    }
  }

  lemma IsDependency(repo: Repository, n: string, i: nat)
    requires i < |Dependencies(repo, n)|
    ensures var d := Dependencies(repo, n)[i]; Edge(repo, n, d) && !Blank(d) && Normalize(d) == d
  {
    assert Dependencies(repo, n)[i] in Dependencies(repo, n);
  }

  lemma AllVisited(repo: Repository, n: string, seen: set<string>)
    requires forall j :: 0 <= j < |Dependencies(repo, n)| ==> Dependencies(repo, n)[j] in seen
    ensures forall d :: Edge(repo, n, d) ==> d in seen
  {
  }

  lemma Appended(repo: Repository, order: seq<string>, n: string)
    requires DependenciesSettled(repo, order)
    requires forall d :: Edge(repo, n, d) ==> d in order || Reaches(repo, d, n)
    ensures DependenciesSettled(repo, order + [n])
  {
    var order' := order + [n];
    forall i, d | 0 <= i < |order'| && Edge(repo, order'[i], d)
      ensures d in order'[..i] || Reaches(repo, d, order'[i])
    {
      if i < |order| {
        assert order'[..i] == order[..i];
      } else {
        assert order'[..i] == order;
      }
    }
  }

  /** Every name that can ever be visited. */
  ghost function Universe(repo: Repository, seeds: seq<string>): set<string> {
    (set i | 0 <= i < |seeds| && !Blank(seeds[i]) :: Normalize(seeds[i]))
    + (set k, d | k in repo && d in Dependencies(repo, k) :: d)
  }

  lemma UniverseIsClosed(repo: Repository, seeds: seq<string>)
    ensures forall a, b :: Edge(repo, a, b) ==> b in Universe(repo, seeds)
    ensures forall i :: 0 <= i < |seeds| && !Blank(seeds[i]) ==> Normalize(seeds[i]) in Universe(repo, seeds)
  {
  }

  /** Every visited name is reached from one of the first i seeds. */
  ghost predicate FromSeeds(repo: Repository, seeds: seq<string>, i: nat, seen: set<string>) {
    && i <= |seeds| && BlankFree(seeds[..i])
    && forall n :: n in seen ==> SeedReaches(repo, seeds[..i], n)
  }

  lemma OneMoreSeed(repo: Repository, seeds: seq<string>, i: nat, seen: set<string>, seen': set<string>)
    requires FromSeeds(repo, seeds, i, seen) && i < |seeds| && !Blank(seeds[i])
    requires forall n :: n in seen' && n !in seen ==> Reaches(repo, Normalize(seeds[i]), n)
    ensures FromSeeds(repo, seeds, i + 1, seen')
  {
    assert forall j :: 0 <= j < i ==> seeds[..i + 1][j] == seeds[..i][j];
    assert seeds[..i + 1][i] == seeds[i];
    forall n | n in seen'
      ensures SeedReaches(repo, seeds[..i + 1], n)
    {
      if n in seen {
        assert SeedReaches(repo, seeds[..i], n);
        var j :| 0 <= j < i && Reaches(repo, Normalize(seeds[..i][j]), n);
        assert Reaches(repo, Normalize(seeds[..i + 1][j]), n);
      }
    }
  }

  /** When nothing is open any more, the order is complete. */
  lemma CompletedOrder(repo: Repository, seeds: seq<string>, seen: set<string>, order: seq<string>)
    requires BlankFree(seeds) && FromSeeds(repo, seeds, |seeds|, seen)
    requires NoRepeats(order) && DependenciesSettled(repo, order)
    requires forall n :: n in seen <==> n in order
    requires forall i :: 0 <= i < |seeds| ==> Normalize(seeds[i]) in seen
    requires forall a, b :: a in order && Edge(repo, a, b) ==> b in seen
    ensures IsLoadOrder(repo, seeds, order)
  {
    hide Blank, Normalize, Edge, DependenciesSettled, NoRepeats;
    assert seeds[..|seeds|] == seeds;
    forall n | SeedReaches(repo, seeds, n)
      ensures n in seen
    {
      var j :| 0 <= j < |seeds| && Reaches(repo, Normalize(seeds[j]), n);
      var p :| PathFrom(repo, p, Normalize(seeds[j]), n);
      ClosedUnderReach(repo, seen, p);
    }
  }

  /** On any finite dependency graph, cycles included, resolving terminates. It raises
      exactly when a seed is blank; otherwise the result is a load order: free of
      repetitions, exactly the names the seeds reach, and each dependency stands before
      its dependent unless it can itself reach that dependent. */
  method Resolve(repo: Repository, seeds: seq<string>) returns (r: Result)
    ensures r.Ok? <==> BlankFree(seeds)
    ensures r.Ok? ==> IsLoadOrder(repo, seeds, r.order)
  {
    hide Universe, Blank, Normalize, Reaches, Edge, FromSeeds;
    UniverseIsClosed(repo, seeds);
    var resolver := new Resolver(repo, Universe(repo, seeds));
    FromNoSeeds(repo, seeds);
    var i := 0;
    while i < |seeds|
      invariant i <= |seeds| && resolver.Valid() && fresh(resolver)
      invariant resolver.repo == repo && resolver.universe == Universe(repo, seeds)
      invariant forall j :: 0 <= j < i ==> !Blank(seeds[j]) && Normalize(seeds[j]) in resolver.seen
      invariant forall n :: !resolver.Open(n)
      invariant FromSeeds(repo, seeds, i, resolver.seen)
    {
      if Blank(seeds[i]) {
        return EmptyName;
      }
      ghost var before := resolver.seen;
      resolver.Visit(seeds[i]);
      OneMoreSeed(repo, seeds, i, before, resolver.seen);
      i := i + 1;
    }
    assert forall n :: n in resolver.seen ==> !resolver.Open(n);
    CompletedOrder(repo, seeds, resolver.seen, resolver.ordered);
    r := Ok(resolver.ordered);
  }

  lemma FromNoSeeds(repo: Repository, seeds: seq<string>)
    ensures FromSeeds(repo, seeds, 0, {})
  {
  }
}
