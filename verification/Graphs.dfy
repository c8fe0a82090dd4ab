/** Finite directed graphs: an edge (u, v) reads "u depends on v". */
module Graphs {

  ghost predicate IsPath<T>(g: set<(T, T)>, p: seq<T>, u: T, v: T) {
    && |p| >= 2 && p[0] == u && p[|p| - 1] == v
    && forall i :: 0 <= i < |p| - 1 ==> (p[i], p[i + 1]) in g
  }

  /** v lies on some path of at least one edge out of u. */
  ghost predicate Reaches<T(!new)>(g: set<(T, T)>, u: T, v: T) {
    exists p: seq<T> :: IsPath(g, p, u, v)
  }

  ghost predicate Acyclic<T(!new)>(g: set<(T, T)>) {
    forall u: T :: !Reaches(g, u, u)
  }

  /** u reaches v through a first edge other than (u, v). */
  ghost predicate Alternate<T(!new)>(g: set<(T, T)>, u: T, v: T) {
    exists w: T :: (u, w) in g && w != v && Reaches(g, w, v)
  }

  ghost predicate SameReachability<T(!new)>(g: set<(T, T)>, h: set<(T, T)>) {
    forall u: T, v: T :: Reaches(g, u, v) <==> Reaches(h, u, v)
  }

  /** `rank` decreases along every edge. */
  ghost predicate Ranks<T>(g: set<(T, T)>, rank: map<T, int>) {
    forall e :: e in g ==> e.0 in rank && e.1 in rank && rank[e.1] < rank[e.0]
  }

  lemma EdgeReaches<T(!new)>(g: set<(T, T)>, u: T, v: T)
    requires (u, v) in g
    ensures Reaches(g, u, v)
  {
    assert IsPath(g, [u, v], u, v);
  }

  lemma PathsConcatenate<T(!new)>(g: set<(T, T)>, p: seq<T>, q: seq<T>, u: T, v: T, w: T)
    requires IsPath(g, p, u, v) && IsPath(g, q, v, w)
    ensures IsPath(g, p + q[1..], u, w)
  {
    var r := p + q[1..];
    forall i | 0 <= i < |r| - 1 ensures (r[i], r[i + 1]) in g {
      if i < |p| - 1 {
        assert r[i] == p[i] && r[i + 1] == p[i + 1];
      } else {
        var k := i - (|p| - 1);
        assert r[i] == q[k] && r[i + 1] == q[k + 1];
      }
    }
  }

  lemma ReachesTransitive<T(!new)>(g: set<(T, T)>, u: T, v: T, w: T)
    requires Reaches(g, u, v) && Reaches(g, v, w)
    ensures Reaches(g, u, w)
  {
    var p :| IsPath(g, p, u, v);
    var q :| IsPath(g, q, v, w);
    PathsConcatenate(g, p, q, u, v, w);
  }

  lemma ReachesMonotone<T(!new)>(g: set<(T, T)>, h: set<(T, T)>, u: T, v: T)
    requires g <= h && Reaches(g, u, v)
    ensures Reaches(h, u, v)
  {
    var p :| IsPath(g, p, u, v);
    assert IsPath(h, p, u, v);
  }

  /** The first edge of a path, and where it leads. */
  lemma FirstEdge<T(!new)>(g: set<(T, T)>, u: T, v: T) returns (w: T)
    requires Reaches(g, u, v)
    ensures (u, w) in g && (w == v || Reaches(g, w, v))
  {
    var p :| IsPath(g, p, u, v);
    w := p[1];
    assert (p[0], p[0 + 1]) in g;
    if w != v {
      var q := p[1..];
      forall i | 0 <= i < |q| - 1 ensures (q[i], q[i + 1]) in g {
        assert (p[i + 1], p[i + 1 + 1]) in g;
      }
      assert IsPath(g, q, w, v);
    }
  }

  lemma SubgraphIsAcyclic<T(!new)>(g: set<(T, T)>, h: set<(T, T)>)
    requires Acyclic(g) && h <= g
    ensures Acyclic(h)
  {
    forall u | Reaches(h, u, u) ensures false { ReachesMonotone(h, g, u, u); }
  }

  ghost predicate Leads<T(!new)>(g: set<(T, T)>, u: T, v: T) { u == v || Reaches(g, u, v) }

  lemma LeadsOn<T(!new)>(g: set<(T, T)>, u: T, v: T, w: T)
    requires Leads(g, u, v) && Leads(g, v, w)
    ensures Leads(g, u, w)
    ensures Reaches(g, u, v) || Reaches(g, v, w) ==> Reaches(g, u, w)
  {
    if Reaches(g, u, v) && Reaches(g, v, w) { ReachesTransitive(g, u, v, w); }
  }

  lemma LeadsMonotone<T(!new)>(g: set<(T, T)>, h: set<(T, T)>, u: T, v: T)
    requires g <= h && Leads(g, u, v)
    ensures Leads(h, u, v)
  {
    if u != v { ReachesMonotone(g, h, u, v); }
  }

  /** A graph that stands for every edge of another stands for its paths. */
  lemma {:induction false} EdgesSuffice<T(!new)>(g: set<(T, T)>, h: set<(T, T)>, p: seq<T>, u: T, v: T)
    requires forall e :: e in g ==> Reaches(h, e.0, e.1)
    requires IsPath(g, p, u, v)
    ensures Reaches(h, u, v)
    decreases |p|
  {
    var n := |p| - 1;
    assert (p[n - 1], p[n - 1 + 1]) in g;
    if n > 1 {
      assert IsPath(g, p[..n], u, p[n - 1]);
      EdgesSuffice(g, h, p[..n], u, p[n - 1]);
      ReachesTransitive(h, u, p[n - 1], v);
    }
  }

  /** The same edges beside two graphs of the same reachability. */
  lemma SameBeside<T(!new)>(rest: set<(T, T)>, g: set<(T, T)>, h: set<(T, T)>)
    requires SameReachability(g, h)
    ensures SameReachability(rest + g, rest + h)
  {
    forall u: T, v: T ensures Reaches(rest + g, u, v) <==> Reaches(rest + h, u, v) {
      if Reaches(rest + g, u, v) { ReachesBeside(rest, g, h, u, v); }
      if Reaches(rest + h, u, v) { ReachesBeside(rest, h, g, u, v); }
    }
  }

  lemma ReachesBeside<T(!new)>(rest: set<(T, T)>, g: set<(T, T)>, h: set<(T, T)>, u: T, v: T)
    requires SameReachability(g, h) && Reaches(rest + g, u, v)
    ensures Reaches(rest + h, u, v)
  {
    forall e | e in rest + g ensures Reaches(rest + h, e.0, e.1) {
      assert e == (e.0, e.1);
      if e in rest {
        EdgeReaches(rest + h, e.0, e.1);
      } else {
        EdgeReaches(g, e.0, e.1);
        assert Reaches(h, e.0, e.1);
        ReachesMonotone(h, rest + h, e.0, e.1);
      }
    }
    var p :| IsPath(rest + g, p, u, v);
    EdgesSuffice(rest + g, rest + h, p, u, v);
  }

  // ---- joining every node of one set to every node of another -------------------

  function Joined<T>(a: set<T>, b: set<T>): set<(T, T)> {
    set x, y | x in a && y in b :: (x, y)
  }

  ghost predicate NoWayBack<T(!new)>(g: set<(T, T)>, a: set<T>, b: set<T>) {
    forall x, y :: x in a && y in b ==> !Leads(g, y, x)
  }

  /** u comes to v through one of the new edges. */
  ghost predicate LeadsAcross<T(!new)>(g: set<(T, T)>, a: set<T>, b: set<T>, u: T, v: T) {
    exists x, y :: x in a && y in b && Leads(g, u, x) && Leads(g, y, v)
  }

  lemma {:induction false} PathCrossesOnce<T(!new)>(g: set<(T, T)>, a: set<T>, b: set<T>, p: seq<T>, u: T, v: T)
    requires NoWayBack(g, a, b) && IsPath(g + Joined(a, b), p, u, v)
    ensures Reaches(g, u, v) || LeadsAcross(g, a, b, u, v)
    decreases |p|
  {
    hide Joined;
    var w := p[|p| - 2];
    assert (p[|p| - 2], p[|p| - 2 + 1]) in g + Joined(a, b);
    if |p| > 2 {
      assert IsPath(g + Joined(a, b), p[..|p| - 1], u, w);
      PathCrossesOnce(g, a, b, p[..|p| - 1], u, w);
    }
    if (w, v) in g {
      EdgeReaches(g, w, v);
      if u == w || Reaches(g, u, w) {
        LeadsOn(g, u, w, v);
      } else {
        var x, y :| x in a && y in b && Leads(g, u, x) && Leads(g, y, w);
        LeadsOn(g, y, w, v);
      }
    } else {
      JoinedEnds(a, b, w, v);
      if u == w || Reaches(g, u, w) {
        assert Leads(g, u, w) && Leads(g, v, v);
      } else {
        assert false;
      }
    }
  }

  lemma JoinedEnds<T>(a: set<T>, b: set<T>, u: T, v: T)
    ensures (u, v) in Joined(a, b) <==> u in a && v in b
  {
  }

  lemma CrossingReaches<T(!new)>(g: set<(T, T)>, a: set<T>, b: set<T>, u: T, v: T)
    ensures Reaches(g, u, v) || LeadsAcross(g, a, b, u, v) ==> Reaches(g + Joined(a, b), u, v)
  {
    hide Joined;
    var after := g + Joined(a, b);
    if Reaches(g, u, v) {
      ReachesMonotone(g, after, u, v);
    } else if LeadsAcross(g, a, b, u, v) {
      var x, y :| x in a && y in b && Leads(g, u, x) && Leads(g, y, v);
      JoinedEnds(a, b, x, y);
      EdgeReaches(after, x, y);
      LeadsMonotone(g, after, u, x);
      LeadsMonotone(g, after, y, v);
      LeadsOn(after, u, x, y);
      LeadsOn(after, u, y, v);
    }
  }

  /** The new edges close a cycle exactly when one is there already or some way leads back. */
  lemma JoinIsAcyclic<T(!new)>(g: set<(T, T)>, a: set<T>, b: set<T>)
    ensures Acyclic(g + Joined(a, b)) <==> Acyclic(g) && NoWayBack(g, a, b)
  {
    hide Joined;
    var after := g + Joined(a, b);
    if Acyclic(after) {
      SubgraphIsAcyclic(after, g);
      forall x, y | x in a && y in b ensures !Leads(g, y, x) {
        if Leads(g, y, x) {
          JoinedEnds(a, b, x, y);
          EdgeReaches(after, x, y);
          LeadsMonotone(g, after, y, x);
          LeadsOn(after, x, y, x);
        }
      }
    }
    if Acyclic(g) && NoWayBack(g, a, b) {
      forall u | Reaches(after, u, u) ensures false {
        var p :| IsPath(after, p, u, u);
        PathCrossesOnce(g, a, b, p, u, u);
        var x, y :| x in a && y in b && Leads(g, u, x) && Leads(g, y, u);
        LeadsOn(g, y, u, x);
      }
    }
  }

  /** What an acyclic join orders. */
  lemma OrderAfterJoin<T(!new)>(g: set<(T, T)>, a: set<T>, b: set<T>, u: T, v: T)
    requires Acyclic(g + Joined(a, b))
    ensures Reaches(g + Joined(a, b), u, v) <==> Reaches(g, u, v) || LeadsAcross(g, a, b, u, v)
  {
    JoinIsAcyclic(g, a, b);
    CrossingReaches(g, a, b, u, v);
    if Reaches(g + Joined(a, b), u, v) {
      var p :| IsPath(g + Joined(a, b), p, u, v);
      PathCrossesOnce(g, a, b, p, u, v);
    }
  }

  lemma AlternateWitness<T(!new)>(g: set<(T, T)>, u: T, v: T) returns (w: T)
    requires Alternate(g, u, v)
    ensures (u, w) in g && w != v && Reaches(g, w, v)
  {
    w :| (u, w) in g && w != v && Reaches(g, w, v);
  }

  lemma AlternateMonotone<T(!new)>(g: set<(T, T)>, h: set<(T, T)>, u: T, v: T)
    requires g <= h
    ensures Alternate(g, u, v) ==> Alternate(h, u, v)
  {
    if Alternate(g, u, v) {
      var w := AlternateWitness(g, u, v);
      ReachesMonotone(g, h, w, v);
    }
  }

  lemma {:induction false} PathDescends<T(!new)>(g: set<(T, T)>, rank: map<T, int>, p: seq<T>, u: T, v: T)
    requires Ranks(g, rank) && IsPath(g, p, u, v)
    ensures u in rank && v in rank && rank[v] < rank[u]
    decreases |p|
  {
    assert (p[0], p[0 + 1]) in g;
    if |p| > 2 {
      var q := p[1..];
      forall i | 0 <= i < |q| - 1 ensures (q[i], q[i + 1]) in g {
        assert (p[i + 1], p[i + 1 + 1]) in g;
      }
      PathDescends(g, rank, q, p[1], v);
    }
  }

  lemma RankDescends<T(!new)>(g: set<(T, T)>, rank: map<T, int>, u: T, v: T)
    requires Ranks(g, rank) && Reaches(g, u, v)
    ensures u in rank && v in rank && rank[v] < rank[u]
  {
    var p :| IsPath(g, p, u, v);
    PathDescends(g, rank, p, u, v);
  }

  lemma RankedIsAcyclic<T(!new)>(g: set<(T, T)>, rank: map<T, int>)
    requires Ranks(g, rank)
    ensures Acyclic(g)
  {
    forall u | Reaches(g, u, u) ensures false {
      RankDescends(g, rank, u, u);
    }
  }

  /** A nonempty finite set in which every node has a successor contains a cycle. */
  lemma NoSinkMeansCycle<T(!new)>(g: set<(T, T)>, s: set<T>)
    requires s != {}
    requires forall u :: u in s ==> exists v :: v in s && (u, v) in g
    ensures !Acyclic(g)
  {
    var start :| start in s;
    var walk := [start];
    var seen := {start};
    while true
      invariant |walk| >= 1 && seen <= s && seen == set x | x in walk
      invariant forall i :: 0 <= i < |walk| - 1 ==> (walk[i], walk[i + 1]) in g
      decreases s - seen
    {
      var last := walk[|walk| - 1];
      assert last in walk && last in s;
      var next :| next in s && (last, next) in g;
      if next in seen {
        var k :| 0 <= k < |walk| && walk[k] == next;
        var loop := walk[k..] + [next];
        forall i | 0 <= i < |loop| - 1 ensures (loop[i], loop[i + 1]) in g {
          assert loop[i] == walk[k + i];
          if i < |loop| - 2 { assert loop[i + 1] == walk[k + i + 1]; }
        }
        assert IsPath(g, loop, next, next);
        assert Reaches(g, next, next);
        return;
      }
      walk := walk + [next];
      seen := seen + {next};
    }
  }

  ghost function Nodes<T>(g: set<(T, T)>): set<T> {
    (set e | e in g :: e.0) + (set e | e in g :: e.1)
  }

  ghost function Below<T(!new)>(g: set<(T, T)>, u: T): set<T> {
    set x | x in Nodes(g) && Reaches(g, u, x)
  }

  /** Everything from which u can be reached. */
  ghost function Above<T(!new)>(g: set<(T, T)>, u: T): set<T> {
    set x | x in Nodes(g) && Reaches(g, x, u)
  }

  /** In an acyclic graph fewer nodes lie above v than above what v points to. */
  lemma AboveShrinks<T(!new)>(g: set<(T, T)>, v: T, u: T)
    requires Acyclic(g) && (v, u) in g
    ensures Above(g, v) < Above(g, u)
  {
    EdgeReaches(g, v, u);
    assert v in Nodes(g) by { assert (v, u).0 == v; }
    forall x | x in Above(g, v) ensures x in Above(g, u) { ReachesTransitive(g, x, v, u); }
    assert v in Above(g, u) && v !in Above(g, v);
  }

  /** In an acyclic graph the number of nodes a node reaches is a rank. */
  lemma AcyclicHasRanks<T(!new)>(g: set<(T, T)>) returns (rank: map<T, int>)
    requires Acyclic(g)
    ensures Ranks(g, rank)
  {
    rank := map u | u in Nodes(g) :: |Below(g, u)|;
    forall e | e in g ensures e.0 in rank && e.1 in rank && rank[e.1] < rank[e.0] {
      assert (e.0, e.1) in g && e.0 in Nodes(g) && e.1 in Nodes(g);
      EdgeReaches(g, e.0, e.1);
      forall x | Reaches(g, e.1, x) ensures Reaches(g, e.0, x) {
        ReachesTransitive(g, e.0, e.1, x);
      }
      assert Below(g, e.1) <= Below(g, e.0) - {e.1};
      SubsetSize(Below(g, e.1), Below(g, e.0) - {e.1});
    }
  }

  lemma SubsetSize<T>(a: set<T>, b: set<T>)
    requires a <= b
    ensures |a| <= |b|
  {
    assert |b - a| == |b| - |a|;
  }

  /** Dropping at once every edge that has an alternative in `g` loses no reachability:
      the argument is by the rank drop between the endpoints. */
  lemma {:induction false} ReductionKeepsReachability<T(!new)>(g: set<(T, T)>, h: set<(T, T)>, rank: map<T, int>, u: T,
                                                               v: T)
    requires Ranks(g, rank)
    requires h <= g && forall e :: e in g && e !in h ==> Alternate(g, e.0, e.1)
    requires Reaches(g, u, v)
    ensures u in rank && v in rank && rank[v] < rank[u]
    ensures Reaches(h, u, v)
    decreases if u in rank && v in rank then rank[u] - rank[v] else 0
  {
    RankDescends(g, rank, u, v);
    var w := FirstEdge(g, u, v);
    if w != v {
      EdgeReaches(g, u, w);
      RankDescends(g, rank, w, v);
      ReductionKeepsReachability(g, h, rank, u, w);
      ReductionKeepsReachability(g, h, rank, w, v);
      ReachesTransitive(h, u, w, v);
    } else if (u, v) in h {
      EdgeReaches(h, u, v);
    } else {
      var x :| (u, x) in g && x != v && Reaches(g, x, v);
      EdgeReaches(g, u, x);
      RankDescends(g, rank, x, v);
      ReductionKeepsReachability(g, h, rank, u, x);
      ReductionKeepsReachability(g, h, rank, x, v);
      ReachesTransitive(h, u, x, v);
    }
  }

  /** An edge without an alternative is in every subgraph that keeps reachability. */
  lemma EssentialEdge<T(!new)>(g: set<(T, T)>, h: set<(T, T)>, u: T, v: T)
    requires h <= g && Reaches(h, u, v) && !Alternate(g, u, v)
    ensures (u, v) in h
  {
    var w := FirstEdge(h, u, v);
    if w != v {
      ReachesMonotone(h, g, w, v);
      assert false;
    }
  }
}
