/** Reachability theory for finite directed graphs given as adjacency maps.
    Both breadth-first searches of the project (the path query of the web
    view and the offline longest-path script) are proved against it.
    A graph maps a node to the set of its neighbours; a node that is not a
    key has no neighbours. */
module Graphs {

  type V = string
  type Graph = map<V, set<V>>

  /** An edge of the graph. */
  ghost predicate Edge(g: Graph, u: V, v: V) {
    u in g && v in g[u]
  }

  /** p is a walk: non-empty, every consecutive pair is an edge. */
  ghost predicate IsWalk(g: Graph, p: seq<V>) {
    |p| > 0 && forall i | 0 <= i < |p| - 1 :: Edge(g, p[i], p[i + 1])
  }

  /** p is a walk from s to t. */
  ghost predicate WalkFromTo(g: Graph, s: V, t: V, p: seq<V>) {
    IsWalk(g, p) && p[0] == s && p[|p| - 1] == t
  }

  /** No walk from s to t has fewer nodes than p. */
  ghost predicate ShortestWalk(g: Graph, s: V, t: V, p: seq<V>) {
    WalkFromTo(g, s, t, p) &&
    forall q :: WalkFromTo(g, s, t, q) ==> |p| <= |q|
  }

  /** No node occurs twice in p. */
  ghost predicate NoRepeats(p: seq<V>) {
    forall i, j | 0 <= i < j < |p| :: p[i] != p[j]
  }

  /** The nodes reached from a node of w by one edge. */
  ghost function Step(g: Graph, w: set<V>): set<V> {
    set u, v | u in w && u in g && v in g[u] :: v
  }

  /** The nodes reachable from s by a walk of at most m edges. */
  ghost function Within(g: Graph, s: V, m: nat): set<V> {
    if m == 0 then {s} else Within(g, s, m - 1) + Step(g, Within(g, s, m - 1))
  }

  /** d is the hop distance from s to v. */
  ghost predicate HasDist(g: Graph, s: V, v: V, d: nat) {
    v in Within(g, s, d) && (d > 0 ==> v !in Within(g, s, d - 1))
  }

  /** t can be reached from s. */
  ghost predicate Reachable(g: Graph, s: V, t: V) {
    exists m: nat :: t in Within(g, s, m)
  }

  lemma {:induction false} WithinMono(g: Graph, s: V, a: nat, b: nat)
    requires a <= b
    ensures Within(g, s, a) <= Within(g, s, b)
  {
    if a < b {
      WithinMono(g, s, a, b - 1);
    }
  }

  /** The distance of a node is unique. */
  lemma DistUnique(g: Graph, s: V, v: V, d: nat, e: nat)
    requires HasDist(g, s, v, d) && HasDist(g, s, v, e)
    ensures d == e
  {
    if d < e {
      WithinMono(g, s, d, e - 1);
    } else if e < d {
      WithinMono(g, s, e, d - 1);
    }
  }

  /** The end of a walk with k edges is within k steps of its start. */
  lemma {:induction false} WalkWithin(g: Graph, p: seq<V>)
    requires IsWalk(g, p)
    ensures p[|p| - 1] in Within(g, p[0], |p| - 1)
  {
    if |p| > 1 {
      var q := p[..|p| - 1];
      assert IsWalk(g, q) by {
        forall i | 0 <= i < |q| - 1 ensures Edge(g, q[i], q[i + 1]) {
          assert q[i] == p[i] && q[i + 1] == p[i + 1];
        }
      }
      WalkWithin(g, q);
      assert Edge(g, p[|p| - 2], p[|p| - 1]);
    }
  }

  /** A node within m steps has a witnessing walk of at most m edges. */
  lemma {:induction false} WithinWalk(g: Graph, s: V, m: nat, v: V) returns (w: seq<V>)
    requires v in Within(g, s, m)
    ensures WalkFromTo(g, s, v, w) && |w| <= m + 1
  {
    if m == 0 {
      w := [s];
    } else if v in Within(g, s, m - 1) {
      w := WithinWalk(g, s, m - 1, v);
    } else {
      var u :| u in Within(g, s, m - 1) && u in g && v in g[u];
      var w0 := WithinWalk(g, s, m - 1, u);
      w := w0 + [v];
      forall i | 0 <= i < |w| - 1 ensures Edge(g, w[i], w[i + 1]) {
        if i < |w0| - 1 {
          assert w[i] == w0[i] && w[i + 1] == w0[i + 1];
        }
      }
    }
  }

  /** Joining a walk that ends where another starts gives a walk. */
  lemma Splice(g: Graph, a: seq<V>, b: seq<V>)
    requires IsWalk(g, a) && IsWalk(g, b) && a[|a| - 1] == b[0]
    ensures IsWalk(g, a + b[1..]) && |a + b[1..]| == |a| + |b| - 1
  {
    var c := a + b[1..];
    forall i | 0 <= i < |c| - 1 ensures Edge(g, c[i], c[i + 1]) {
      if i < |a| - 1 {
        assert c[i] == a[i] && c[i + 1] == a[i + 1];
      } else {
        var k := i - (|a| - 1);
        assert c[i] == b[k] && c[i + 1] == b[k + 1];
      }
    }
  }

  /** A walk of d edges to a node at distance d is a shortest walk, and no walk
      to a node at distance d has fewer than d + 1 nodes. */
  lemma DistBoundsWalks(g: Graph, s: V, t: V, d: nat, q: seq<V>)
    requires HasDist(g, s, t, d) && WalkFromTo(g, s, t, q)
    ensures d + 1 <= |q|
  {
    WalkWithin(g, q);
    if |q| - 1 < d {
      WithinMono(g, s, |q| - 1, d - 1);
    }
  }

  lemma ShortestFromDist(g: Graph, s: V, t: V, p: seq<V>)
    requires WalkFromTo(g, s, t, p) && HasDist(g, s, t, |p| - 1)
    ensures ShortestWalk(g, s, t, p)
  {
    forall q | WalkFromTo(g, s, t, q) ensures |p| <= |q| {
      DistBoundsWalks(g, s, t, |p| - 1, q);
    }
  }

  /** A node of a walk that is already within i - 1 steps of the start gives
      a shorter walk to the same end. */
  lemma Shortcut(g: Graph, s: V, p: seq<V>, i: nat) returns (q: seq<V>)
    requires IsWalk(g, p) && p[0] == s && 0 < i < |p| && p[i] in Within(g, s, i - 1)
    ensures WalkFromTo(g, s, p[|p| - 1], q) && |q| < |p|
  {
    var w := WithinWalk(g, s, i - 1, p[i]);
    var post := p[i..];
    assert IsWalk(g, post) by {
      forall k | 0 <= k < |post| - 1 ensures Edge(g, post[k], post[k + 1]) {
        assert post[k] == p[i + k] && post[k + 1] == p[i + k + 1];
      }
    }
    Splice(g, w, post);
    q := w + post[1..];
  }

  /** The i-th node of a shortest walk is at distance i. */
  lemma DistAlong(g: Graph, s: V, t: V, p: seq<V>, i: nat)
    requires ShortestWalk(g, s, t, p) && i < |p|
    ensures HasDist(g, s, p[i], i)
  {
    var pre := p[..i + 1];
    assert IsWalk(g, pre) by {
      forall k | 0 <= k < |pre| - 1 ensures Edge(g, pre[k], pre[k + 1]) {
        assert pre[k] == p[k] && pre[k + 1] == p[k + 1];
      }
    }
    WalkWithin(g, pre);
    if i > 0 && p[i] in Within(g, s, i - 1) {
      var q := Shortcut(g, s, p, i);
      assert false;
    }
  }

  /** Along a shortest walk the i-th node is at distance i; in particular no
      node repeats. */
  lemma ShortestWalkDists(g: Graph, s: V, t: V, p: seq<V>)
    requires ShortestWalk(g, s, t, p)
    ensures forall i | 0 <= i < |p| :: HasDist(g, s, p[i], i)
    ensures NoRepeats(p)
  {
    forall i | 0 <= i < |p| ensures HasDist(g, s, p[i], i) {
      DistAlong(g, s, t, p, i);
    }
    forall i, j | 0 <= i < j < |p| ensures p[i] != p[j] {
      if p[i] == p[j] {
        DistAlong(g, s, t, p, i);
        DistAlong(g, s, t, p, j);
        DistUnique(g, s, p[i], i, j);
      }
    }
  }

  /** A shortest walk has exactly d + 1 nodes when t is at distance d. */
  lemma ShortestWalkLength(g: Graph, s: V, t: V, d: nat, p: seq<V>)
    requires HasDist(g, s, t, d) && ShortestWalk(g, s, t, p)
    ensures |p| == d + 1
  {
    ShortestWalkDists(g, s, t, p);
    DistUnique(g, s, t, d, |p| - 1);
  }

  /** All shortest walks between the same two nodes have the same length. */
  lemma ShortestWalksSameLength(g: Graph, s: V, t: V, p: seq<V>, q: seq<V>)
    requires ShortestWalk(g, s, t, p) && ShortestWalk(g, s, t, q)
    ensures |p| == |q|
  {
  }

  /** The closure argument behind breadth-first search: if every labelled node
      carries its true distance and every node labelled below L has all its
      neighbours labelled, then every node within L steps is labelled. */
  lemma {:induction false} ClosedBelow(g: Graph, s: V, dist: map<V, nat>, L: nat, m: nat)
    requires s in dist
    requires forall v | v in dist :: HasDist(g, s, v, dist[v])
    requires forall u, v | u in dist && dist[u] < L && Edge(g, u, v) :: v in dist
    requires m <= L
    ensures Within(g, s, m) <= dist.Keys
  {
    if m > 0 {
      ClosedBelow(g, s, dist, L, m - 1);
      var w := Within(g, s, m - 1);
      forall u | u in w ensures dist[u] < L {
        DistAtMost(g, s, u, dist[u], m - 1);
      }
      StepLabelled(g, dist, w, L);
    }
  }

  /** A node within k steps is at distance at most k. */
  lemma DistAtMost(g: Graph, s: V, u: V, d: nat, k: nat)
    requires HasDist(g, s, u, d) && u in Within(g, s, k)
    ensures d <= k
  {
    if d > k {
      WithinMono(g, s, k, d - 1);
    }
  }

  lemma StepLabelled(g: Graph, dist: map<V, nat>, w: set<V>, L: nat)
    requires w <= dist.Keys
    requires forall u | u in w :: dist[u] < L
    requires forall u, v | u in dist && dist[u] < L && Edge(g, u, v) :: v in dist
    ensures Step(g, w) <= dist.Keys
  {
    forall v | v in Step(g, w) ensures v in dist {
      var u :| u in w && u in g && v in g[u];
      assert Edge(g, u, v);
    }
  }

  /** When every labelled node has all its neighbours labelled, an unlabelled
      node is unreachable. */
  lemma ClosedAll(g: Graph, s: V, dist: map<V, nat>, t: V)
    requires s in dist
    requires forall v | v in dist :: HasDist(g, s, v, dist[v])
    requires forall u, v | u in dist && Edge(g, u, v) :: v in dist
    requires t !in dist
    ensures !Reachable(g, s, t)
  {
    if Reachable(g, s, t) {
      var m: nat :| t in Within(g, s, m);
      ClosedBelow(g, s, dist, m, m);
    }
  }

  /** A labelled node is reachable, and the label bounds every walk to it. */
  lemma DistReachable(g: Graph, s: V, t: V, d: nat)
    requires HasDist(g, s, t, d)
    ensures Reachable(g, s, t)
  {
  }

  /** A node within m steps has a distance. */
  lemma {:induction false} DistExists(g: Graph, s: V, t: V, m: nat) returns (d: nat)
    requires t in Within(g, s, m)
    ensures HasDist(g, s, t, d)
  {
    if m > 0 && t in Within(g, s, m - 1) {
      d := DistExists(g, s, t, m - 1);
    } else {
      d := m;
    }
  }

  /** A reachable node has a shortest walk. */
  lemma ShortestExists(g: Graph, s: V, t: V) returns (p: seq<V>)
    requires Reachable(g, s, t)
    ensures ShortestWalk(g, s, t, p)
  {
    var m: nat :| t in Within(g, s, m);
    var d := DistExists(g, s, t, m);
    p := WithinWalk(g, s, d, t);
    DistBoundsWalks(g, s, t, d, p);
    ShortestFromDist(g, s, t, p);
  }

  /** A reachable node has a distance. */
  lemma SomeDist(g: Graph, s: V, t: V)
    requires Reachable(g, s, t)
    ensures exists d: nat :: HasDist(g, s, t, d)
  {
    var m: nat :| t in Within(g, s, m);
    var d := DistExists(g, s, t, m);
  }

  /** The hop distance from s to a reachable node t. */
  ghost function Distance(g: Graph, s: V, t: V): (d: nat)
    requires Reachable(g, s, t)
    ensures HasDist(g, s, t, d)
  {
    SomeDist(g, s, t);
    var d: nat :| HasDist(g, s, t, d);
    d
  }

  /** Every edge of the graph also runs the other way. */
  ghost predicate Symmetric(g: Graph) {
    forall u, v | Edge(g, u, v) :: Edge(g, v, u)
  }

  /** The nodes of p, last first. */
  function Reverse(p: seq<V>): (r: seq<V>)
    ensures |r| == |p|
    ensures forall i | 0 <= i < |p| :: r[i] == p[|p| - 1 - i]
  {
    seq(|p|, i requires 0 <= i < |p| => p[|p| - 1 - i])
  }

  /** In a symmetric graph a walk read backwards is a walk. */
  lemma ReverseWalk(g: Graph, s: V, t: V, p: seq<V>)
    requires Symmetric(g) && WalkFromTo(g, s, t, p)
    ensures WalkFromTo(g, t, s, Reverse(p))
  {
    var r := Reverse(p);
    forall i | 0 <= i < |r| - 1 ensures Edge(g, r[i], r[i + 1]) {
      var k := |p| - 2 - i;
      assert r[i] == p[k + 1] && r[i + 1] == p[k];
      assert Edge(g, p[k], p[k + 1]);
    }
  }

  /** In a symmetric graph distance does not depend on the direction. */
  lemma DistanceSymmetric(g: Graph, s: V, t: V)
    requires Symmetric(g) && Reachable(g, s, t)
    ensures Reachable(g, t, s) && Distance(g, s, t) == Distance(g, t, s)
  {
    var d := Distance(g, s, t);
    var p := WithinWalk(g, s, d, t);
    ReverseWalk(g, s, t, p);
    WalkWithin(g, Reverse(p));
    assert Reachable(g, t, s);
    var e := Distance(g, t, s);
    DistBoundsWalks(g, t, s, e, Reverse(p));
    var q := WithinWalk(g, t, e, s);
    ReverseWalk(g, t, s, q);
    DistBoundsWalks(g, s, t, d, Reverse(q));
  }
}
