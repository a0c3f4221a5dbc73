/** The invariant of a breadth-first search that labels nodes with their hop
    distance from a start node and marks a node when it is queued, with the
    lemmas that carry it across one turn of the search loop.  The path query
    of the web view (neighbour lists) and the offline script (neighbour sets)
    both run such a search; each writes its own loops and proves them with
    what is here. */
module Search {
  import opened Graphs

  /** Every node the search can label: the start, the keys and every
      neighbour. */
  ghost function Universe(g: Graph, start: V): set<V> {
    {start} + g.Keys + set u, v | u in g && v in g[u] :: v
  }

  /** The labels are true hop distances from the start. */
  ghost predicate Labelled(g: Graph, start: V, dist: map<V, nat>) {
    start in dist && dist[start] == 0 &&
    (forall v {:trigger HasDist(g, start, v, dist[v])} | v in dist :: HasDist(g, start, v, dist[v]))
  }

  /** The queue holds labelled nodes in non-decreasing label order, between
      lo and lo + 1. */
  ghost predicate QueuedBetween(dist: map<V, nat>, queue: seq<V>, lo: nat) {
    (forall k | 0 <= k < |queue| :: queue[k] in dist && lo <= dist[queue[k]] <= lo + 1) &&
    (forall i, j | 0 <= i < j < |queue| :: dist[queue[i]] <= dist[queue[j]])
  }

  /** Every labelled node that is no longer queued has all its neighbours
      labelled. */
  ghost predicate Closed(g: Graph, dist: map<V, nat>, queue: seq<V>) {
    forall u, v | u in dist && u !in queue && Edge(g, u, v) :: v in dist
  }

  /** The loop invariant of the search. */
  ghost predicate BfsInv(g: Graph, start: V, end: V, dist: map<V, nat>, queue: seq<V>) {
    Labelled(g, start, dist) && dist.Keys <= Universe(g, start) &&
    (queue != [] ==> queue[0] in dist && QueuedBetween(dist, queue, dist[queue[0]])) &&
    Closed(g, dist, queue) &&
    (end in dist ==> end in queue)
  }

  /** What the search promises when it stops: true distances, end labelled
      exactly when it is reachable, and then every node no farther than end
      labelled. */
  ghost predicate BfsResult(g: Graph, start: V, end: V, dist: map<V, nat>) {
    Labelled(g, start, dist) &&
    (end in dist <==> Reachable(g, start, end)) &&
    (end in dist ==> Within(g, start, dist[end]) <= dist.Keys)
  }

  /** The state before the first turn: the start labelled 0 and queued. */
  lemma BfsStart(g: Graph, start: V, end: V)
    ensures BfsInv(g, start, end, map[start := 0], [start])
  {
    assert HasDist(g, start, start, 0);
  }

  /** Taking the head off the queue: the rest lies between the head's label
      and one more. */
  lemma Pop(g: Graph, start: V, end: V, dist: map<V, nat>, queue: seq<V>)
    requires queue != [] && BfsInv(g, start, end, dist, queue)
    ensures QueuedBetween(dist, queue[1..], dist[queue[0]])
    ensures queue == [queue[0]] + queue[1..]
  {
    forall k | 0 <= k < |queue[1..]| ensures dist[queue[0]] <= dist[queue[1..][k]] {
      assert queue[1..][k] == queue[k + 1];
    }
  }

  /** When the node being expanded has label lo and the rest of the queue is
      labelled lo or lo + 1, every node within lo steps is labelled. */
  lemma Frontier(g: Graph, start: V, dist: map<V, nat>, current: V, rest: seq<V>)
    requires Labelled(g, start, dist) && current in dist
    requires QueuedBetween(dist, rest, dist[current]) && Closed(g, dist, [current] + rest)
    ensures Within(g, start, dist[current]) <= dist.Keys
  {
    var lo := dist[current];
    forall u, v | u in dist && dist[u] < lo && Edge(g, u, v) ensures v in dist {
      assert u !in [current] + rest;
    }
    ClosedBelow(g, start, dist, lo, lo);
  }

  /** A neighbour of a node labelled lo that is not yet labelled is at
      distance lo + 1. */
  lemma NextLayer(g: Graph, start: V, dist: map<V, nat>, current: V, v: V)
    requires Labelled(g, start, dist) && current in dist
    requires Within(g, start, dist[current]) <= dist.Keys
    requires Edge(g, current, v) && v !in dist
    ensures HasDist(g, start, v, dist[current] + 1)
  {
    var lo := dist[current];
    assert HasDist(g, start, current, dist[current]);
    assert current in Within(g, start, lo);
    assert v in Step(g, Within(g, start, lo));
  }

  /** After the neighbour loop of current: the labels it added (listed in
      `added`, in queue order, all neighbours of current labelled one more)
      restore the invariant of the search for the queue rest + added. */
  lemma VisitDone(g: Graph, start: V, end: V, dist: map<V, nat>, dist': map<V, nat>, current: V, rest: seq<V>, added: seq<V>)
    requires Labelled(g, start, dist') && dist.Keys <= Universe(g, start) && current in dist && current != end
    requires QueuedBetween(dist, rest, dist[current]) && Closed(g, dist, [current] + rest)
    requires end in dist ==> end in rest
    requires forall x | x in dist :: x in dist' && dist'[x] == dist[x]
    requires forall x | x in dist' && x !in dist :: x in added
    requires forall i | 0 <= i < |added| :: added[i] in dist' && added[i] !in dist && dist'[added[i]] == dist[current] + 1
    requires forall i | 0 <= i < |added| :: Edge(g, current, added[i])
    requires forall v | Edge(g, current, v) :: v in dist'
    ensures BfsInv(g, start, end, dist', rest + added)
    ensures dist.Keys <= dist'.Keys
    ensures dist'.Keys == dist.Keys ==> added == []
  {
    var queue' := rest + added;
    var lo := dist[current];
    assert QueuedBetween(dist', queue', lo) by {
      forall k | 0 <= k < |queue'| ensures queue'[k] in dist' && lo <= dist'[queue'[k]] <= lo + 1 {
        if k >= |rest| {
          assert queue'[k] == added[k - |rest|];
        } else {
          assert queue'[k] == rest[k];
        }
      }
      forall i, j | 0 <= i < j < |queue'| ensures dist'[queue'[i]] <= dist'[queue'[j]] {
        if j >= |rest| {
          assert queue'[j] == added[j - |rest|];
        } else {
          assert queue'[i] == rest[i] && queue'[j] == rest[j];
        }
      }
    }
    forall u, v | u in dist' && u !in queue' && Edge(g, u, v) ensures v in dist' {
      if u != current {
        assert u !in added && u !in rest;
        assert u !in [current] + rest;
      }
    }
    if end in dist' {
      if end !in dist {
        assert end in added;
      }
    }
    if added != [] {
      assert added[0] in dist'.Keys && added[0] !in dist.Keys;
    }
    forall x | x in dist' ensures x in Universe(g, start) {
      if x !in dist {
        var i :| 0 <= i < |added| && added[i] == x;
        assert Edge(g, current, x);
      }
    }
  }

  /** The nodes the search has yet to label: its termination measure. */
  ghost function Unlabelled(g: Graph, start: V, dist: map<V, nat>): nat {
    |Universe(g, start) - dist.Keys|
  }

  /** One more labelled node leaves one node fewer unlabelled. */
  lemma Progress(u: set<V>, a: set<V>, b: set<V>)
    requires a <= b <= u && a != b
    ensures |u - b| < |u - a|
  {
    var x :| x in b && x !in a;
    assert u - b <= (u - a) - {x};
    assert |(u - a) - {x}| == |u - a| - 1;
    SubsetCard(u - b, (u - a) - {x});
  }

  lemma {:induction false} SubsetCard(a: set<V>, b: set<V>)
    requires a <= b
    ensures |a| <= |b|
    decreases b
  {
    if a != {} {
      var x :| x in a;
      SubsetCard(a - {x}, b - {x});
    }
  }

  /** The search that takes end off the queue has found it. */
  lemma Found(g: Graph, start: V, end: V, dist: map<V, nat>, rest: seq<V>)
    requires Labelled(g, start, dist) && end in dist
    requires QueuedBetween(dist, rest, dist[end]) && Closed(g, dist, [end] + rest)
    ensures BfsResult(g, start, end, dist)
  {
    Frontier(g, start, dist, end, rest);
    assert HasDist(g, start, end, dist[end]);
  }

  /** The search with an empty queue has labelled everything reachable. */
  lemma Exhausted(g: Graph, start: V, end: V, dist: map<V, nat>)
    requires BfsInv(g, start, end, dist, [])
    ensures BfsResult(g, start, end, dist)
  {
    ClosedAll(g, start, dist, end);
  }

  /** The search's result, spelled out. */
  lemma BfsDone(g: Graph, start: V, end: V, dist: map<V, nat>)
    requires BfsResult(g, start, end, dist)
    ensures start in dist && dist[start] == 0
    ensures forall v | v in dist :: HasDist(g, start, v, dist[v])
    ensures end in dist <==> Reachable(g, start, end)
    ensures end in dist ==> Within(g, start, dist[end]) <= dist.Keys
  {
    forall v | v in dist ensures HasDist(g, start, v, dist[v]) {
      assert HasDist(g, start, v, dist[v]);
    }
  }
}
