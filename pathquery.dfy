/** The path query of the web page: all shortest paths between the nodes two
    players are shown as.  The graph's links become an adjacency list; a
    breadth-first search labels nodes with their hop distance from the start
    and stops when the end node is taken from the queue; a depth-first search
    then follows the labels, one step up at a time, to the end node. */
module PathQuery {
  import opened Options
  import opened Seqs
  import opened Graphs
  import opened Search
  import opened Survivor
  import opened PlayerView
  import GraphViews

  /** Node id to the ids of its neighbours, a list per link end. */
  type Adjacency = map<V, seq<V>>

  /** The neighbour list of u; a node that is not a key has none. */
  function Neighbours(adj: Adjacency, u: V): (r: seq<V>)
    ensures u in adj ==> r == adj[u]
    ensures u !in adj ==> r == []
  {
    if u in adj then adj[u] else []
  }

  /** The graph an adjacency list stands for. */
  ghost function ToGraph(adj: Adjacency): Graph {
    map u | u in adj :: set v | v in adj[u]
  }

  lemma EdgeOf(adj: Adjacency, u: V, v: V)
    ensures Edge(ToGraph(adj), u, v) <==> v in Neighbours(adj, u)
  {
  }

  // ---------------------------------------------------------------------
  // The adjacency list

  /** The other ends of the links touching u among the first k links, in the
      order the loop pushes them (the target to the source's list, then the
      source to the target's list). */
  function LinkedTo(links: seq<(V, V)>, u: V, k: nat): seq<V>
    requires k <= |links|
  {
    if k == 0 then []
    else
      LinkedTo(links, u, k - 1) +
      (if links[k - 1].0 == u then [links[k - 1].1] else []) +
      (if links[k - 1].1 == u then [links[k - 1].0] else [])
  }

  /** Some of the first k links joins u and v, in either direction. */
  ghost predicate JoinedBefore(links: seq<(V, V)>, u: V, v: V, k: nat)
    requires k <= |links|
  {
    exists j :: 0 <= j < k && (links[j] == (u, v) || links[j] == (v, u))
  }

  lemma {:induction false} LinkedToFacts(links: seq<(V, V)>, u: V, k: nat)
    requires k <= |links|
    ensures forall v :: v in LinkedTo(links, u, k) <==> JoinedBefore(links, u, v, k)
  {
    if k > 0 {
      LinkedToFacts(links, u, k - 1);
      forall v ensures v in LinkedTo(links, u, k) <==> JoinedBefore(links, u, v, k) {
        if JoinedBefore(links, u, v, k) && !JoinedBefore(links, u, v, k - 1) {
          assert links[k - 1] == (u, v) || links[k - 1] == (v, u);
        }
        if JoinedBefore(links, u, v, k - 1) {
          var j :| 0 <= j < k - 1 && (links[j] == (u, v) || links[j] == (v, u));
          assert 0 <= j < k;
        }
      }
    }
  }

  /** The adjacency list of a node list and its links, as a definition. */
  function AdjacencyOf(ids: seq<V>, links: seq<(V, V)>): (adj: Adjacency)
    ensures forall u :: u in adj <==> u in ids
  {
    map u | u in ids :: LinkedTo(links, u, |links|)
  }

  /** The graph the query searches. */
  ghost function LinkGraph(ids: seq<V>, links: seq<(V, V)>): Graph {
    ToGraph(AdjacencyOf(ids, links))
  }

  /** An edge of the searched graph is a link, followed either way. */
  lemma LinkGraphEdge(ids: seq<V>, links: seq<(V, V)>, u: V, v: V)
    ensures Edge(LinkGraph(ids, links), u, v) <==> u in ids && JoinedBefore(links, u, v, |links|)
  {
    LinkedToFacts(links, u, |links|);
  }

  /** When every link joins listed nodes, the searched graph is undirected. */
  lemma LinkGraphSymmetric(ids: seq<V>, links: seq<(V, V)>, u: V, v: V)
    requires forall k | 0 <= k < |links| :: links[k].0 in ids && links[k].1 in ids
    requires Edge(LinkGraph(ids, links), u, v)
    ensures Edge(LinkGraph(ids, links), v, u)
  {
    LinkGraphEdge(ids, links, u, v);
    LinkGraphEdge(ids, links, v, u);
    var j :| 0 <= j < |links| && (links[j] == (u, v) || links[j] == (v, u));
    assert links[j].0 in ids && links[j].1 in ids;
  }

  /** The two loops filling the adjacency list: an empty list per node, then
      both ends of every link. */
  method BuildAdjacency(ids: seq<V>, links: seq<(V, V)>) returns (adj: Adjacency)
    requires forall k | 0 <= k < |links| :: links[k].0 in ids && links[k].1 in ids
    ensures adj == AdjacencyOf(ids, links)
  {
    adj := map[];
    for k := 0 to |ids|
      invariant forall u :: u in adj <==> u in ids[..k]
      invariant forall u | u in adj :: adj[u] == []
    {
      assert ids[..k + 1] == ids[..k] + [ids[k]];
      adj := adj[ids[k] := []];
    }
    assert ids[..|ids|] == ids;
    for k := 0 to |links|
      invariant forall u :: u in adj <==> u in ids
      invariant forall u | u in adj :: adj[u] == LinkedTo(links, u, k)
    {
      var source, target := links[k].0, links[k].1;
      adj := adj[source := adj[source] + [target]];
      adj := adj[target := adj[target] + [source]];
    }
  }

  // ---------------------------------------------------------------------
  // Breadth-first search

  /** The neighbour loop for the node taken off the queue: every neighbour
      not yet labelled gets the node's label plus one and joins the queue. */
  method Visit(adj: Adjacency, ghost start: V, ghost end: V, dist: map<V, nat>, current: V, rest: seq<V>)
    returns (dist': map<V, nat>, queue': seq<V>)
    requires Labelled(ToGraph(adj), start, dist) && dist.Keys <= Universe(ToGraph(adj), start)
    requires current in dist && current != end
    requires QueuedBetween(dist, rest, dist[current]) && Closed(ToGraph(adj), dist, [current] + rest)
    requires end in dist ==> end in rest
    ensures BfsInv(ToGraph(adj), start, end, dist', queue')
    ensures dist.Keys <= dist'.Keys
    ensures dist'.Keys == dist.Keys ==> queue' == rest
  {
    Frontier(ToGraph(adj), start, dist, current, rest);
    ghost var added;
    dist', queue', added := LabelNeighbours(adj, start, dist, current, rest);
    VisitDone(ToGraph(adj), start, end, dist, dist', current, rest, added);
  }

  /** The loop itself: ghost `added` lists the nodes it labelled, in order. */
  method LabelNeighbours(adj: Adjacency, ghost start: V, dist: map<V, nat>, current: V, rest: seq<V>)
    returns (dist': map<V, nat>, queue': seq<V>, ghost added: seq<V>)
    requires Labelled(ToGraph(adj), start, dist) && current in dist
    requires Within(ToGraph(adj), start, dist[current]) <= dist.Keys
    ensures queue' == rest + added
    ensures Labelled(ToGraph(adj), start, dist')
    ensures forall x | x in dist :: x in dist' && dist'[x] == dist[x]
    ensures forall x | x in dist' && x !in dist :: x in added
    ensures forall i | 0 <= i < |added| :: added[i] in dist' && added[i] !in dist && dist'[added[i]] == dist[current] + 1
    ensures forall i | 0 <= i < |added| :: Edge(ToGraph(adj), current, added[i])
    ensures forall v | Edge(ToGraph(adj), current, v) :: v in dist'
  {
    var lo := dist[current];
    var ns := Neighbours(adj, current);
    dist', queue', added := dist, rest, [];
    for k := 0 to |ns|
      invariant queue' == rest + added
      invariant Labelled(ToGraph(adj), start, dist')
      invariant forall x | x in dist :: x in dist' && dist'[x] == dist[x]
      invariant forall x | x in dist' && x !in dist :: x in added
      invariant forall i | 0 <= i < |added| :: added[i] in dist' && added[i] !in dist && dist'[added[i]] == lo + 1
      invariant forall i | 0 <= i < |added| :: added[i] in ns
      invariant forall j | 0 <= j < k :: ns[j] in dist'
    {
      var v := ns[k];
      if v !in dist' {
        EdgeOf(adj, current, v);
        NextLayer(ToGraph(adj), start, dist', current, v);
        dist' := dist'[v := dist'[current] + 1];
        queue' := queue' + [v];
        added := added + [v];
      }
    }
    forall i | 0 <= i < |added| ensures Edge(ToGraph(adj), current, added[i]) {
      EdgeOf(adj, current, added[i]);
    }
    forall v | Edge(ToGraph(adj), current, v) ensures v in dist' {
      EdgeOf(adj, current, v);
    }
  }

  /** One turn of the search loop: take the head off the queue; stop if it is
      end, otherwise label and queue its new neighbours. */
  method BfsTurn(adj: Adjacency, ghost start: V, end: V, dist: map<V, nat>, queue: seq<V>)
    returns (dist': map<V, nat>, queue': seq<V>, found: bool)
    requires queue != [] && BfsInv(ToGraph(adj), start, end, dist, queue)
    ensures found ==> BfsResult(ToGraph(adj), start, end, dist')
    ensures !found ==> BfsInv(ToGraph(adj), start, end, dist', queue')
    ensures !found ==> dist.Keys <= dist'.Keys
    ensures !found ==> (|Universe(ToGraph(adj), start) - dist'.Keys| < |Universe(ToGraph(adj), start) - dist.Keys| ||
      (dist'.Keys == dist.Keys && |queue'| < |queue|))
  {
    Pop(ToGraph(adj), start, end, dist, queue);
    var current := queue[0];
    var rest := queue[1..];
    if current == end {
      Found(ToGraph(adj), start, end, dist, rest);
      return dist, rest, true;
    }
    dist', queue' := Visit(adj, start, end, dist, current, rest);
    found := false;
    if dist'.Keys != dist.Keys {
      Progress(Universe(ToGraph(adj), start), dist.Keys, dist'.Keys);
    }
  }

  /** The breadth-first search from start, stopping when end is taken off the
      queue: it labels nodes with their true distance, labels end exactly
      when end is reachable, and then has labelled every node no farther
      than end. */
  method Bfs(adj: Adjacency, start: V, end: V) returns (dist: map<V, nat>)
    ensures start in dist && dist[start] == 0
    ensures forall v | v in dist :: HasDist(ToGraph(adj), start, v, dist[v])
    ensures end in dist <==> Reachable(ToGraph(adj), start, end)
    ensures end in dist ==> Within(ToGraph(adj), start, dist[end]) <= dist.Keys
  {
    dist := map[start := 0];
    var queue := [start];
    BfsStart(ToGraph(adj), start, end);
    while queue != []
      invariant BfsInv(ToGraph(adj), start, end, dist, queue)
      decreases |Universe(ToGraph(adj), start) - dist.Keys|, |queue|
    {
      var found;
      dist, queue, found := BfsTurn(adj, start, end, dist, queue);
      if found {
        BfsDone(ToGraph(adj), start, end, dist);
        return;
      }
    }
    Exhausted(ToGraph(adj), start, end, dist);
    BfsDone(ToGraph(adj), start, end, dist);
  }

  // ---------------------------------------------------------------------
  // Depth-first enumeration

  /** The recursive search from current, reached at the given distance along
      path: it gives up past the shortest distance, records path on reaching
      end at exactly that distance, and otherwise descends into every
      neighbour labelled one more, in neighbour-list order. */
  function Dfs(adj: Adjacency, dist: map<V, nat>, shortest: nat, end: V, current: V, path: seq<V>, distance: nat): seq<seq<V>>
    decreases shortest + 1 - distance, 1, 0
  {
    if distance > shortest then []
    else if current == end then (if distance == shortest then [path] else [])
    else DfsVia(adj, dist, shortest, end, Neighbours(adj, current), path, distance)
  }

  /** The forEach over a neighbour list inside the search. */
  function DfsVia(adj: Adjacency, dist: map<V, nat>, shortest: nat, end: V, ns: seq<V>, path: seq<V>, distance: nat): seq<seq<V>>
    requires distance <= shortest
    decreases shortest + 1 - distance, 0, |ns|
  {
    if ns == [] then []
    else
      (if ns[0] in dist && dist[ns[0]] == distance + 1
       then Dfs(adj, dist, shortest, end, ns[0], path + [ns[0]], distance + 1)
       else []) +
      DfsVia(adj, dist, shortest, end, ns[1..], path, distance)
  }

  /** t continues the search's walk from current, reached at the given
      distance, to end: each node a neighbour of the one before, labelled one
      more, none of them end before the last, which is end at exactly the
      shortest distance. */
  ghost predicate Descent(adj: Adjacency, dist: map<V, nat>, shortest: nat, end: V, current: V, distance: nat, t: seq<V>)
    decreases |t|
  {
    if t == [] then current == end && distance == shortest
    else
      current != end && t[0] in Neighbours(adj, current) && t[0] in dist && dist[t[0]] == distance + 1 &&
      Descent(adj, dist, shortest, end, t[0], distance + 1, t[1..])
  }

  lemma {:induction false} DescentLength(adj: Adjacency, dist: map<V, nat>, shortest: nat, end: V, current: V, distance: nat, t: seq<V>)
    requires Descent(adj, dist, shortest, end, current, distance, t)
    ensures distance + |t| == shortest
    decreases |t|
  {
    if t != [] {
      DescentLength(adj, dist, shortest, end, t[0], distance + 1, t[1..]);
    }
  }

  /** A step to n, labelled distance + 1, that continues as descent t. */
  ghost predicate Step1(adj: Adjacency, dist: map<V, nat>, shortest: nat, end: V, n: V, distance: nat, t: seq<V>) {
    n in dist && dist[n] == distance + 1 && Descent(adj, dist, shortest, end, n, distance + 1, t)
  }

  /** Everything the search from current records is path followed by a
      descent from current. */
  lemma {:induction false} DfsSound(adj: Adjacency, dist: map<V, nat>, shortest: nat, end: V, current: V, path: seq<V>, distance: nat, p: seq<V>)
    returns (t: seq<V>)
    requires p in Dfs(adj, dist, shortest, end, current, path, distance)
    ensures Descent(adj, dist, shortest, end, current, distance, t) && p == path + t
    decreases shortest + 1 - distance, 1, 0
  {
    if current == end {
      t := [];
      assert p == path + t;
    } else {
      var ns := Neighbours(adj, current);
      var j, t1 := DfsViaSound(adj, dist, shortest, end, ns, path, distance, p);
      t := [ns[j]] + t1;
      assert t[1..] == t1;
      assert p == path + t;
    }
  }

  lemma {:induction false} DfsViaSound(adj: Adjacency, dist: map<V, nat>, shortest: nat, end: V, ns: seq<V>, path: seq<V>, distance: nat, p: seq<V>)
    returns (j: int, t: seq<V>)
    requires distance <= shortest
    requires p in DfsVia(adj, dist, shortest, end, ns, path, distance)
    ensures 0 <= j < |ns| && Step1(adj, dist, shortest, end, ns[j], distance, t) && p == path + [ns[j]] + t
    decreases shortest + 1 - distance, 0, |ns|
  {
    var n := ns[0];
    var tail := DfsVia(adj, dist, shortest, end, ns[1..], path, distance);
    if p in tail {
      var j1, t1 := DfsViaSound(adj, dist, shortest, end, ns[1..], path, distance, p);
      j, t := j1 + 1, t1;
      assert ns[1..][j1] == ns[j];
    } else {
      assert n in dist && dist[n] == distance + 1;
      j := 0;
      t := DfsSound(adj, dist, shortest, end, n, path + [n], distance + 1, p);
    }
  }

  /** The search from current records path followed by every descent from
      current. */
  lemma {:induction false} DfsComplete(adj: Adjacency, dist: map<V, nat>, shortest: nat, end: V, current: V, path: seq<V>, distance: nat, t: seq<V>)
    requires Descent(adj, dist, shortest, end, current, distance, t)
    ensures path + t in Dfs(adj, dist, shortest, end, current, path, distance)
    decreases shortest + 1 - distance, 1, 0
  {
    DescentLength(adj, dist, shortest, end, current, distance, t);
    if t == [] {
      assert path + t == path;
    } else {
      var ns := Neighbours(adj, current);
      var j :| 0 <= j < |ns| && ns[j] == t[0];
      DfsViaComplete(adj, dist, shortest, end, ns, path, distance, j, t[1..]);
      assert path + t == path + [ns[j]] + t[1..];
    }
  }

  lemma {:induction false} DfsViaComplete(adj: Adjacency, dist: map<V, nat>, shortest: nat, end: V, ns: seq<V>, path: seq<V>, distance: nat, j: int, t: seq<V>)
    requires distance <= shortest && 0 <= j < |ns|
    requires Step1(adj, dist, shortest, end, ns[j], distance, t)
    ensures path + [ns[j]] + t in DfsVia(adj, dist, shortest, end, ns, path, distance)
    decreases shortest + 1 - distance, 0, |ns|
  {
    if j == 0 {
      DfsComplete(adj, dist, shortest, end, ns[0], path + [ns[0]], distance + 1, t);
      assert path + [ns[0]] + t == (path + [ns[0]]) + t;
    } else {
      assert ns[1..][j - 1] == ns[j];
      DfsViaComplete(adj, dist, shortest, end, ns[1..], path, distance, j - 1, t);
    }
  }

  /** A walk down the labels: consecutive nodes are neighbours, the i-th node
      is labelled i, and only the last node is end. */
  ghost predicate Graded(adj: Adjacency, dist: map<V, nat>, end: V, p: seq<V>) {
    |p| > 0 && p[|p| - 1] == end &&
    (forall i | 0 <= i < |p| - 1 :: p[i + 1] in Neighbours(adj, p[i]) && p[i] != end) &&
    (forall i | 0 <= i < |p| :: p[i] in dist && dist[p[i]] == i)
  }

  lemma {:induction false} GradedDescent(adj: Adjacency, dist: map<V, nat>, end: V, p: seq<V>, k: nat)
    requires Graded(adj, dist, end, p) && k < |p|
    ensures Descent(adj, dist, |p| - 1, end, p[k], k, p[k + 1..])
    decreases |p| - k
  {
    if k < |p| - 1 {
      GradedDescent(adj, dist, end, p, k + 1);
      assert p[k + 1..][1..] == p[k + 2..];
    }
  }

  lemma {:induction false} DescentWalk(adj: Adjacency, dist: map<V, nat>, shortest: nat, end: V, current: V, distance: nat, t: seq<V>)
    requires Descent(adj, dist, shortest, end, current, distance, t)
    ensures WalkFromTo(ToGraph(adj), current, end, [current] + t)
    decreases |t|
  {
    if t != [] {
      DescentWalk(adj, dist, shortest, end, t[0], distance + 1, t[1..]);
      var p := [current] + t;
      assert [t[0]] + t[1..] == t;
      EdgeOf(adj, current, t[0]);
      forall i | 0 <= i < |p| - 1 ensures Edge(ToGraph(adj), p[i], p[i + 1]) {
        if i > 0 {
          assert p[i] == t[i - 1] && p[i + 1] == t[i];
          assert t[i - 1] == ([t[0]] + t[1..])[i - 1];
        }
      }
    }
  }

  /** Every path the search records is a shortest walk. */
  lemma DfsShortest(adj: Adjacency, start: V, end: V, dist: map<V, nat>, p: seq<V>)
    requires BfsResult(ToGraph(adj), start, end, dist) && end in dist
    requires p in Dfs(adj, dist, dist[end], end, start, [start], 0)
    ensures ShortestWalk(ToGraph(adj), start, end, p)
  {
    var t := DfsSound(adj, dist, dist[end], end, start, [start], 0, p);
    DescentWalk(adj, dist, dist[end], end, start, 0, t);
    DescentLength(adj, dist, dist[end], end, start, 0, t);
    assert HasDist(ToGraph(adj), start, end, dist[end]);
    ShortestFromDist(ToGraph(adj), start, end, p);
  }

  /** Every shortest walk is recorded: the early break still labelled every
      node on it with its true distance. */
  lemma ShortestDfs(adj: Adjacency, start: V, end: V, dist: map<V, nat>, p: seq<V>)
    requires BfsResult(ToGraph(adj), start, end, dist) && end in dist
    requires ShortestWalk(ToGraph(adj), start, end, p)
    ensures p in Dfs(adj, dist, dist[end], end, start, [start], 0)
  {
    var g, d := ToGraph(adj), dist[end];
    assert HasDist(g, start, end, d);
    ShortestWalkDists(g, start, end, p);
    ShortestWalkLength(g, start, end, d, p);
    forall i | 0 <= i < |p| ensures p[i] in dist && dist[p[i]] == i {
      WithinMono(g, start, i, d);
      assert HasDist(g, start, p[i], dist[p[i]]);
      DistUnique(g, start, p[i], i, dist[p[i]]);
    }
    forall i | 0 <= i < |p| - 1 ensures p[i + 1] in Neighbours(adj, p[i]) && p[i] != end {
      assert Edge(g, p[i], p[i + 1]);
      EdgeOf(adj, p[i], p[i + 1]);
    }
    GradedDescent(adj, dist, end, p, 0);
    DfsComplete(adj, dist, d, end, start, [start], 0, p[1..]);
    assert [start] + p[1..] == p;
  }

  /** Every neighbour list is free of repeats. */
  ghost predicate SimpleLists(adj: Adjacency) {
    forall u | u in adj :: NoDup(adj[u])
  }

  /** With repeat-free neighbour lists the search records no path twice. */
  lemma {:induction false} DfsNoDup(adj: Adjacency, dist: map<V, nat>, shortest: nat, end: V, current: V, path: seq<V>, distance: nat)
    requires SimpleLists(adj)
    ensures NoDup(Dfs(adj, dist, shortest, end, current, path, distance))
    decreases shortest + 1 - distance, 1, 0
  {
    if distance <= shortest && current != end {
      DfsViaNoDup(adj, dist, shortest, end, Neighbours(adj, current), path, distance);
    }
  }

  lemma {:induction false} DfsViaNoDup(adj: Adjacency, dist: map<V, nat>, shortest: nat, end: V, ns: seq<V>, path: seq<V>, distance: nat)
    requires SimpleLists(adj) && NoDup(ns) && distance <= shortest
    ensures NoDup(DfsVia(adj, dist, shortest, end, ns, path, distance))
    decreases shortest + 1 - distance, 0, |ns|
  {
    if ns != [] {
      var n := ns[0];
      var head := if n in dist && dist[n] == distance + 1
        then Dfs(adj, dist, shortest, end, n, path + [n], distance + 1) else [];
      var tail := DfsVia(adj, dist, shortest, end, ns[1..], path, distance);
      if n in dist && dist[n] == distance + 1 {
        DfsNoDup(adj, dist, shortest, end, n, path + [n], distance + 1);
      }
      assert NoDup(ns[1..]) by {
        forall i, j | 0 <= i < j < |ns[1..]| ensures ns[1..][i] != ns[1..][j] {
          assert ns[1..][i] == ns[i + 1] && ns[1..][j] == ns[j + 1];
        }
      }
      DfsViaNoDup(adj, dist, shortest, end, ns[1..], path, distance);
      forall x | x in head ensures |x| > |path| && x[|path|] == n {
        var t := DfsSound(adj, dist, shortest, end, n, path + [n], distance + 1, x);
      }
      forall x | x in tail ensures |x| > |path| && x[|path|] != n {
        var j, t := DfsViaSound(adj, dist, shortest, end, ns[1..], path, distance, x);
        assert x[|path|] == ns[1..][j] == ns[j + 1];
      }
      NoDupConcat(head, tail);
    }
  }

  /** What the search records once end is labelled: exactly the shortest
      walks, at least one, none repeating a node, and none twice when the
      neighbour lists have no repeats. */
  lemma DfsAnswer(adj: Adjacency, start: V, end: V, dist: map<V, nat>)
    requires BfsResult(ToGraph(adj), start, end, dist) && end in dist
    ensures var paths := Dfs(adj, dist, dist[end], end, start, [start], 0);
      (forall p :: p in paths <==> ShortestWalk(ToGraph(adj), start, end, p)) &&
      paths != [] &&
      (forall p | p in paths :: NoRepeats(p)) &&
      (SimpleLists(adj) ==> NoDup(paths))
  {
    var g, paths := ToGraph(adj), Dfs(adj, dist, dist[end], end, start, [start], 0);
    forall p ensures p in paths <==> ShortestWalk(g, start, end, p) {
      if p in paths {
        DfsShortest(adj, start, end, dist, p);
      }
      if ShortestWalk(g, start, end, p) {
        ShortestDfs(adj, start, end, dist, p);
      }
    }
    var w := ShortestExists(g, start, end);
    assert w in paths;
    forall p | p in paths ensures NoRepeats(p) {
      ShortestWalkDists(g, start, end, p);
    }
    if SimpleLists(adj) {
      DfsNoDup(adj, dist, dist[end], end, start, [start], 0);
    }
  }

  /** The answer to a query between two distinct display nodes s and t: none
      when t cannot be reached from s, and otherwise every shortest walk, each
      once when no link is repeated, none repeating a node. */
  ghost predicate QueryAnswer(g: Graph, adj: Adjacency, s: V, t: V, r: Option<seq<seq<V>>>) {
    (r.Some? <==> Reachable(g, s, t)) &&
    (r.Some? ==> r.value != [] && forall p :: p in r.value <==> ShortestWalk(g, s, t, p)) &&
    (r.Some? ==> forall p | p in r.value :: NoRepeats(p)) &&
    (r.Some? && SimpleLists(adj) ==> NoDup(r.value))
  }

  /** The path query between two players (or nodes) of the graph on screen:
      none for a missing endpoint or for the same endpoint twice; the single
      one-node path when both are shown as the same node; otherwise every
      shortest path between their display nodes, or none when there is no
      path at all. */
  method FindAllShortestPaths(d: Dataset, condensed: bool, ids: seq<V>, links: seq<(V, V)>, start: V, end: V)
    returns (r: Option<seq<seq<V>>>)
    requires forall k | 0 <= k < |links| :: links[k].0 in ids && links[k].1 in ids
    ensures start == "" || end == "" || start == end ==> r == None
    ensures (start != "" && end != "" && start != end &&
             DisplayNodeId(d, condensed, start) == DisplayNodeId(d, condensed, end)) ==>
      r == Some([[DisplayNodeId(d, condensed, start)]])
    ensures (start != "" && end != "" &&
             DisplayNodeId(d, condensed, start) != DisplayNodeId(d, condensed, end)) ==>
      QueryAnswer(LinkGraph(ids, links), AdjacencyOf(ids, links),
        DisplayNodeId(d, condensed, start), DisplayNodeId(d, condensed, end), r)
  {
    if start == "" || end == "" || start == end {
      return None;
    }
    var displayStart := DisplayNodeId(d, condensed, start);
    var displayEnd := DisplayNodeId(d, condensed, end);
    if displayStart == displayEnd {
      return Some([[displayStart]]);
    }
    var adj := BuildAdjacency(ids, links);
    var dist := Bfs(adj, displayStart, displayEnd);
    if displayEnd !in dist {
      return None;
    }
    DfsAnswer(adj, displayStart, displayEnd, dist);
    r := Some(Dfs(adj, dist, dist[displayEnd], displayEnd, displayStart, [displayStart], 0));
  }

  // ---------------------------------------------------------------------
  // The links the views hand the query

  /** Links drawn, in the manner of both views' double loop, between
      distinct positions of a repeat-free id list, at most once per pair of
      positions: pairs[k] holds the positions link k joins. */
  ghost predicate PairLinks(ids: seq<V>, ends: seq<(V, V)>, pairs: seq<(int, int)>) {
    NoDup(ids) && |pairs| == |ends| &&
    (forall k | 0 <= k < |pairs| ::
      0 <= pairs[k].0 < pairs[k].1 < |ids| && ends[k] == (ids[pairs[k].0], ids[pairs[k].1])) &&
    (forall k, k' | 0 <= k < k' < |pairs| :: pairs[k] != pairs[k'])
  }

  /** Such a link joins two different listed nodes. */
  lemma PairLinksEnds(ids: seq<V>, ends: seq<(V, V)>, pairs: seq<(int, int)>)
    requires PairLinks(ids, ends, pairs)
    ensures forall k | 0 <= k < |ends| :: ends[k].0 in ids && ends[k].1 in ids && ends[k].0 != ends[k].1
  {
    forall k | 0 <= k < |ends| ensures ends[k].0 in ids && ends[k].1 in ids && ends[k].0 != ends[k].1 {
      assert ends[k] == (ids[pairs[k].0], ids[pairs[k].1]);
    }
  }

  /** No two such links join the same two nodes, in either direction. */
  lemma PairLinksOnce(ids: seq<V>, ends: seq<(V, V)>, pairs: seq<(int, int)>, j: int, k: int)
    requires PairLinks(ids, ends, pairs) && 0 <= j < k < |ends|
    ensures ends[j] != ends[k] && ends[j] != (ends[k].1, ends[k].0)
  {
    var p, q := pairs[j], pairs[k];
    assert ends[j] == (ids[p.0], ids[p.1]) && ends[k] == (ids[q.0], ids[q.1]);
  }

  /** The neighbour list such links give a node has no repeats. */
  lemma {:induction false} LinkedToNoDup(ids: seq<V>, ends: seq<(V, V)>, pairs: seq<(int, int)>, u: V, k: nat)
    requires PairLinks(ids, ends, pairs) && k <= |ends|
    ensures NoDup(LinkedTo(ends, u, k))
  {
    if k > 0 {
      var before := LinkedTo(ends, u, k - 1);
      LinkedToNoDup(ids, ends, pairs, u, k - 1);
      LinkedToFacts(ends, u, k - 1);
      PairLinksEnds(ids, ends, pairs);
      var e := ends[k - 1];
      var added := (if e.0 == u then [e.1] else []) + (if e.1 == u then [e.0] else []);
      assert added == [] || added == [e.1] || added == [e.0];
      forall x | x in added ensures x !in before {
        if x in before {
          var j :| 0 <= j < k - 1 && (ends[j] == (u, x) || ends[j] == (x, u));
          PairLinksOnce(ids, ends, pairs, j, k - 1);
        }
      }
      NoDupConcat(before, added);
      assert LinkedTo(ends, u, k) == before + added;
    }
  }

  /** Such links give the query what it needs: every link joins two
      different listed nodes, and no neighbour list repeats a node. */
  lemma PairLinksReady(ids: seq<V>, ends: seq<(V, V)>, pairs: seq<(int, int)>)
    requires PairLinks(ids, ends, pairs)
    ensures forall k | 0 <= k < |ends| :: ends[k].0 in ids && ends[k].1 in ids && ends[k].0 != ends[k].1
    ensures SimpleLists(AdjacencyOf(ids, ends))
  {
    PairLinksEnds(ids, ends, pairs);
    var adj := AdjacencyOf(ids, ends);
    forall u | u in adj ensures NoDup(adj[u]) {
      LinkedToNoDup(ids, ends, pairs, u, |ends|);
    }
  }

  /** The ids of the season view's nodes. */
  function SeasonViewIds(nodes: seq<GraphViews.SeasonViewNode>): (ids: seq<V>)
    ensures |ids| == |nodes| && forall k | 0 <= k < |nodes| :: ids[k] == GraphViews.SeasonLabel(nodes[k].season)
  {
    seq(|nodes|, k requires 0 <= k < |nodes| => GraphViews.SeasonLabel(nodes[k].season))
  }

  /** The two ends of each of the season view's links. */
  function SeasonViewEnds(links: seq<GraphViews.SeasonLink>): (ends: seq<(V, V)>)
    ensures |ends| == |links| && forall k | 0 <= k < |links| :: ends[k] == (links[k].source, links[k].target)
  {
    seq(|links|, k requires 0 <= k < |links| => (links[k].source, links[k].target))
  }

  /** The season view, as built, is fit for the query: every link joins two
      different season nodes of the view, and no neighbour list repeats a
      node. */
  lemma SeasonViewReady(d: Dataset, nodes: seq<GraphViews.SeasonViewNode>, links: seq<GraphViews.SeasonLink>, pairs: seq<(int, int)>)
    requires GraphViews.NodeSeasons(nodes) == SortSet(AllSeasons(d))
    requires |pairs| == |links|
    requires forall k | 0 <= k < |pairs| :: 0 <= pairs[k].0 < pairs[k].1 < |nodes|
    requires forall k | 0 <= k < |pairs| ::
      GraphViews.SeasonLinkOf(d, nodes[pairs[k].0].season, nodes[pairs[k].1].season, links[k])
    requires forall k, k' | 0 <= k < k' < |pairs| :: GraphViews.LexLess(pairs[k], pairs[k'])
    ensures var ids, ends := SeasonViewIds(nodes), SeasonViewEnds(links);
      (forall k | 0 <= k < |ends| :: ends[k].0 in ids && ends[k].1 in ids && ends[k].0 != ends[k].1) &&
      SimpleLists(AdjacencyOf(ids, ends))
  {
    var ids, ends := SeasonViewIds(nodes), SeasonViewEnds(links);
    var seasons := GraphViews.NodeSeasons(nodes);
    forall i, j | 0 <= i < j < |ids| ensures ids[i] != ids[j] {
      assert seasons[i] < seasons[j];
      if ids[i] == ids[j] {
        GraphViews.SeasonLabelInjective(nodes[i].season, nodes[j].season);
      }
    }
    forall k | 0 <= k < |pairs| ensures ends[k] == (ids[pairs[k].0], ids[pairs[k].1]) {
      assert GraphViews.SeasonLinkOf(d, nodes[pairs[k].0].season, nodes[pairs[k].1].season, links[k]);
    }
    forall k, k' | 0 <= k < k' < |pairs| ensures pairs[k] != pairs[k'] {
      assert GraphViews.LexLess(pairs[k], pairs[k']);
    }
    PairLinksReady(ids, ends, pairs);
  }

  /** The ids of the player view's nodes. */
  function PlayerViewIds(nodes: seq<Node>): (ids: seq<V>)
    ensures |ids| == |nodes| && forall k | 0 <= k < |nodes| :: ids[k] == nodes[k].Id()
  {
    seq(|nodes|, k requires 0 <= k < |nodes| => nodes[k].Id())
  }

  /** The two ends of each of the player view's links. */
  function PlayerViewEnds(links: seq<Link>): (ends: seq<(V, V)>)
    ensures |ends| == |links| && forall k | 0 <= k < |links| :: ends[k] == (links[k].source, links[k].target)
  {
    seq(|links|, k requires 0 <= k < |links| => (links[k].source, links[k].target))
  }

  /** The player view's node ids are distinct when no player is named like
      a season node. */
  lemma PlayerViewIdsDistinct(d: Dataset, condensed: bool)
    requires Valid(d) && NoLabelNames(d)
    ensures NoDup(PlayerViewIds(PlayerViewNodes(d, condensed)))
  {
    var ids := PlayerViewIds(PlayerViewNodes(d, condensed));
    forall i, j | 0 <= i < j < |ids| ensures ids[i] != ids[j] {
      IdsDistinct(d, condensed, i, j);
    }
  }

  /** Links drawn by the double loop over nodes with distinct ids are fit
      for the query. */
  lemma PlayerLinksReady(nodes: seq<Node>, links: seq<Link>, pairs: seq<(int, int)>)
    requires NoDup(PlayerViewIds(nodes))
    requires |pairs| == |links|
    requires forall k | 0 <= k < |pairs| ::
      0 <= pairs[k].0 < pairs[k].1 < |nodes| && PlayerPair(nodes[pairs[k].0], nodes[pairs[k].1]) == Some(links[k])
    requires forall k, k' | 0 <= k < k' < |pairs| :: GraphViews.LexLess(pairs[k], pairs[k'])
    ensures var ids, ends := PlayerViewIds(nodes), PlayerViewEnds(links);
      (forall k | 0 <= k < |ends| :: ends[k].0 in ids && ends[k].1 in ids && ends[k].0 != ends[k].1) &&
      SimpleLists(AdjacencyOf(ids, ends))
  {
    var ids, ends := PlayerViewIds(nodes), PlayerViewEnds(links);
    forall k | 0 <= k < |pairs| ensures ends[k] == (ids[pairs[k].0], ids[pairs[k].1]) {
      assert PlayerPair(nodes[pairs[k].0], nodes[pairs[k].1]) == Some(links[k]);
    }
    forall k, k' | 0 <= k < k' < |pairs| ensures pairs[k] != pairs[k'] {
      assert GraphViews.LexLess(pairs[k], pairs[k']);
    }
    PairLinksReady(ids, ends, pairs);
  }

  /** The player view, as built, is fit for the query when no player is
      named like a season node: every link joins two different nodes of the
      view, and no neighbour list repeats a node. */
  lemma PlayerViewReady(d: Dataset, condensed: bool, nodes: seq<Node>, links: seq<Link>, pairs: seq<(int, int)>)
    requires Valid(d) && NoLabelNames(d)
    requires nodes == PlayerViewNodes(d, condensed)
    requires |pairs| == |links|
    requires forall k | 0 <= k < |pairs| ::
      0 <= pairs[k].0 < pairs[k].1 < |nodes| && PlayerPair(nodes[pairs[k].0], nodes[pairs[k].1]) == Some(links[k])
    requires forall k, k' | 0 <= k < k' < |pairs| :: GraphViews.LexLess(pairs[k], pairs[k'])
    ensures var ids, ends := PlayerViewIds(nodes), PlayerViewEnds(links);
      (forall k | 0 <= k < |ends| :: ends[k].0 in ids && ends[k].1 in ids && ends[k].0 != ends[k].1) &&
      SimpleLists(AdjacencyOf(ids, ends))
  {
    PlayerViewIdsDistinct(d, condensed);
    PlayerLinksReady(nodes, links, pairs);
  }
}
