/** The offline script that looks for the longest shortest path between two
    players.  Players are joined when they played a season together; a
    breadth-first search that carries each queued node's path finds one
    shortest path between two players; a scan over every unordered pair of
    players keeps the longest of those paths, with ties in scan order, and
    counts the pairs that are connected at all. */
module LongestPath {
  import opened Options
  import opened Seqs
  import opened Graphs
  import opened Search
  import opened Survivor

  // ---------------------------------------------------------------------
  // The co-player graph

  /** The two players took part in a common season. */
  ghost predicate CoPlayers(d: Dataset, a: V, b: V) {
    exists s :: InSeason(d, s, a) && InSeason(d, s, b)
  }

  /** The players who shared a season with u, u left out. */
  ghost function CoPlayersOf(d: Dataset, u: V): set<V> {
    set v | v in d.seasons && v != u && CoPlayers(d, u, v)
  }

  /** The graph the script builds: a node per player who shared a season
      with somebody else, joined to every such player. */
  ghost function SeasonGraph(d: Dataset): Graph {
    map u | u in d.seasons && CoPlayersOf(d, u) != {} :: CoPlayersOf(d, u)
  }

  /** Edges of the graph are pairs of distinct co-players; it is therefore
      symmetric. */
  lemma SeasonGraphEdge(d: Dataset, u: V, v: V)
    ensures Edge(SeasonGraph(d), u, v) <==> u != v && CoPlayers(d, u, v)
    ensures Edge(SeasonGraph(d), u, v) ==> Edge(SeasonGraph(d), v, u)
  {
    if u != v && CoPlayers(d, u, v) {
      assert v in CoPlayersOf(d, u);
      var s :| InSeason(d, s, u) && InSeason(d, s, v);
      assert CoPlayers(d, v, u) by {
        assert InSeason(d, s, v) && InSeason(d, s, u);
      }
      assert u in CoPlayersOf(d, v);
    }
  }

  /** A player is a node of the graph exactly when they shared a season with
      somebody else; the search finds no path from or to anybody else. */
  lemma SeasonGraphNode(d: Dataset, u: V)
    ensures u in SeasonGraph(d) <==> exists v :: u != v && CoPlayers(d, u, v)
  {
    if exists v :: u != v && CoPlayers(d, u, v) {
      var v :| u != v && CoPlayers(d, u, v);
      var s :| InSeason(d, s, u) && InSeason(d, s, v);
      assert v in CoPlayersOf(d, u);
    }
    if u in SeasonGraph(d) {
      var v :| v in CoPlayersOf(d, u);
      assert u != v && CoPlayers(d, u, v);
    }
  }

  lemma SeasonGraphSymmetric(d: Dataset)
    ensures Symmetric(SeasonGraph(d))
  {
    forall u, v | Edge(SeasonGraph(d), u, v) ensures Edge(SeasonGraph(d), v, u) {
      SeasonGraphEdge(d, u, v);
    }
  }

  /** The players recorded for season s; none when s is not a key (reading a
      default dictionary). */
  function Members(m: map<int, set<V>>, s: int): (r: set<V>)
    ensures s in m ==> r == m[s]
    ensures s !in m ==> r == {}
  {
    if s in m then m[s] else {}
  }

  /** The first loop: the players of every season. */
  method GroupBySeason(d: Dataset) returns (seasons: map<int, set<V>>)
    requires Valid(d)
    ensures forall s, p :: p in Members(seasons, s) <==> InSeason(d, s, p)
    ensures forall s | s in seasons :: seasons[s] != {}
  {
    seasons := map[];
    for i := 0 to |d.names|
      invariant forall s, p :: p in Members(seasons, s) <==> p in d.names[..i] && InSeason(d, s, p)
      invariant forall s | s in seasons :: seasons[s] != {}
    {
      var player := d.names[i];
      assert d.names[..i + 1] == d.names[..i] + [player];
      seasons := AddToSeasons(seasons, player, d.seasons[player]);
    }
    assert d.names[..|d.names|] == d.names;
  }

  /** The inner loop: the player joins the set of each of their seasons. */
  method AddToSeasons(m: map<int, set<V>>, p: V, ss: seq<int>) returns (m': map<int, set<V>>)
    requires forall s | s in m :: m[s] != {}
    ensures forall s, q :: q in Members(m', s) <==> q in Members(m, s) || (q == p && s in ss)
    ensures forall s | s in m' :: m'[s] != {}
  {
    m' := m;
    for k := 0 to |ss|
      invariant forall s, q :: q in Members(m', s) <==> q in Members(m, s) || (q == p && s in ss[..k])
      invariant forall s | s in m' :: m'[s] != {}
    {
      assert ss[..k + 1] == ss[..k] + [ss[k]];
      m' := m'[ss[k] := Members(m', ss[k]) + {p}];
    }
    assert ss[..|ss|] == ss;
  }

  /** The second loop: the players of each season are joined pairwise. */
  method Connect(seasons: map<int, set<V>>) returns (g: Graph)
    ensures forall u, v :: Edge(g, u, v) <==> u != v && exists s :: s in seasons && u in seasons[s] && v in seasons[s]
    ensures forall u | u in g :: g[u] != {}
  {
    g := map[];
    var todo := seasons.Keys;
    while todo != {}
      invariant todo <= seasons.Keys
      invariant forall u, v :: Edge(g, u, v) <==> u != v && exists s :: s in seasons && s !in todo && u in seasons[s] && v in seasons[s]
      invariant forall u | u in g :: g[u] != {}
      decreases |todo|
    {
      HasElement(todo);
      var s :| s in todo;
      g := AddClique(g, seasons[s]);
      todo := todo - {s};
    }
  }

  /** All players of one season joined to each other. */
  method AddClique(g: Graph, players: set<V>) returns (g': Graph)
    requires forall u | u in g :: g[u] != {}
    ensures forall u, v :: Edge(g', u, v) <==> Edge(g, u, v) || (u in players && v in players && u != v)
    ensures forall u | u in g' :: g'[u] != {}
  {
    g' := g;
    var todo := players;
    while todo != {}
      invariant todo <= players
      invariant forall u, v :: Edge(g', u, v) <==> Edge(g, u, v) || (u in players && u !in todo && v in players && u != v)
      invariant forall u | u in g' :: g'[u] != {}
      decreases |todo|
    {
      var player1 :| player1 in todo;
      g' := AddNeighbours(g', player1, players);
      todo := todo - {player1};
    }
  }

  /** One player joined to every other player of the season. */
  method AddNeighbours(g: Graph, player1: V, players: set<V>) returns (g': Graph)
    requires forall u | u in g :: g[u] != {}
    ensures forall u, v :: Edge(g', u, v) <==> Edge(g, u, v) || (u == player1 && v in players && v != player1)
    ensures forall u | u in g' :: g'[u] != {}
  {
    g' := g;
    var todo := players;
    while todo != {}
      invariant todo <= players
      invariant forall u, v :: Edge(g', u, v) <==> Edge(g, u, v) || (u == player1 && v in players && v !in todo && v != player1)
      invariant forall u | u in g' :: g'[u] != {}
      decreases |todo|
    {
      var player2 :| player2 in todo;
      ghost var h := g';
      if player1 != player2 {
        var old_set := if player1 in g' then g'[player1] else {};
        g' := g'[player1 := old_set + {player2}];
      }
      assert forall u, v :: Edge(g', u, v) <==> Edge(h, u, v) || (u == player1 && v == player2 && v != player1);
      todo := todo - {player2};
    }
  }

  /** The graph of players who shared a season. */
  method BuildGraph(d: Dataset) returns (g: Graph)
    requires Valid(d)
    ensures g == SeasonGraph(d)
  {
    var seasons := GroupBySeason(d);
    g := Connect(seasons);
    forall u, v ensures Edge(g, u, v) <==> u != v && CoPlayers(d, u, v) {
      if u != v && CoPlayers(d, u, v) {
        var s :| InSeason(d, s, u) && InSeason(d, s, v);
        assert u in Members(seasons, s) && v in Members(seasons, s);
      }
      if Edge(g, u, v) {
        var s :| s in seasons && u in seasons[s] && v in seasons[s];
        assert u in Members(seasons, s) && v in Members(seasons, s);
        assert InSeason(d, s, u) && InSeason(d, s, v);
      }
    }
    SameGraph(d, g);
  }

  /** A graph whose edges are the co-player pairs and whose every node has a
      neighbour is the co-player graph. */
  lemma SameGraph(d: Dataset, g: Graph)
    requires forall u, v :: Edge(g, u, v) <==> u != v && CoPlayers(d, u, v)
    requires forall u | u in g :: g[u] != {}
    ensures g == SeasonGraph(d)
  {
    var h := SeasonGraph(d);
    forall u | u in g ensures u in h && g[u] == h[u] {
      var v :| v in g[u];
      assert Edge(g, u, v);
      assert u in d.seasons;
      assert v in CoPlayersOf(d, u);
      forall w ensures w in g[u] <==> w in h[u] {
        assert Edge(g, u, w) <==> u != w && CoPlayers(d, u, w);
      }
    }
    forall u | u in h ensures u in g {
      var v :| v in CoPlayersOf(d, u);
      assert Edge(g, u, v);
    }
  }

  // ---------------------------------------------------------------------
  // One shortest path

  /** A queue entry: a node and the path the search reached it by. */
  type Entry = (V, seq<V>)

  /** The nodes of the queue entries. */
  function Firsts(q: seq<Entry>): (r: seq<V>)
    ensures |r| == |q| && forall k | 0 <= k < |q| :: r[k] == q[k].0
  {
    seq(|q|, k requires 0 <= k < |q| => q[k].0)
  }

  /** The entries queued for the new neighbours vs of the node reached by
      path. */
  function Extend(path: seq<V>, vs: seq<V>): (r: seq<Entry>)
    ensures |r| == |vs| && forall k | 0 <= k < |vs| :: r[k] == (vs[k], path + [vs[k]])
  {
    seq(|vs|, k requires 0 <= k < |vs| => (vs[k], path + [vs[k]]))
  }

  /** Every queued path is a walk from start to its node, one node longer
      than the node's label. */
  ghost predicate Carried(g: Graph, start: V, dist: map<V, nat>, q: seq<Entry>) {
    forall k | 0 <= k < |q| :: q[k].0 in dist && WalkFromTo(g, start, q[k].0, q[k].1) && |q[k].1| == dist[q[k].0] + 1
  }

  /** The neighbours of u; reading a node that is not a key gives none. */
  function NeighbourSet(g: Graph, u: V): (r: set<V>)
    ensures forall v :: v in r <==> Edge(g, u, v)
  {
    if u in g then g[u] else {}
  }

  /** The loop over the neighbours of the node taken off the queue: every
      unvisited one is marked visited and queued with the path extended by
      it.  The ghost labels record the hop distance. */
  method VisitNeighbours(g: Graph, ghost start: V, ghost dist: map<V, nat>, visited: set<V>, current: V, path: seq<V>, rest: seq<Entry>)
    returns (ghost dist': map<V, nat>, visited': set<V>, queue': seq<Entry>, ghost added: seq<V>)
    requires Labelled(g, start, dist) && current in dist && visited == dist.Keys
    requires Within(g, start, dist[current]) <= dist.Keys
    requires WalkFromTo(g, start, current, path) && |path| == dist[current] + 1
    requires Carried(g, start, dist, rest)
    ensures visited' == dist'.Keys
    ensures queue' == rest + Extend(path, added)
    ensures Carried(g, start, dist', queue')
    ensures Labelled(g, start, dist')
    ensures forall x | x in dist :: x in dist' && dist'[x] == dist[x]
    ensures forall x | x in dist' && x !in dist :: x in added
    ensures forall i | 0 <= i < |added| :: added[i] in dist' && added[i] !in dist && dist'[added[i]] == dist[current] + 1
    ensures forall i | 0 <= i < |added| :: Edge(g, current, added[i])
    ensures forall v | Edge(g, current, v) :: v in dist'
  {
    dist', visited', queue', added := dist, visited, rest, [];
    var todo := NeighbourSet(g, current);
    while todo != {}
      invariant Visiting(g, start, dist, current, path, rest, todo, dist', visited', queue', added)
      decreases |todo|
    {
      todo, dist', visited', queue', added := VisitOne(g, start, dist, current, path, rest, todo, dist', visited', queue', added);
    }
    CarriedAfter(g, start, dist, dist', current, path, rest, added);
  }

  /** The invariant of the neighbour loop, todo being the neighbours not
      yet looked at. */
  ghost predicate Visiting(g: Graph, start: V, dist: map<V, nat>, current: V, path: seq<V>, rest: seq<Entry>,
                           todo: set<V>, dist': map<V, nat>, visited': set<V>, queue': seq<Entry>, added: seq<V>)
    requires current in dist
  {
    todo <= NeighbourSet(g, current) &&
    visited' == dist'.Keys &&
    queue' == rest + Extend(path, added) &&
    Labelled(g, start, dist') &&
    (forall x | x in dist :: x in dist' && dist'[x] == dist[x]) &&
    (forall x | x in dist' && x !in dist :: x in added) &&
    (forall i | 0 <= i < |added| :: added[i] in dist' && added[i] !in dist && dist'[added[i]] == dist[current] + 1) &&
    (forall i | 0 <= i < |added| :: Edge(g, current, added[i])) &&
    (forall v | Edge(g, current, v) && v !in todo :: v in dist')
  }

  /** One turn of the neighbour loop: look at one neighbour, and mark and
      queue it when it is unvisited. */
  method VisitOne(g: Graph, ghost start: V, ghost dist: map<V, nat>, current: V, path: seq<V>, ghost rest: seq<Entry>,
                  todo: set<V>, ghost dist': map<V, nat>, visited': set<V>, queue': seq<Entry>, ghost added: seq<V>)
    returns (todo2: set<V>, ghost dist2: map<V, nat>, visited2: set<V>, queue2: seq<Entry>, ghost added2: seq<V>)
    requires current in dist && Within(g, start, dist[current]) <= dist.Keys
    requires todo != {} && Visiting(g, start, dist, current, path, rest, todo, dist', visited', queue', added)
    ensures Visiting(g, start, dist, current, path, rest, todo2, dist2, visited2, queue2, added2)
    ensures |todo2| < |todo|
  {
    var neighbour :| neighbour in todo;
    dist2, visited2, queue2, added2 := dist', visited', queue', added;
    if neighbour !in visited' {
      VisitNew(g, start, dist, current, path, rest, todo, dist', visited', queue', added, neighbour);
      visited2 := visited' + {neighbour};
      dist2 := dist'[neighbour := dist[current] + 1];
      queue2 := queue' + [(neighbour, path + [neighbour])];
      added2 := added + [neighbour];
    } else {
      VisitSeen(g, start, dist, current, path, rest, todo, dist', visited', queue', added, neighbour);
    }
    todo2 := todo - {neighbour};
  }

  /** An unvisited neighbour is one step farther than current: labelling it
      and queueing it with current's path extended keeps the invariant. */
  lemma VisitNew(g: Graph, start: V, dist: map<V, nat>, current: V, path: seq<V>, rest: seq<Entry>,
                 todo: set<V>, dist': map<V, nat>, visited': set<V>, queue': seq<Entry>, added: seq<V>, neighbour: V)
    requires current in dist && Within(g, start, dist[current]) <= dist.Keys
    requires Visiting(g, start, dist, current, path, rest, todo, dist', visited', queue', added)
    requires neighbour in todo && neighbour !in visited'
    ensures Visiting(g, start, dist, current, path, rest, todo - {neighbour}, dist'[neighbour := dist[current] + 1],
                     visited' + {neighbour}, queue' + [(neighbour, path + [neighbour])], added + [neighbour])
  {
    NextLayer(g, start, dist', current, neighbour);
    assert Extend(path, added + [neighbour]) == Extend(path, added) + [(neighbour, path + [neighbour])];
  }

  /** A visited neighbour is already labelled: nothing changes. */
  lemma VisitSeen(g: Graph, start: V, dist: map<V, nat>, current: V, path: seq<V>, rest: seq<Entry>,
                  todo: set<V>, dist': map<V, nat>, visited': set<V>, queue': seq<Entry>, added: seq<V>, neighbour: V)
    requires current in dist
    requires Visiting(g, start, dist, current, path, rest, todo, dist', visited', queue', added)
    requires neighbour in visited'
    ensures Visiting(g, start, dist, current, path, rest, todo - {neighbour}, dist', visited', queue', added)
  {
  }

  /** The queue after the neighbour loop still carries a walk per entry. */
  lemma CarriedAfter(g: Graph, start: V, dist: map<V, nat>, dist': map<V, nat>, current: V, path: seq<V>, rest: seq<Entry>, added: seq<V>)
    requires current in dist && WalkFromTo(g, start, current, path) && |path| == dist[current] + 1
    requires Carried(g, start, dist, rest)
    requires forall x | x in dist :: x in dist' && dist'[x] == dist[x]
    requires forall i | 0 <= i < |added| :: added[i] in dist' && dist'[added[i]] == dist[current] + 1
    requires forall i | 0 <= i < |added| :: Edge(g, current, added[i])
    ensures Carried(g, start, dist', rest + Extend(path, added))
  {
    var q := rest + Extend(path, added);
    forall k | 0 <= k < |q| ensures q[k].0 in dist' && WalkFromTo(g, start, q[k].0, q[k].1) && |q[k].1| == dist'[q[k].0] + 1 {
      if k < |rest| {
        assert q[k] == rest[k];
      } else {
        var i := k - |rest|;
        assert q[k] == (added[i], path + [added[i]]);
        ExtendWalk(g, start, current, path, added[i]);
      }
    }
  }

  lemma ExtendWalk(g: Graph, start: V, current: V, path: seq<V>, v: V)
    requires WalkFromTo(g, start, current, path) && Edge(g, current, v)
    ensures WalkFromTo(g, start, v, path + [v])
  {
    var p := path + [v];
    forall i | 0 <= i < |p| - 1 ensures Edge(g, p[i], p[i + 1]) {
      if i < |path| - 1 {
        assert p[i] == path[i] && p[i + 1] == path[i + 1];
      }
    }
  }

  lemma FirstsAppend(q: seq<Entry>, path: seq<V>, added: seq<V>)
    ensures Firsts(q + Extend(path, added)) == Firsts(q) + added
  {
  }

  /** One turn of the search loop: take the head of the queue; return its
      path when it is end, otherwise visit its neighbours. */
  method SearchTurn(g: Graph, ghost start: V, end: V, ghost dist: map<V, nat>, visited: set<V>, queue: seq<Entry>)
    returns (ghost dist': map<V, nat>, visited': set<V>, queue': seq<Entry>, found: Option<seq<V>>)
    requires queue != [] && BfsInv(g, start, end, dist, Firsts(queue))
    requires visited == dist.Keys && Carried(g, start, dist, queue)
    ensures found.Some? ==> BfsResult(g, start, end, dist') && end in dist'
    ensures found.Some? ==> WalkFromTo(g, start, end, found.value) && |found.value| == dist'[end] + 1
    ensures found.None? ==> BfsInv(g, start, end, dist', Firsts(queue')) && visited' == dist'.Keys
    ensures found.None? ==> Carried(g, start, dist', queue') && dist.Keys <= dist'.Keys
    ensures found.None? ==> (Unlabelled(g, start, dist') < Unlabelled(g, start, dist) ||
      (Unlabelled(g, start, dist') == Unlabelled(g, start, dist) && |queue'| < |queue|))
  {
    Pop(g, start, end, dist, Firsts(queue));
    var vertex, path := queue[0].0, queue[0].1;
    var rest := queue[1..];
    assert Firsts(rest) == Firsts(queue)[1..];
    assert Carried(g, start, dist, rest) by {
      forall k | 0 <= k < |rest| ensures rest[k] == queue[k + 1] { }
    }
    if vertex == end {
      Found(g, start, end, dist, Firsts(rest));
      return dist, visited, rest, Some(path);
    }
    Frontier(g, start, dist, vertex, Firsts(rest));
    ghost var added;
    dist', visited', queue', added := VisitNeighbours(g, start, dist, visited, vertex, path, rest);
    FirstsAppend(rest, path, added);
    VisitDone(g, start, end, dist, dist', vertex, Firsts(rest), added);
    found := None;
    if dist'.Keys != dist.Keys {
      Progress(Universe(g, start), dist.Keys, dist'.Keys);
    }
  }

  /** One shortest path from start to end: none when either is not a node
      of the graph or end cannot be reached; otherwise a shortest walk,
      which repeats no node, and the one-node path when start is end. */
  method FindShortestPath(g: Graph, start: V, end: V) returns (r: Option<seq<V>>)
    ensures start !in g || end !in g ==> r == None
    ensures start in g && end in g ==> (r.Some? <==> Reachable(g, start, end))
    ensures r.Some? ==> ShortestWalk(g, start, end, r.value) && NoRepeats(r.value)
    ensures start in g && start == end ==> r == Some([start])
  {
    if start !in g || end !in g {
      return None;
    }
    var queue: seq<Entry> := [(start, [start])];
    var visited := {start};
    ghost var dist := map[start := 0];
    BfsStart(g, start, end);
    assert Firsts(queue) == [start];
    while queue != []
      invariant BfsInv(g, start, end, dist, Firsts(queue))
      invariant visited == dist.Keys && Carried(g, start, dist, queue)
      decreases Unlabelled(g, start, dist), |queue|
    {
      var found;
      dist, visited, queue, found := SearchTurn(g, start, end, dist, visited, queue);
      if found.Some? {
        FoundPath(g, start, end, dist, found.value);
        return found;
      }
    }
    Exhausted(g, start, end, dist);
    BfsDone(g, start, end, dist);
    return None;
  }

  /** The path returned when end is taken off the queue. */
  lemma FoundPath(g: Graph, start: V, end: V, dist: map<V, nat>, p: seq<V>)
    requires BfsResult(g, start, end, dist) && end in dist
    requires WalkFromTo(g, start, end, p) && |p| == dist[end] + 1
    ensures Reachable(g, start, end)
    ensures ShortestWalk(g, start, end, p) && NoRepeats(p)
    ensures start == end ==> p == [start]
  {
    assert HasDist(g, start, end, dist[end]);
    ShortestFromDist(g, start, end, p);
    ShortestWalkDists(g, start, end, p);
  }

  // ---------------------------------------------------------------------
  // The longest shortest path

  /** Both players are nodes of the graph and one can be reached from the
      other: exactly the pairs the search finds a path for. */
  ghost predicate Connected(g: Graph, a: V, b: V) {
    a in g && b in g && Reachable(g, a, b)
  }

  ghost function ConnectedF(g: Graph): ((V, V)) -> bool {
    (p: (V, V)) => Connected(g, p.0, p.1)
  }

  /** The pair is connected and its shortest path has L nodes. */
  ghost predicate Attains(g: Graph, L: nat, p: (V, V)) {
    Connected(g, p.0, p.1) && Distance(g, p.0, p.1) + 1 == L
  }

  ghost function AttainsF(g: Graph, L: nat): ((V, V)) -> bool {
    (p: (V, V)) => Attains(g, L, p)
  }

  /** The running figures of the scan: the longest path length so far, the
      pairs whose path has that length, the connected pairs and the pairs
      looked at. */
  datatype Tally = Tally(maxLength: nat, ties: seq<(V, V)>, valid: nat, processed: nat)

  /** The scan's update for one more pair. */
  ghost function Absorb(g: Graph, t: Tally, p: (V, V)): Tally {
    if Connected(g, p.0, p.1) then
      var len := Distance(g, p.0, p.1) + 1;
      if len > t.maxLength then Tally(len, [p], t.valid + 1, t.processed + 1)
      else if len == t.maxLength then Tally(t.maxLength, t.ties + [p], t.valid + 1, t.processed + 1)
      else Tally(t.maxLength, t.ties, t.valid + 1, t.processed + 1)
    else Tally(t.maxLength, t.ties, t.valid, t.processed + 1)
  }

  /** The figures after scanning the pairs ps in order. */
  ghost function Scan(g: Graph, ps: seq<(V, V)>): Tally {
    if ps == [] then Tally(0, [], 0, 0)
    else Absorb(g, Scan(g, ps[..|ps| - 1]), ps[|ps| - 1])
  }

  lemma ScanSnoc(g: Graph, ps: seq<(V, V)>, p: (V, V))
    ensures Scan(g, ps + [p]) == Absorb(g, Scan(g, ps), p)
  {
    assert (ps + [p])[..|ps|] == ps;
  }

  /** What the scan computes, independently of how: it looked at every pair,
      counted the connected ones, found the greatest path length among them,
      and kept exactly the pairs attaining it, in scan order. */
  lemma {:induction false} ScanFacts(g: Graph, ps: seq<(V, V)>)
    ensures Scan(g, ps).processed == |ps|
    ensures Scan(g, ps).valid == |Filter(ps, ConnectedF(g))|
    ensures forall p | p in ps && Connected(g, p.0, p.1) :: Distance(g, p.0, p.1) + 1 <= Scan(g, ps).maxLength
    ensures Scan(g, ps).ties == Filter(ps, AttainsF(g, Scan(g, ps).maxLength))
    ensures Scan(g, ps).maxLength > 0 ==> Scan(g, ps).ties != []
  {
    if ps != [] {
      var init, p := ps[..|ps| - 1], ps[|ps| - 1];
      assert ps == init + [p];
      ScanFacts(g, init);
      var t := Scan(g, init);
      FilterAppend(init, p, ConnectedF(g));
      FilterAppend(init, p, AttainsF(g, Scan(g, ps).maxLength));
      if Connected(g, p.0, p.1) && Distance(g, p.0, p.1) + 1 > t.maxLength {
        FilterNone(init, AttainsF(g, Scan(g, ps).maxLength));
      }
    }
  }

  /** The pairs (names[i], names[k]) for every k after i, in order of k:
      the pairs the inner loop looks at. */
  function Row(names: seq<V>, i: nat): (r: seq<(V, V)>)
    requires i < |names|
    ensures |r| == |names| - i - 1
    ensures forall k | 0 <= k < |r| :: r[k] == (names[i], names[i + 1 + k])
  {
    seq(|names| - i - 1, k requires 0 <= k < |names| - i - 1 => (names[i], names[i + 1 + k]))
  }

  /** The rows of the first i names: the pairs the scan looks at before it
      reaches names[i] as first player. */
  function PairsBefore(names: seq<V>, i: nat): seq<(V, V)>
    requires i <= |names|
  {
    if i == 0 then [] else PairsBefore(names, i - 1) + Row(names, i - 1)
  }

  /** Every unordered pair of players, first player first in the list. */
  function AllPairs(names: seq<V>): seq<(V, V)> {
    PairsBefore(names, |names|)
  }

  lemma {:induction false} PairsBeforeCount(names: seq<V>, i: nat)
    requires i <= |names|
    ensures 2 * |PairsBefore(names, i)| == i * (2 * |names| - i - 1)
  {
    if i > 0 {
      var n := |names|;
      PairsBeforeCount(names, i - 1);
      var m := |PairsBefore(names, i - 1)|;
      assert |PairsBefore(names, i)| == m + (n - i);
      assert 2 * m == (i - 1) * (2 * n - i - 1 + 1);
      assert (i - 1) * (2 * n - i) + 2 * (n - i) == i * (2 * n - i - 1);
    }
  }

  lemma {:induction false} PairsBeforeComplete(names: seq<V>, i: nat, a: nat, b: nat)
    requires i <= |names| && a < i && a < b < |names|
    ensures (names[a], names[b]) in PairsBefore(names, i)
  {
    if a < i - 1 {
      PairsBeforeComplete(names, i - 1, a, b);
    } else {
      assert Row(names, a)[b - a - 1] == (names[a], names[b]);
    }
  }

  lemma {:induction false} PairsBeforeSound(names: seq<V>, i: nat, p: (V, V)) returns (a: nat, b: nat)
    requires i <= |names| && p in PairsBefore(names, i)
    ensures a < i && a < b < |names| && p == (names[a], names[b])
  {
    if p in PairsBefore(names, i - 1) {
      a, b := PairsBeforeSound(names, i - 1, p);
    } else {
      var k :| 0 <= k < |Row(names, i - 1)| && Row(names, i - 1)[k] == p;
      a, b := i - 1, i + k;
    }
  }

  /** The scan looks at n (n - 1) / 2 pairs for n players: each unordered
      pair once, as (earlier, later). */
  lemma AllPairsFacts(names: seq<V>)
    ensures |AllPairs(names)| == |names| * (|names| - 1) / 2
    ensures forall a, b | 0 <= a < b < |names| :: (names[a], names[b]) in AllPairs(names)
    ensures forall p | p in AllPairs(names) :: exists a, b :: 0 <= a < b < |names| && p == (names[a], names[b])
  {
    PairsBeforeCount(names, |names|);
    forall a, b | 0 <= a < b < |names| ensures (names[a], names[b]) in AllPairs(names) {
      PairsBeforeComplete(names, |names|, a, b);
    }
    forall p | p in AllPairs(names) ensures exists a, b :: 0 <= a < b < |names| && p == (names[a], names[b]) {
      var a, b := PairsBeforeSound(names, |names|, p);
    }
  }

  /** In the co-player graph the order of a pair does not matter, so looking
      at each unordered pair once misses nothing. */
  lemma PairOrder(d: Dataset, a: V, b: V)
    requires Connected(SeasonGraph(d), a, b)
    ensures Connected(SeasonGraph(d), b, a)
    ensures Distance(SeasonGraph(d), a, b) == Distance(SeasonGraph(d), b, a)
  {
    SeasonGraphSymmetric(d);
    DistanceSymmetric(SeasonGraph(d), a, b);
  }

  /** A path found for a pair, with the pair. */
  type Finding = (seq<V>, (V, V))

  function PairsOf(found: seq<Finding>): (r: seq<(V, V)>)
    ensures |r| == |found| && forall k | 0 <= k < |found| :: r[k] == found[k].1
  {
    seq(|found|, k requires 0 <= k < |found| => found[k].1)
  }

  /** Every kept path is a shortest path for its pair, of the given length. */
  ghost predicate Witnessed(g: Graph, found: seq<Finding>, len: nat) {
    forall e | e in found :: ShortestWalk(g, e.1.0, e.1.1, e.0) && |e.0| == len
  }

  /** The body of the scan for one pair: search, and update the figures. */
  method ScanPair(g: Graph, player1: V, player2: V, maxPaths: seq<Finding>, maxLength: nat, totalValid: nat, processed: nat)
    returns (maxPaths': seq<Finding>, maxLength': nat, totalValid': nat, processed': nat)
    requires Witnessed(g, maxPaths, maxLength)
    ensures Tally(maxLength', PairsOf(maxPaths'), totalValid', processed') ==
      Absorb(g, Tally(maxLength, PairsOf(maxPaths), totalValid, processed), (player1, player2))
    ensures Witnessed(g, maxPaths', maxLength')
  {
    maxPaths', maxLength', totalValid', processed' := maxPaths, maxLength, totalValid, processed;
    var path := FindShortestPath(g, player1, player2);
    if path.Some? && path.value != [] {
      totalValid' := totalValid' + 1;
      ShortestWalkLength(g, player1, player2, Distance(g, player1, player2), path.value);
      if |path.value| > maxLength {
        maxLength' := |path.value|;
        maxPaths' := [(path.value, (player1, player2))];
      } else if |path.value| == maxLength {
        maxPaths' := maxPaths' + [(path.value, (player1, player2))];
        assert PairsOf(maxPaths') == PairsOf(maxPaths) + [(player1, player2)];
      }
    }
    processed' := processed' + 1;
  }

  /** The inner loop: player names[i] against every later player. */
  method ScanRow(g: Graph, names: seq<V>, i: nat, maxPaths: seq<Finding>, maxLength: nat, totalValid: nat, processed: nat)
    returns (maxPaths': seq<Finding>, maxLength': nat, totalValid': nat, processed': nat)
    requires i < |names|
    requires Witnessed(g, maxPaths, maxLength)
    requires Tally(maxLength, PairsOf(maxPaths), totalValid, processed) == Scan(g, PairsBefore(names, i))
    ensures Tally(maxLength', PairsOf(maxPaths'), totalValid', processed') == Scan(g, PairsBefore(names, i + 1))
    ensures Witnessed(g, maxPaths', maxLength')
  {
    maxPaths', maxLength', totalValid', processed' := maxPaths, maxLength, totalValid, processed;
    assert PairsBefore(names, i) + Row(names, i)[..0] == PairsBefore(names, i);
    for j := i + 1 to |names|
      invariant Witnessed(g, maxPaths', maxLength')
      invariant Tally(maxLength', PairsOf(maxPaths'), totalValid', processed') == Scan(g, PairsBefore(names, i) + Row(names, i)[..j - i - 1])
    {
      ghost var before := Tally(maxLength', PairsOf(maxPaths'), totalValid', processed');
      maxPaths', maxLength', totalValid', processed' := ScanPair(g, names[i], names[j], maxPaths', maxLength', totalValid', processed');
      RowStep(g, names, i, j, before);
    }
    assert Row(names, i)[..|names| - i - 1] == Row(names, i);
  }

  /** Scanning one more pair of the row. */
  lemma RowStep(g: Graph, names: seq<V>, i: nat, j: nat, t: Tally)
    requires i < j < |names| && t == Scan(g, PairsBefore(names, i) + Row(names, i)[..j - i - 1])
    ensures Absorb(g, t, (names[i], names[j])) == Scan(g, PairsBefore(names, i) + Row(names, i)[..j - i])
  {
    var pre, row := PairsBefore(names, i), Row(names, i);
    ScanSnoc(g, pre + row[..j - i - 1], (names[i], names[j]));
    assert row[..j - i] == row[..j - i - 1] + [(names[i], names[j])];
    assert pre + row[..j - i] == pre + row[..j - i - 1] + [(names[i], names[j])];
  }

  /** The scan over every unordered pair of players of the co-player graph.
      It returns the longest shortest paths found, each with its pair, in
      scan order, and the number of connected pairs; the figures are those
      of Scan, whose meaning ScanFacts and AllPairsFacts state. */
  method FindLongestShortestPath(d: Dataset) returns (maxPaths: seq<Finding>, totalValid: nat)
    requires Valid(d)
    ensures PairsOf(maxPaths) == Scan(SeasonGraph(d), AllPairs(d.names)).ties
    ensures totalValid == Scan(SeasonGraph(d), AllPairs(d.names)).valid
    ensures Witnessed(SeasonGraph(d), maxPaths, Scan(SeasonGraph(d), AllPairs(d.names)).maxLength)
  {
    var g := BuildGraph(d);
    maxPaths := [];
    var maxLength := 0;
    totalValid := 0;
    var players := d.names;
    var processed := 0;
    for i := 0 to |players|
      invariant Witnessed(g, maxPaths, maxLength)
      invariant Tally(maxLength, PairsOf(maxPaths), totalValid, processed) == Scan(g, PairsBefore(players, i))
    {
      maxPaths, maxLength, totalValid, processed := ScanRow(g, players, i, maxPaths, maxLength, totalValid, processed);
    }
  }

  /** The answer in the script's own terms: with n players every pair is
      examined once, the kept paths are shortest paths between two players
      that no connected pair beats, and every pair attaining that length is
      kept. */
  lemma LongestAnswer(d: Dataset)
    ensures var t := Scan(SeasonGraph(d), AllPairs(d.names));
      t.processed == |d.names| * (|d.names| - 1) / 2 &&
      (forall a, b | 0 <= a < b < |d.names| && Connected(SeasonGraph(d), d.names[a], d.names[b]) ::
         Distance(SeasonGraph(d), d.names[a], d.names[b]) + 1 <= t.maxLength) &&
      (forall a, b | 0 <= a < b < |d.names| && Attains(SeasonGraph(d), t.maxLength, (d.names[a], d.names[b])) ::
         (d.names[a], d.names[b]) in t.ties) &&
      (forall p | p in t.ties :: Attains(SeasonGraph(d), t.maxLength, p)) &&
      (t.maxLength == 0 <==> forall p | p in AllPairs(d.names) :: !Connected(SeasonGraph(d), p.0, p.1))
  {
    var g, ps := SeasonGraph(d), AllPairs(d.names);
    ScanFacts(g, ps);
    AllPairsFacts(d.names);
    var t := Scan(g, ps);
    if t.maxLength > 0 {
      assert t.ties[0] in t.ties;
    }
  }
}
