/** The two graph views the web page draws from the dataset: the season view
    (one node per season, linked when seasons share players) and the player
    view (one node per returning player, and either one node per one-season
    player or, condensed, one node per season for them), plus the helpers
    around it: which node stands for a player, the name search box and the
    drawn node size. */
module GraphViews {
  import opened Options
  import opened Seqs
  import opened Strings
  import opened Survivor

  /** The id and label of the node for season s. */
  function SeasonLabel(s: int): (r: string)
    ensures |r| > 7 && r[..7] == "Season "
  {
    "Season " + IntToString(s)
  }

  lemma SeasonLabelInjective(a: int, b: int)
    requires SeasonLabel(a) == SeasonLabel(b)
    ensures a == b
  {
    assert SeasonLabel(a)[7..] == IntToString(a);
    assert SeasonLabel(b)[7..] == IntToString(b);
    IntToStringInjective(a, b);
  }

  /** Whether a value occurs in a sequence, as a filter condition. */
  function InSeqF<T(==)>(s: seq<T>): T -> bool {
    x => x in s
  }

  // ---------------------------------------------------------------------
  // Pairwise links

  /** Lexicographic order on index pairs. */
  predicate LexLess(p: (int, int), q: (int, int)) {
    p.0 < q.0 || (p.0 == q.0 && p.1 < q.1)
  }

  /** The double loop over i < j that both views use to create links: f decides
      whether nodes i and j are linked and with what. pairs records, for each
      link, the indices of its two nodes. */
  method LinkPairs<N, L>(nodes: seq<N>, f: (N, N) -> Option<L>) returns (links: seq<L>, ghost pairs: seq<(int, int)>)
    ensures |pairs| == |links|
    ensures forall k | 0 <= k < |pairs| ::
      0 <= pairs[k].0 < pairs[k].1 < |nodes| && f(nodes[pairs[k].0], nodes[pairs[k].1]) == Some(links[k])
    ensures forall k, k' | 0 <= k < k' < |pairs| :: LexLess(pairs[k], pairs[k'])
    ensures forall i, j | 0 <= i < j < |nodes| && f(nodes[i], nodes[j]).Some? :: (i, j) in pairs
  {
    links, pairs := [], [];
    for i := 0 to |nodes|
      invariant PairsBefore(nodes, f, links, pairs, i)
    {
      links, pairs := LinkRow(nodes, f, i, links, pairs);
    }
  }

  /** The links of the double loop once the rows before row i are done. */
  ghost predicate PairsBefore<N, L>(nodes: seq<N>, f: (N, N) -> Option<L>, links: seq<L>, pairs: seq<(int, int)>, i: int) {
    |pairs| == |links| &&
    (forall k | 0 <= k < |pairs| ::
      0 <= pairs[k].0 < pairs[k].1 < |nodes| && pairs[k].0 < i && f(nodes[pairs[k].0], nodes[pairs[k].1]) == Some(links[k])) &&
    (forall k, k' | 0 <= k < k' < |pairs| :: LexLess(pairs[k], pairs[k'])) &&
    (forall a, b | 0 <= a < i && a < b < |nodes| && f(nodes[a], nodes[b]).Some? :: (a, b) in pairs)
  }

  /** The inner loop of the double loop: row i, pairing node i with every
      later node. */
  method LinkRow<N, L>(nodes: seq<N>, f: (N, N) -> Option<L>, i: int, links0: seq<L>, ghost pairs0: seq<(int, int)>)
    returns (links: seq<L>, ghost pairs: seq<(int, int)>)
    requires 0 <= i < |nodes| && PairsBefore(nodes, f, links0, pairs0, i)
    ensures PairsBefore(nodes, f, links, pairs, i + 1)
  {
    links, pairs := links0, pairs0;
    for j := i + 1 to |nodes|
      invariant |pairs| == |links|
      invariant forall k | 0 <= k < |pairs| ::
        0 <= pairs[k].0 < pairs[k].1 < |nodes| && (pairs[k].0 < i || (pairs[k].0 == i && pairs[k].1 < j)) &&
        f(nodes[pairs[k].0], nodes[pairs[k].1]) == Some(links[k])
      invariant forall k, k' | 0 <= k < k' < |pairs| :: LexLess(pairs[k], pairs[k'])
      invariant forall a, b | ((0 <= a < i && a < b < |nodes|) || (a == i && i < b < j)) && f(nodes[a], nodes[b]).Some? ::
        (a, b) in pairs
    {
      match f(nodes[i], nodes[j])
      case Some(l) =>
        links := links + [l];
        pairs := pairs + [(i, j)];
      case None =>
    }
  }

  // ---------------------------------------------------------------------
  // Season view

  datatype SeasonViewNode = SeasonViewNode(season: int, playerCount: nat)
  datatype SeasonLink = SeasonLink(source: string, target: string, value: nat, players: seq<string>)

  /** The players of season s in dataset order (the Set the view builds). */
  function Members(d: Dataset, s: int): (r: seq<string>)
    ensures forall n | n in r :: InSeason(d, s, n)
  {
    Filter(d.names, InSeasonF(d, s))
  }

  /** The players of a season listed once each, and exactly the players who
      appeared in it. */
  lemma MembersSet(d: Dataset, s: int)
    requires Valid(d)
    ensures NoDup(Members(d, s))
    ensures forall n :: n in Members(d, s) <==> n in PlayersIn(d, s)
    ensures |Members(d, s)| == |PlayersIn(d, s)|
  {
    FilterNoDup(d.names, InSeasonF(d, s));
    var m := Members(d, s);
    forall n | n in PlayersIn(d, s) ensures n in m {
      var i :| 0 <= i < |d.names| && d.names[i] == n;
    }
    assert (set n | n in m) == PlayersIn(d, s);
    NoDupCard(m);
  }

  /** A season has players exactly when some player's list names it. */
  lemma KeysAllSeasons(d: Dataset, m: map<int, seq<string>>)
    requires Valid(d)
    requires forall s | s in m :: m[s] != []
    requires forall s | s !in m :: Members(d, s) == []
    requires forall s | s in m :: m[s] == Members(d, s)
    ensures m.Keys == AllSeasons(d)
  {
    forall s | s in AllSeasons(d) ensures s in m {
      var n :| n in d.seasons && s in d.seasons[n];
      MembersSet(d, s);
      assert n in PlayersIn(d, s);
    }
    forall s | s in m ensures s in AllSeasons(d) {
      var n := m[s][0];
      assert InSeason(d, s, n);
    }
  }

  /** The inner loop of the season view's first pass: add a player to the
      player list of each of their seasons, creating missing entries. */
  method AddToSeasons(m: map<int, seq<string>>, name: string, ss: seq<int>) returns (m': map<int, seq<string>>)
    requires forall s | s in m :: name !in m[s]
    ensures forall s :: s in m' <==> s in m || s in ss
    ensures forall s | s in m' :: m'[s] == (if s in m then m[s] else []) + (if s in ss then [name] else [])
  {
    m' := m;
    for j := 0 to |ss|
      invariant forall s :: s in m' <==> s in m || s in ss[..j]
      invariant forall s | s in m' :: m'[s] == (if s in m then m[s] else []) + (if s in ss[..j] then [name] else [])
    {
      var s := ss[j];
      if s !in m' {
        m' := m'[s := []];
      }
      if name !in m'[s] {
        m' := m'[s := m'[s] + [name]];
      }
      assert ss[..j + 1] == ss[..j] + [s];
    }
    assert ss[..|ss|] == ss;
  }

  /** The first i players have been entered in m: each season's list holds
      its players among them, and a season without one has no entry. */
  ghost predicate CollectedUpTo(d: Dataset, m: map<int, seq<string>>, i: nat)
    requires i <= |d.names|
  {
    (forall s | s in m :: m[s] != [] && m[s] == FilterTo(d.names, InSeasonF(d, s), i)) &&
    (forall s | s !in m :: FilterTo(d.names, InSeasonF(d, s), i) == [])
  }

  lemma NotYetCollected(d: Dataset, m: map<int, seq<string>>, i: nat)
    requires Valid(d) && i < |d.names| && CollectedUpTo(d, m, i)
    ensures forall s | s in m :: d.names[i] !in m[s]
  {
    forall s | s in m ensures d.names[i] !in m[s] {
      FilterToFacts(d.names, InSeasonF(d, s), i);
    }
  }

  lemma CollectedStep(d: Dataset, m: map<int, seq<string>>, m': map<int, seq<string>>, i: nat)
    requires Valid(d) && i < |d.names| && CollectedUpTo(d, m, i)
    requires forall s :: s in m' <==> s in m || s in d.seasons[d.names[i]]
    requires forall s | s in m' ::
      m'[s] == (if s in m then m[s] else []) + (if s in d.seasons[d.names[i]] then [d.names[i]] else [])
    ensures CollectedUpTo(d, m', i + 1)
  {
  }

  lemma CollectedAll(d: Dataset, m: map<int, seq<string>>)
    requires Valid(d) && CollectedUpTo(d, m, |d.names|)
    ensures m.Keys == AllSeasons(d)
    ensures forall s | s in m :: m[s] == Members(d, s)
  {
    KeysAllSeasons(d, m);
  }

  /** The first loop of the season view: season number to its players, in
      order of first appearance; each list holds the season's distinct
      players. */
  method CollectSeasonMembers(d: Dataset) returns (m: map<int, seq<string>>)
    requires Valid(d)
    ensures m.Keys == AllSeasons(d)
    ensures forall s | s in m :: m[s] == Members(d, s)
  {
    m := map[];
    for i := 0 to |d.names|
      invariant CollectedUpTo(d, m, i)
    {
      var name := d.names[i];
      NotYetCollected(d, m, i);
      var m' := AddToSeasons(m, name, d.seasons[name]);
      CollectedStep(d, m, m', i);
      m := m';
    }
    CollectedAll(d, m);
  }

  /** Whether two seasons are linked: they are when they share a player, and
      the link carries the shared players in the first season's order. */
  function SeasonPair(m: map<int, seq<string>>, a: SeasonViewNode, b: SeasonViewNode): (r: Option<SeasonLink>)
    ensures r.Some? <==> a.season in m && b.season in m && exists p :: p in m[a.season] && p in m[b.season]
    ensures r.Some? ==> r.value.value == |r.value.players| && r.value.value > 0
    ensures r.Some? ==> r.value.source == SeasonLabel(a.season) && r.value.target == SeasonLabel(b.season)
    ensures r.Some? ==> forall p :: p in r.value.players <==> p in m[a.season] && p in m[b.season]
  {
    if a.season in m && b.season in m then
      var shared := Filter(m[a.season], InSeqF(m[b.season]));
      if |shared| > 0 then
        assert shared[0] in m[a.season] && shared[0] in m[b.season];
        Some(SeasonLink(SeasonLabel(a.season), SeasonLabel(b.season), |shared|, shared))
      else
        None
    else None
  }

  function SeasonPairF(m: map<int, seq<string>>): (SeasonViewNode, SeasonViewNode) -> Option<SeasonLink> {
    (a, b) => SeasonPair(m, a, b)
  }

  /** The seasons of a node list, in order. */
  function NodeSeasons(nodes: seq<SeasonViewNode>): (r: seq<int>)
    ensures |r| == |nodes| && forall k | 0 <= k < |nodes| :: r[k] == nodes[k].season
  {
    seq(|nodes|, k requires 0 <= k < |nodes| => nodes[k].season)
  }

  /** The second loop of the season view: a node per season in ascending
      order, counting the season's players. */
  method SeasonNodes(d: Dataset, m: map<int, seq<string>>) returns (nodes: seq<SeasonViewNode>)
    requires forall s | s in m :: |m[s]| == |PlayersIn(d, s)|
    ensures NodeSeasons(nodes) == SortSet(m.Keys)
    ensures forall k | 0 <= k < |nodes| :: nodes[k].playerCount == |PlayersIn(d, nodes[k].season)|
  {
    var sorted := SortSet(m.Keys);
    nodes := CountLoop(d, m, sorted);
  }

  /** The loop of the second pass over the given seasons. */
  method CountLoop(d: Dataset, m: map<int, seq<string>>, sorted: seq<int>) returns (nodes: seq<SeasonViewNode>)
    requires forall s | s in sorted :: s in m && |m[s]| == |PlayersIn(d, s)|
    ensures NodeSeasons(nodes) == sorted
    ensures forall k | 0 <= k < |nodes| :: nodes[k].playerCount == |PlayersIn(d, nodes[k].season)|
  {
    nodes := [];
    for k := 0 to |sorted|
      invariant |nodes| == k
      invariant forall q | 0 <= q < k :: nodes[q].season == sorted[q]
      invariant forall q | 0 <= q < k :: nodes[q].playerCount == |PlayersIn(d, sorted[q])|
    {
      var s := sorted[k];
      assert s in sorted;
      nodes := nodes + [SeasonViewNode(s, |m[s]|)];
    }
    assert NodeSeasons(nodes) == sorted;
  }

  /** What the first pass computes, stated per season: each list holds the
      season's players once each, and every season of some player has one. */
  ghost predicate SeasonMap(d: Dataset, m: map<int, seq<string>>) {
    (forall s | s in m :: NoDup(m[s]) && forall p :: p in m[s] <==> InSeason(d, s, p)) &&
    (forall s, p | InSeason(d, s, p) :: s in m)
  }

  lemma SeasonMapFacts(d: Dataset, m: map<int, seq<string>>)
    requires Valid(d)
    requires m.Keys == AllSeasons(d)
    requires forall s | s in m :: m[s] == Members(d, s)
    ensures SeasonMap(d, m)
    ensures forall s | s in m :: |m[s]| == |PlayersIn(d, s)|
  {
    forall s | s in m ensures NoDup(m[s]) && |m[s]| == |PlayersIn(d, s)| && forall p :: p in m[s] <==> InSeason(d, s, p) {
      MembersSet(d, s);
    }
    forall s, p | InSeason(d, s, p) ensures s in m {
      assert s in AllSeasons(d);
    }
  }

  /** The link loop of the season view. */
  method SeasonLinks(d: Dataset, m: map<int, seq<string>>, nodes: seq<SeasonViewNode>)
    returns (links: seq<SeasonLink>, ghost pairs: seq<(int, int)>)
    requires SeasonMap(d, m)
    ensures |pairs| == |links|
    ensures forall k | 0 <= k < |pairs| :: 0 <= pairs[k].0 < pairs[k].1 < |nodes|
    ensures forall k | 0 <= k < |pairs| ::
      SeasonLinkOf(d, nodes[pairs[k].0].season, nodes[pairs[k].1].season, links[k])
    ensures forall i, j, p | 0 <= i < j < |nodes| && InSeason(d, nodes[i].season, p) && InSeason(d, nodes[j].season, p) ::
      (i, j) in pairs
    ensures forall k, k' | 0 <= k < k' < |pairs| :: LexLess(pairs[k], pairs[k'])
  {
    links, pairs := LinkPairs(nodes, SeasonPairF(m));
    forall k | 0 <= k < |pairs|
      ensures SeasonLinkOf(d, nodes[pairs[k].0].season, nodes[pairs[k].1].season, links[k])
    {
      SeasonLinkFacts(d, m, nodes[pairs[k].0], nodes[pairs[k].1], links[k]);
    }
    forall i, j, p | 0 <= i < j < |nodes| && InSeason(d, nodes[i].season, p) && InSeason(d, nodes[j].season, p)
      ensures (i, j) in pairs
    {
      assert SeasonPairF(m)(nodes[i], nodes[j]).Some? by {
        assert p in m[nodes[i].season] && p in m[nodes[j].season];
      }
    }
  }

  /** l is the link between seasons si and sj: it names their nodes and
      carries, once each, exactly the players of both seasons, and its value
      is their number. */
  ghost predicate SeasonLinkOf(d: Dataset, si: int, sj: int, l: SeasonLink) {
    l.source == SeasonLabel(si) && l.target == SeasonLabel(sj) &&
    l.value == |l.players| > 0 &&
    NoDup(l.players) &&
    forall p :: p in l.players <==> InSeason(d, si, p) && InSeason(d, sj, p)
  }

  lemma SeasonLinkFacts(d: Dataset, m: map<int, seq<string>>, a: SeasonViewNode, b: SeasonViewNode, l: SeasonLink)
    requires SeasonMap(d, m)
    requires SeasonPair(m, a, b) == Some(l)
    ensures SeasonLinkOf(d, a.season, b.season, l)
  {
    FilterNoDup(m[a.season], InSeqF(m[b.season]));
  }

  /** The season view: one node per distinct season in ascending order with
      its number of distinct players, and one link for every pair of seasons
      that share a player, carrying the shared players. */
  method BuildSeasonView(d: Dataset) returns (nodes: seq<SeasonViewNode>, links: seq<SeasonLink>, ghost pairs: seq<(int, int)>)
    requires Valid(d)
    ensures NodeSeasons(nodes) == SortSet(AllSeasons(d))
    ensures forall k | 0 <= k < |nodes| :: nodes[k].playerCount == |PlayersIn(d, nodes[k].season)|
    ensures |pairs| == |links|
    ensures forall k | 0 <= k < |pairs| :: 0 <= pairs[k].0 < pairs[k].1 < |nodes|
    ensures forall k | 0 <= k < |pairs| ::
      SeasonLinkOf(d, nodes[pairs[k].0].season, nodes[pairs[k].1].season, links[k])
    ensures forall i, j, p | 0 <= i < j < |nodes| && InSeason(d, nodes[i].season, p) && InSeason(d, nodes[j].season, p) ::
      (i, j) in pairs
    ensures forall k, k' | 0 <= k < k' < |pairs| :: LexLess(pairs[k], pairs[k'])
  {
    var m := CollectSeasonMembers(d);
    SeasonMapFacts(d, m);
    nodes := SeasonNodes(d, m);
    assert SortSet(m.Keys) == SortSet(AllSeasons(d));
    links, pairs := SeasonLinks(d, m, nodes);
  }
}
