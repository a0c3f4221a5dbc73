/** The player view of the web page: a node for every player who played more
    than one season, followed either by a node for every one-season player
    or, condensed, by one node per season grouping that season's one-season
    players; players and seasons are linked when they share a season. */
module PlayerView {
  import opened Options
  import opened Seqs
  import opened Survivor
  import opened GraphViews

  datatype Node =
    | PlayerNode(name: string, seasons: seq<int>)
    | SeasonNode(season: int, players: seq<string>)
  {
    /** The node's id: the player's name, or the season's label. */
    function Id(): string {
      match this
      case PlayerNode(name, _) => name
      case SeasonNode(season, _) => SeasonLabel(season)
    }

    /** The seasons the node stands for (a season node stands for one). */
    function Seasons(): seq<int> {
      match this
      case PlayerNode(_, seasons) => seasons
      case SeasonNode(season, _) => [season]
    }
  }

  datatype Link = Link(source: string, target: string, value: nat, seasons: seq<int>)

  // ---------------------------------------------------------------------
  // The classification of players

  predicate IsMulti(d: Dataset, n: string) {
    n in d.seasons && |d.seasons[n]| > 1
  }

  predicate IsSingle(d: Dataset, n: string) {
    n in d.seasons && |d.seasons[n]| == 1
  }

  /** The season a one-season player is grouped under: the first entry of
      the player's list. */
  function GroupSeason(d: Dataset, n: string): (s: int)
    ensures IsSingle(d, n) ==> d.seasons[n] == [s]
  {
    if n in d.seasons && |d.seasons[n]| > 0 then d.seasons[n][0] else 0
  }

  /** n is a one-season player of season s. */
  predicate InGroup(d: Dataset, s: int, n: string) {
    IsSingle(d, n) && GroupSeason(d, n) == s
  }

  function IsMultiF(d: Dataset): string -> bool {
    n => IsMulti(d, n)
  }

  function IsSingleF(d: Dataset): string -> bool {
    n => IsSingle(d, n)
  }

  function InGroupF(d: Dataset, s: int): string -> bool {
    n => InGroup(d, s, n)
  }

  /** The players of more than one season, in dataset order. */
  function Multi(d: Dataset): seq<string> {
    Filter(d.names, IsMultiF(d))
  }

  /** The players of exactly one season, in dataset order. */
  function Singles(d: Dataset): seq<string> {
    Filter(d.names, IsSingleF(d))
  }

  /** The one-season players of season s, in dataset order. */
  function Group(d: Dataset, s: int): seq<string> {
    Filter(d.names, InGroupF(d, s))
  }

  /** The group seasons of a list of players, one entry per player. */
  function GroupSeasons(d: Dataset, xs: seq<string>): (r: seq<int>)
    ensures |r| == |xs| && forall k | 0 <= k < |xs| :: r[k] == GroupSeason(d, xs[k])
  {
    seq(|xs|, k requires 0 <= k < |xs| => GroupSeason(d, xs[k]))
  }

  /** The seasons that have a one-season player, in order of their first such
      player: the key order of the map the first pass builds. */
  function SingleOrder(d: Dataset): seq<int> {
    Dedup(GroupSeasons(d, Singles(d)))
  }

  function PlayerNodesOf(d: Dataset, xs: seq<string>): (r: seq<Node>)
    ensures |r| == |xs| && forall k | 0 <= k < |xs| :: r[k] == PlayerNode(xs[k], SeasonsOfPlayer(d, xs[k]))
  {
    seq(|xs|, k requires 0 <= k < |xs| => PlayerNode(xs[k], SeasonsOfPlayer(d, xs[k])))
  }

  function GroupNodes(d: Dataset, ss: seq<int>): (r: seq<Node>)
    ensures |r| == |ss| && forall k | 0 <= k < |ss| :: r[k] == SeasonNode(ss[k], Group(d, ss[k]))
  {
    seq(|ss|, k requires 0 <= k < |ss| => SeasonNode(ss[k], Group(d, ss[k])))
  }

  /** The node list of the player view, as a definition. */
  function PlayerViewNodes(d: Dataset, condensed: bool): seq<Node> {
    PlayerNodesOf(d, Multi(d)) +
    if condensed then GroupNodes(d, SingleOrder(d)) else PlayerNodesOf(d, Singles(d))
  }

  lemma PlayerNodesAppend(d: Dataset, xs: seq<string>, x: string)
    ensures PlayerNodesOf(d, xs + [x]) == PlayerNodesOf(d, xs) + [PlayerNode(x, SeasonsOfPlayer(d, x))]
  {
  }

  lemma GroupSeasonsAppend(d: Dataset, xs: seq<string>, x: string)
    ensures GroupSeasons(d, xs + [x]) == GroupSeasons(d, xs) + [GroupSeason(d, x)]
  {
  }

  lemma DedupAppend<T>(s: seq<T>, x: T)
    ensures Dedup(s + [x]) == if x in Dedup(s) then Dedup(s) else Dedup(s) + [x]
  {
    assert (s + [x])[..|s + [x]| - 1] == s;
  }

  // ---------------------------------------------------------------------
  // Building the nodes

  /** The per-season lists of the first pass after i players. */
  ghost predicate GroupsUpTo(d: Dataset, singles: map<int, seq<string>>, i: nat)
    requires i <= |d.names|
  {
    (forall s {:trigger singles[s]} | s in singles :: singles[s] == FilterTo(d.names, InGroupF(d, s), i)) &&
    (forall s {:trigger FilterTo(d.names, InGroupF(d, s), i)} | s !in singles :: FilterTo(d.names, InGroupF(d, s), i) == [])
  }

  /** The key order of the first pass after i players. */
  ghost predicate OrderUpTo(d: Dataset, order: seq<int>, i: nat)
    requires i <= |d.names|
  {
    order == Dedup(GroupSeasons(d, FilterTo(d.names, IsSingleF(d), i)))
  }

  lemma GroupsSkip(d: Dataset, singles: map<int, seq<string>>, i: nat)
    requires i < |d.names| && GroupsUpTo(d, singles, i) && !IsSingle(d, d.names[i])
    ensures GroupsUpTo(d, singles, i + 1)
  {
    forall s | s in singles ensures singles[s] == FilterTo(d.names, InGroupF(d, s), i + 1) {
      assert singles[s] == FilterTo(d.names, InGroupF(d, s), i);
    }
    forall s | s !in singles ensures FilterTo(d.names, InGroupF(d, s), i + 1) == [] {
      assert FilterTo(d.names, InGroupF(d, s), i) == [];
    }
  }

  lemma GroupsAdd(d: Dataset, singles: map<int, seq<string>>, i: nat)
    requires i < |d.names| && GroupsUpTo(d, singles, i) && IsSingle(d, d.names[i])
    ensures var s := GroupSeason(d, d.names[i]);
      GroupsUpTo(d, singles[s := (if s in singles then singles[s] else []) + [d.names[i]]], i + 1)
  {
    var g := GroupSeason(d, d.names[i]);
    var singles' := singles[g := (if g in singles then singles[g] else []) + [d.names[i]]];
    assert (if g in singles then singles[g] else []) == FilterTo(d.names, InGroupF(d, g), i);
    forall s | s in singles' ensures singles'[s] == FilterTo(d.names, InGroupF(d, s), i + 1) {
      if s != g {
        assert singles'[s] == singles[s] == FilterTo(d.names, InGroupF(d, s), i);
      }
    }
    forall s | s !in singles' ensures FilterTo(d.names, InGroupF(d, s), i + 1) == [] {
      assert FilterTo(d.names, InGroupF(d, s), i) == [];
    }
  }

  lemma OrderSkip(d: Dataset, order: seq<int>, i: nat)
    requires i < |d.names| && OrderUpTo(d, order, i) && !IsSingle(d, d.names[i])
    ensures OrderUpTo(d, order, i + 1)
  {
    assert FilterTo(d.names, IsSingleF(d), i + 1) == FilterTo(d.names, IsSingleF(d), i);
  }

  lemma OrderAdd(d: Dataset, order: seq<int>, i: nat)
    requires i < |d.names| && OrderUpTo(d, order, i) && IsSingle(d, d.names[i])
    ensures var s := GroupSeason(d, d.names[i]);
      OrderUpTo(d, if s in order then order else order + [s], i + 1)
  {
    var xs := FilterTo(d.names, IsSingleF(d), i);
    GroupSeasonsAppend(d, xs, d.names[i]);
    DedupAppend(GroupSeasons(d, xs), GroupSeason(d, d.names[i]));
  }

  /** What the first pass holds after i players. */
  ghost predicate ClassifiedUpTo(d: Dataset, multi: seq<string>, order: seq<int>, singles: map<int, seq<string>>, i: nat)
    requires i <= |d.names|
  {
    multi == FilterTo(d.names, IsMultiF(d), i) &&
    OrderUpTo(d, order, i) && GroupsUpTo(d, singles, i) &&
    forall s :: s in singles <==> s in order
  }

  /** A returning player joins the Set of returning players. */
  lemma ClassifyMulti(d: Dataset, i: nat, multi: seq<string>, order: seq<int>, singles: map<int, seq<string>>)
    requires i < |d.names| && d.names[i] in d.seasons && |d.seasons[d.names[i]]| > 1
    requires ClassifiedUpTo(d, multi, order, singles, i)
    ensures ClassifiedUpTo(d, multi + [d.names[i]], order, singles, i + 1)
  {
    OrderSkip(d, order, i);
    GroupsSkip(d, singles, i);
  }

  /** A one-season player joins the list of its season; a season seen for the
      first time gets a fresh list and a place in the key order. */
  lemma ClassifySingle(d: Dataset, i: nat, multi: seq<string>, order: seq<int>, singles: map<int, seq<string>>)
    requires i < |d.names| && d.names[i] in d.seasons && |d.seasons[d.names[i]]| == 1
    requires ClassifiedUpTo(d, multi, order, singles, i)
    ensures var s := GroupSeason(d, d.names[i]);
      ClassifiedUpTo(d, multi, if s in singles then order else order + [s],
        singles[s := (if s in singles then singles[s] else []) + [d.names[i]]], i + 1)
  {
    var s := GroupSeason(d, d.names[i]);
    var order' := if s in singles then order else order + [s];
    var singles' := singles[s := (if s in singles then singles[s] else []) + [d.names[i]]];
    assert s in singles <==> s in order;
    OrderAdd(d, order, i);
    assert OrderUpTo(d, order', i + 1);
    GroupsAdd(d, singles, i);
    assert GroupsUpTo(d, singles', i + 1);
    MultiSkip(d, i);
    KeysAdd(singles, order, s, (if s in singles then singles[s] else []) + [d.names[i]], order');
  }

  lemma MultiSkip(d: Dataset, i: nat)
    requires i < |d.names| && IsSingle(d, d.names[i])
    ensures FilterTo(d.names, IsMultiF(d), i + 1) == FilterTo(d.names, IsMultiF(d), i)
  {
  }

  /** A key added to the map is added to the key order when it is new. */
  lemma KeysAdd(singles: map<int, seq<string>>, order: seq<int>, s: int, xs: seq<string>, order': seq<int>)
    requires forall t :: t in singles <==> t in order
    requires order' == if s in singles then order else order + [s]
    ensures forall t :: t in singles[s := xs] <==> t in order'
  {
  }

  /** One step of the first pass: the player d.names[i] goes into the Set of
      returning players, or into the list of its only season (a season seen
      for the first time gets a fresh list and a place in the key order). */
  method ClassifyOne(d: Dataset, i: nat, multi: seq<string>, order: seq<int>, singles: map<int, seq<string>>)
    returns (multi': seq<string>, order': seq<int>, singles': map<int, seq<string>>)
    requires i < |d.names| && d.names[i] in d.seasons && |d.seasons[d.names[i]]| > 0
    requires ClassifiedUpTo(d, multi, order, singles, i)
    ensures ClassifiedUpTo(d, multi', order', singles', i + 1)
  {
    var name := d.names[i];
    var seasons := d.seasons[name];
    if |seasons| > 1 {
      ClassifyMulti(d, i, multi, order, singles);
      multi', order', singles' := multi + [name], order, singles;
    } else {
      ClassifySingle(d, i, multi, order, singles);
      var season := seasons[0];
      assert season == GroupSeason(d, name);
      var players := if season in singles then singles[season] else [];
      order' := if season in singles then order else order + [season];
      multi', singles' := multi, singles[season := players + [name]];
    }
  }

  /** The first pass over the players: the players of several seasons (a Set
      in insertion order; names are distinct, so adding is appending), and
      for every season its one-season players (a Map in insertion order, here
      its key order and its entries). */
  method ClassifyPlayers(d: Dataset) returns (multi: seq<string>, order: seq<int>, singles: map<int, seq<string>>)
    requires Valid(d) && AllNonEmpty(d)
    ensures multi == Multi(d)
    ensures order == SingleOrder(d)
    ensures forall s :: s in singles <==> s in order
    ensures forall s | s in singles :: singles[s] == Group(d, s)
  {
    ListedFacts(d);
    multi, order, singles := ClassifyLoop(d);
    ClassifiedAll(d, multi, order, singles);
  }

  /** Every listed player has a non-empty season list. */
  ghost predicate Listed(d: Dataset) {
    forall i | 0 <= i < |d.names| :: d.names[i] in d.seasons && |d.seasons[d.names[i]]| > 0
  }

  lemma ListedFacts(d: Dataset)
    requires Valid(d) && AllNonEmpty(d)
    ensures Listed(d)
  {
    forall i | 0 <= i < |d.names| ensures d.names[i] in d.seasons {
      assert d.names[i] in d.names;
    }
  }

  method ClassifyLoop(d: Dataset) returns (multi: seq<string>, order: seq<int>, singles: map<int, seq<string>>)
    requires Listed(d)
    ensures ClassifiedUpTo(d, multi, order, singles, |d.names|)
  {
    multi, order, singles := [], [], map[];
    for i := 0 to |d.names|
      invariant ClassifiedUpTo(d, multi, order, singles, i)
    {
      multi, order, singles := ClassifyOne(d, i, multi, order, singles);
    }
  }

  lemma ClassifiedAll(d: Dataset, multi: seq<string>, order: seq<int>, singles: map<int, seq<string>>)
    requires ClassifiedUpTo(d, multi, order, singles, |d.names|)
    ensures multi == Multi(d)
    ensures order == SingleOrder(d)
    ensures forall s | s in singles :: singles[s] == Group(d, s)
  {
  }

  /** The loop adding a player node for each of the given players (the
      returning players' Set, in insertion order). */
  method PlayerNodeLoop(d: Dataset, xs: seq<string>) returns (nodes: seq<Node>)
    requires forall x | x in xs :: x in d.seasons
    ensures nodes == PlayerNodesOf(d, xs)
  {
    nodes := [];
    for k := 0 to |xs|
      invariant nodes == PlayerNodesOf(d, xs[..k])
    {
      assert xs[..k + 1] == xs[..k] + [xs[k]];
      PlayerNodesAppend(d, xs[..k], xs[k]);
      nodes := nodes + [PlayerNode(xs[k], d.seasons[xs[k]])];
    }
    assert xs[..|xs|] == xs;
  }

  /** The loop adding one season node per key of the first pass's map, in
      key order, carrying that season's one-season players. */
  method GroupNodeLoop(d: Dataset, order: seq<int>, singles: map<int, seq<string>>) returns (nodes: seq<Node>)
    requires forall s | s in order :: s in singles && singles[s] == Group(d, s)
    ensures nodes == GroupNodes(d, order)
  {
    nodes := [];
    for k := 0 to |order|
      invariant |nodes| == k
      invariant forall q | 0 <= q < k :: nodes[q] == SeasonNode(order[q], Group(d, order[q]))
    {
      assert order[k] in order;
      nodes := nodes + [SeasonNode(order[k], singles[order[k]])];
    }
  }

  /** The loop adding a player node for each one-season player, in dataset
      order. */
  method SingleNodeLoop(d: Dataset) returns (nodes: seq<Node>)
    requires forall i | 0 <= i < |d.names| :: d.names[i] in d.seasons
    ensures nodes == PlayerNodesOf(d, Singles(d))
  {
    nodes := [];
    for i := 0 to |d.names|
      invariant nodes == PlayerNodesOf(d, FilterTo(d.names, IsSingleF(d), i))
    {
      var name := d.names[i];
      if |d.seasons[name]| == 1 {
        PlayerNodesAppend(d, FilterTo(d.names, IsSingleF(d), i), name);
        nodes := nodes + [PlayerNode(name, d.seasons[name])];
      }
    }
  }

  /** The node list of the player view. */
  method BuildPlayerNodes(d: Dataset, condensed: bool) returns (nodes: seq<Node>)
    requires Valid(d) && AllNonEmpty(d)
    ensures nodes == PlayerViewNodes(d, condensed)
  {
    var multi, order, singles := ClassifyPlayers(d);
    FilterToFacts(d.names, IsMultiF(d), |d.names|);
    var front := PlayerNodeLoop(d, multi);
    var back;
    if condensed {
      back := GroupNodeLoop(d, order, singles);
    } else {
      back := SingleNodeLoop(d);
    }
    nodes := front + back;
  }

  // ---------------------------------------------------------------------
  // Links

  /** The link the double loop creates between nodes a and b (a before b):
      none between two season nodes; between a season node and a player the
      season, when the player played it; between two players the seasons of
      the first that the second also played. */
  function PlayerPair(a: Node, b: Node): (r: Option<Link>)
    ensures r.Some? <==> !(a.SeasonNode? && b.SeasonNode?) && exists s :: s in a.Seasons() && s in b.Seasons()
    ensures r.Some? ==> r.value.source == a.Id() && r.value.target == b.Id()
    ensures r.Some? ==> r.value.value == |r.value.seasons| && r.value.value > 0
    ensures r.Some? ==> forall s :: s in r.value.seasons <==> s in a.Seasons() && s in b.Seasons()
    ensures r.Some? && a.SeasonNode? ==> r.value.seasons == [a.season]
    ensures r.Some? && b.SeasonNode? ==> r.value.seasons == [b.season]
    ensures r.Some? && a.PlayerNode? && b.PlayerNode? ==> r.value.seasons == Filter(a.seasons, InSeqF(b.seasons))
  {
    if a.SeasonNode? && b.SeasonNode? then None
    else if a.SeasonNode? then
      if a.season in b.Seasons() then Some(Link(a.Id(), b.Id(), 1, [a.season])) else None
    else if b.SeasonNode? then
      if b.season in a.seasons then
        assert b.season in b.Seasons();
        Some(Link(a.Id(), b.Id(), 1, [b.season]))
      else
        None
    else
      var shared := Filter(a.seasons, InSeqF(b.seasons));
      if |shared| > 0 then
        var w := shared[0];
        assert w in shared;
        assert w in a.Seasons() && w in b.Seasons();
        Some(Link(a.Id(), b.Id(), |shared|, shared))
      else
        None
  }

  function PlayerPairF(): (Node, Node) -> Option<Link> {
    (a, b) => PlayerPair(a, b)
  }

  /** The player view: its nodes, and its links with (as ghost) the pair of
      node positions each link joins. */
  method BuildPlayerView(d: Dataset, condensed: bool) returns (nodes: seq<Node>, links: seq<Link>, ghost pairs: seq<(int, int)>)
    requires Valid(d) && AllNonEmpty(d)
    ensures nodes == PlayerViewNodes(d, condensed)
    ensures |pairs| == |links|
    ensures forall k | 0 <= k < |pairs| ::
      0 <= pairs[k].0 < pairs[k].1 < |nodes| && PlayerPair(nodes[pairs[k].0], nodes[pairs[k].1]) == Some(links[k])
    ensures forall i, j | 0 <= i < j < |nodes| && PlayerPair(nodes[i], nodes[j]).Some? :: (i, j) in pairs
    ensures forall k, k' | 0 <= k < k' < |pairs| :: LexLess(pairs[k], pairs[k'])
  {
    nodes := BuildPlayerNodes(d, condensed);
    links, pairs := LinkPairs(nodes, PlayerPairF());
  }

  // ---------------------------------------------------------------------
  // Display ids and what the nodes stand for

  /** The node a player is shown as: in the condensed view a one-season
      player is shown as the node of that season. */
  function DisplayNodeId(d: Dataset, condensed: bool, p: string): (r: string)
    ensures r != p ==> condensed && IsSingle(d, p)
    ensures condensed && IsSingle(d, p) ==> r == SeasonLabel(d.seasons[p][0])
  {
    if condensed && p in d.seasons && |d.seasons[p]| == 1 then SeasonLabel(d.seasons[p][0]) else p
  }

  /** Node n stands for player p: it is p's own node, or a season node
      listing p. */
  predicate Represents(n: Node, p: string) {
    match n
    case PlayerNode(name, _) => name == p
    case SeasonNode(_, players) => p in players
  }

  /** No player is named like a season node. */
  ghost predicate NoLabelNames(d: Dataset) {
    forall n | n in d.seasons :: !(|n| > 7 && n[..7] == "Season ")
  }

  lemma MultiSingleFacts(d: Dataset)
    requires Valid(d)
    ensures NoDup(Multi(d)) && NoDup(Singles(d)) && NoDup(SingleOrder(d))
  {
    FilterNoDup(d.names, IsMultiF(d));
    FilterNoDup(d.names, IsSingleF(d));
  }

  /** The seasons of the condensed view's season nodes are exactly the
      seasons that have a one-season player. */
  lemma SingleOrderSeasons(d: Dataset, s: int)
    requires Valid(d)
    ensures s in SingleOrder(d) <==> Group(d, s) != []
  {
    var xs := Singles(d);
    if s in SingleOrder(d) {
      var j :| 0 <= j < |xs| && GroupSeasons(d, xs)[j] == s;
      assert xs[j] in xs;
      assert xs[j] in Group(d, s);
    }
    if Group(d, s) != [] {
      var p := Group(d, s)[0];
      assert p in Group(d, s);
      assert p in xs;
      var j :| 0 <= j < |xs| && xs[j] == p;
      assert GroupSeasons(d, xs)[j] == s;
    }
  }

  /** The part of a node list that a node of position k lies in. */
  lemma NodeAt(d: Dataset, condensed: bool, k: int)
    requires 0 <= k < |PlayerViewNodes(d, condensed)|
    ensures var nodes := PlayerViewNodes(d, condensed);
      var front := |Multi(d)|;
      if k < front then nodes[k] == PlayerNode(Multi(d)[k], SeasonsOfPlayer(d, Multi(d)[k]))
      else if condensed then nodes[k] == SeasonNode(SingleOrder(d)[k - front], Group(d, SingleOrder(d)[k - front]))
      else nodes[k] == PlayerNode(Singles(d)[k - front], SeasonsOfPlayer(d, Singles(d)[k - front]))
  {
  }

  /** Every player node carries its player's seasons; every season node of
      the condensed view carries the one-season players of its season, at
      least one, each of whom played only that season. */
  lemma {:induction false} NodeFacts(d: Dataset, condensed: bool, k: int)
    requires Valid(d) && 0 <= k < |PlayerViewNodes(d, condensed)|
    ensures var n := PlayerViewNodes(d, condensed)[k];
      match n
      case PlayerNode(name, seasons) => name in d.seasons && seasons == d.seasons[name]
      case SeasonNode(s, players) =>
        condensed && players == Group(d, s) && players != [] &&
        forall p | p in players :: p in d.seasons && d.seasons[p] == [s]
  {
    NodeAt(d, condensed, k);
    var front := |Multi(d)|;
    if k < front {
      assert Multi(d)[k] in Multi(d);
    } else if condensed {
      var s := SingleOrder(d)[k - front];
      SingleOrderSeasons(d, s);
    } else {
      assert Singles(d)[k - front] in Singles(d);
    }
  }

  /** Every player is stood for by a node whose id is the player's display
      id. */
  lemma DisplayNodeExists(d: Dataset, condensed: bool, p: string)
    requires Valid(d) && AllNonEmpty(d) && p in d.seasons
    ensures var nodes := PlayerViewNodes(d, condensed);
      exists k :: 0 <= k < |nodes| && Represents(nodes[k], p) && nodes[k].Id() == DisplayNodeId(d, condensed, p)
  {
    assert p in d.names;
    var k;
    if IsMulti(d, p) {
      k := MultiNode(d, condensed, p);
    } else if condensed {
      k := GroupNode(d, p);
    } else {
      k := SingleNode(d, p);
    }
  }

  lemma MultiNode(d: Dataset, condensed: bool, p: string) returns (k: int)
    requires IsMulti(d, p) && p in d.names
    ensures 0 <= k < |PlayerViewNodes(d, condensed)|
    ensures Represents(PlayerViewNodes(d, condensed)[k], p) && PlayerViewNodes(d, condensed)[k].Id() == DisplayNodeId(d, condensed, p)
  {
    assert p in Multi(d);
    k :| 0 <= k < |Multi(d)| && Multi(d)[k] == p;
    NodeAt(d, condensed, k);
  }

  lemma GroupNode(d: Dataset, p: string) returns (k: int)
    requires Valid(d) && IsSingle(d, p)
    ensures 0 <= k < |PlayerViewNodes(d, true)|
    ensures Represents(PlayerViewNodes(d, true)[k], p) && PlayerViewNodes(d, true)[k].Id() == DisplayNodeId(d, true, p)
  {
    var s := GroupSeason(d, p);
    assert p in d.names;
    assert p in Group(d, s);
    SingleOrderSeasons(d, s);
    var j :| 0 <= j < |SingleOrder(d)| && SingleOrder(d)[j] == s;
    k := |Multi(d)| + j;
    NodeAt(d, true, k);
  }

  lemma SingleNode(d: Dataset, p: string) returns (k: int)
    requires IsSingle(d, p) && p in d.names
    ensures 0 <= k < |PlayerViewNodes(d, false)|
    ensures Represents(PlayerViewNodes(d, false)[k], p) && PlayerViewNodes(d, false)[k].Id() == DisplayNodeId(d, false, p)
  {
    assert p in Singles(d);
    var j :| 0 <= j < |Singles(d)| && Singles(d)[j] == p;
    k := |Multi(d)| + j;
    NodeAt(d, false, k);
  }

  /** No player is stood for by two nodes. */
  lemma {:induction false} RepresentedOnce(d: Dataset, condensed: bool, p: string, k: int, k': int)
    requires Valid(d)
    requires 0 <= k < |PlayerViewNodes(d, condensed)| && 0 <= k' < |PlayerViewNodes(d, condensed)|
    requires Represents(PlayerViewNodes(d, condensed)[k], p) && Represents(PlayerViewNodes(d, condensed)[k'], p)
    ensures k == k'
  {
    MultiSingleFacts(d);
    RepresentedKind(d, condensed, p, k);
    RepresentedKind(d, condensed, p, k');
    var front := |Multi(d)|;
    NodeAt(d, condensed, k);
    NodeAt(d, condensed, k');
    if k < front && k' < front {
    } else if k >= front && k' >= front && condensed {
      SeasonLabelsOrder(d, p, k - front);
      SeasonLabelsOrder(d, p, k' - front);
    }
  }

  /** A node standing for p is in the part of the list for p's kind. */
  lemma RepresentedKind(d: Dataset, condensed: bool, p: string, k: int)
    requires 0 <= k < |PlayerViewNodes(d, condensed)|
    requires Represents(PlayerViewNodes(d, condensed)[k], p)
    ensures k < |Multi(d)| <==> IsMulti(d, p)
  {
    NodeAt(d, condensed, k);
    var front := |Multi(d)|;
    if k < front {
      assert Multi(d)[k] in Multi(d);
    } else if condensed {
      assert p in Group(d, SingleOrder(d)[k - front]);
    } else {
      assert Singles(d)[k - front] in Singles(d);
    }
  }

  lemma SeasonLabelsOrder(d: Dataset, p: string, j: int)
    requires 0 <= j < |SingleOrder(d)| && p in Group(d, SingleOrder(d)[j])
    ensures SingleOrder(d)[j] == GroupSeason(d, p)
  {
  }

  /** Node ids are unique, given that no player is named like a season
      node. */
  lemma {:induction false} IdsDistinct(d: Dataset, condensed: bool, k: int, k': int)
    requires Valid(d) && NoLabelNames(d)
    requires 0 <= k < k' < |PlayerViewNodes(d, condensed)|
    ensures PlayerViewNodes(d, condensed)[k].Id() != PlayerViewNodes(d, condensed)[k'].Id()
  {
    MultiSingleFacts(d);
    var nodes := PlayerViewNodes(d, condensed);
    var front := |Multi(d)|;
    NodeFacts(d, condensed, k);
    NodeFacts(d, condensed, k');
    NodeAt(d, condensed, k);
    NodeAt(d, condensed, k');
    if k < front && k' >= front {
      assert Multi(d)[k] in Multi(d);
      if !condensed {
        assert Singles(d)[k' - front] in Singles(d);
      }
    } else if k >= front && condensed {
      if nodes[k].Id() == nodes[k'].Id() {
        SeasonLabelInjective(nodes[k].season, nodes[k'].season);
      }
    }
  }
}
