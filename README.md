# Survivor co-contestant graph: a verified model

The Survivor contestant graph is built from a table of players and the
seasons each one played. Three programs work with that table:

- a scraper cleans contestant names, upserts one record per player, merges
  duplicate spellings and writes the table;
- a web view builds a season graph or a player graph from the table. It
  resolves a player to the node that shows them, finds players by name, and
  lists every shortest path between two players;
- an offline script builds the co-contestant graph and finds the longest
  shortest path between any two players.

This project models the sequential core of all three in Dafny and proves what
each part promises.

Modules, following the programs:

- `Strings`, `Options`, `Seqs`: character classes, decimal rendering of
  season numbers, filtering, de-duplication and sorting of sets.
- `Graphs`: reachability theory for adjacency maps. It covers walks, hop
  distance through the layers `Within(g, s, k)`, shortest walks and their
  lengths, and symmetry.
- `Search`: the invariant of a breadth-first search that labels nodes with
  their distance when it queues them. Both searches below are proved with it.
- `Survivor`: the dataset. It is the list of player names in file order plus
  a map from each name to its season list.
- `GraphViews`: the season view (`processData`, season branch) and the pair
  loop shared by both views.
- `PlayerView`: the player view, condensed or not, and `getDisplayNodeId`.
- `Presentation`: the name search and the node-size rule.
- `PathQuery`: `findAllShortestPaths`. It is made of the adjacency build, a
  breadth-first search that stops when the end node is dequeued, and a
  depth-first enumeration of the paths whose labels rise by one.
- `LongestPath`: `build_graph`, `find_shortest_path` (breadth-first search
  that carries paths) and `find_longest_shortest_path` (the pair scan).
- `CleanNames`: `clean_name`.
- `Scraper`: the logo table, the season filter, image URLs, span names, the
  player upsert, and the merge and sort of `save_data`. The scraper object is
  the class `SurvivorScraper`.

Strings are ASCII `seq<char>`. The dataset order is the order in which the
JSON object lists its players, which Python's `dict` iteration keeps. The web
view reads the same order through `Object.entries`, provided no player name
is an array index (see "## Left out"). A Python
set's iteration order is unspecified, so the model lets it be any order: the
graph search takes its neighbours in an arbitrary order, and every property
holds whatever order is chosen.

## Model

| member | source | states |
|---|---|---|
| GraphViews.SeasonLabel | survivor-graph/src/components/SurvivorGraph.jsx:128 | a season node id is the text "Season " followed by the season number |
| GraphViews.SeasonLabelInjective | survivor-graph/src/components/SurvivorGraph.jsx:128 | different seasons get different node ids |
| GraphViews.LinkPairs | survivor-graph/src/components/SurvivorGraph.jsx:138-157 | the nested i<j loop emits a link for exactly the index pairs whose pair rule gives one: each pair at most once, in lexicographic order, each link matching its pair |
| GraphViews.LinkRow | survivor-graph/src/components/SurvivorGraph.jsx:139-156 | one row of the inner loop adds, in order, the links of node i with every later node, and only those |
| GraphViews.Members | survivor-graph/src/components/SurvivorGraph.jsx:116-123 | every name collected for a season played in it |
| GraphViews.MembersSet | survivor-graph/src/components/SurvivorGraph.jsx:116-123 | the members of a season are distinct and are exactly the players who played in it |
| GraphViews.AddToSeasons | survivor-graph/src/components/SurvivorGraph.jsx:117-122 | adding a player's seasons creates the missing season entries and appends the player to exactly those seasons |
| GraphViews.CollectSeasonMembers | survivor-graph/src/components/SurvivorGraph.jsx:116-123 | the season map has one key per season that occurs in some player's list, and each key maps to that season's players in dataset order |
| GraphViews.KeysAllSeasons | survivor-graph/src/components/SurvivorGraph.jsx:116-123 | a map that has a nonempty member list exactly for the occurring seasons has the occurring seasons as its keys |
| GraphViews.CollectedStep | survivor-graph/src/components/SurvivorGraph.jsx:116-123 | one more player keeps the collection invariant |
| GraphViews.CollectedAll | survivor-graph/src/components/SurvivorGraph.jsx:116-123 | once every player has been processed, the keys are the occurring seasons and each member list is complete |
| GraphViews.SeasonNodes | survivor-graph/src/components/SurvivorGraph.jsx:126-135 | one node per season key, in strictly ascending season order, and each node's player count is the number of players of that season |
| GraphViews.CountLoop | survivor-graph/src/components/SurvivorGraph.jsx:126-135 | one node per given season, in the given order, each counting that season's players |
| GraphViews.SeasonPair | survivor-graph/src/components/SurvivorGraph.jsx:140-155 | two seasons are linked iff they share a player: the link runs between their ids, lists exactly the shared players, and its value is their number, at least 1 |
| GraphViews.SeasonMapFacts | survivor-graph/src/components/SurvivorGraph.jsx:116-135 | the collected map describes the dataset, so its list sizes are the player counts |
| GraphViews.SeasonLinks | survivor-graph/src/components/SurvivorGraph.jsx:138-157 | links join only ordered index pairs i<j; each carries the shared players of its two seasons; every pair of seasons with a common player gets one; pairs come in loop order |
| GraphViews.SeasonLinkFacts | survivor-graph/src/components/SurvivorGraph.jsx:140-155 | a link produced by the pair rule describes the shared players of its two seasons in the dataset |
| GraphViews.BuildSeasonView | survivor-graph/src/components/SurvivorGraph.jsx:109-159 | the season view: nodes are the occurring seasons in ascending order with their player counts; links are exactly the season pairs that share a player, each once, with the shared players and their count |
| PlayerView.GroupSeason | survivor-graph/src/components/SurvivorGraph.jsx:171 | a single-season player's group is their only season |
| PlayerView.PlayerNodesAppend | survivor-graph/src/components/SurvivorGraph.jsx:183-191 | one more player adds exactly its node at the end |
| PlayerView.GroupSeasonsAppend | survivor-graph/src/components/SurvivorGraph.jsx:171-175 | one more player adds exactly its group season at the end |
| PlayerView.DedupAppend | survivor-graph/src/components/SurvivorGraph.jsx:172-174 | a season seen for the first time goes to the end of the group order; a season seen before leaves the order alone |
| PlayerView.GroupsSkip | survivor-graph/src/components/SurvivorGraph.jsx:168-169 | a multi-season player leaves the groups unchanged |
| PlayerView.GroupsAdd | survivor-graph/src/components/SurvivorGraph.jsx:171-175 | a single-season player is appended to the group of their season |
| PlayerView.OrderSkip | survivor-graph/src/components/SurvivorGraph.jsx:168-169 | a multi-season player leaves the group order unchanged |
| PlayerView.OrderAdd | survivor-graph/src/components/SurvivorGraph.jsx:172-174 | a single-season player adds their season to the group order if it is new |
| PlayerView.ClassifyMulti | survivor-graph/src/components/SurvivorGraph.jsx:168-169 | a multi-season player is appended to the multi list, and the groups and their order stay as they were |
| PlayerView.ClassifySingle | survivor-graph/src/components/SurvivorGraph.jsx:171-175 | a single-season player joins the list of their season; a season seen for the first time gets a fresh list and goes last in the key order |
| PlayerView.ClassifyOne | survivor-graph/src/components/SurvivorGraph.jsx:166-177 | one step of the first pass keeps the classification invariant |
| PlayerView.ClassifyLoop | survivor-graph/src/components/SurvivorGraph.jsx:166-177 | the first pass classifies every player |
| PlayerView.ClassifiedAll | survivor-graph/src/components/SurvivorGraph.jsx:166-177 | after the first pass, the multi list, the group order and the groups are exactly those of the dataset |
| PlayerView.ListedFacts | survivor-graph/src/components/SurvivorGraph.jsx:166-177 | every listed player has a nonempty season list |
| PlayerView.ClassifyPlayers | survivor-graph/src/components/SurvivorGraph.jsx:166-177 | multi-season players in dataset order; seasons of single-season players in first-seen order; each season keyed to exactly its single-season players |
| PlayerView.PlayerNodeLoop | survivor-graph/src/components/SurvivorGraph.jsx:183-191 | the loop emits exactly the individual nodes of the listed players |
| PlayerView.GroupNodeLoop | survivor-graph/src/components/SurvivorGraph.jsx:195-205 | the loop emits exactly the season nodes of the group order |
| PlayerView.SingleNodeLoop | survivor-graph/src/components/SurvivorGraph.jsx:207-216 | the uncondensed loop emits an individual node for every single-season player, in dataset order |
| PlayerView.BuildPlayerNodes | survivor-graph/src/components/SurvivorGraph.jsx:180-217 | the node list is the multi-season players first, then either the season groups (condensed) or the single-season players |
| PlayerView.PlayerPair | survivor-graph/src/components/SurvivorGraph.jsx:223-254 | two nodes are linked iff they are not both season nodes and share a season; a season node's link has seasons [s]; a player pair's link has A's seasons that B also has, in A's order; the value is the count, at least 1, and the link runs from A's id to B's id |
| PlayerView.BuildPlayerView | survivor-graph/src/components/SurvivorGraph.jsx:162-258 | the player view: its nodes as above; a link for exactly the index pairs i<j the pair rule links, each once, in loop order |
| PlayerView.DisplayNodeId | survivor-graph/src/components/SurvivorGraph.jsx:312-318 | in condensed mode a single-season player is shown as the node "Season s" of their season; otherwise a player keeps their own id |
| PlayerView.DisplayNodeExists | survivor-graph/src/components/SurvivorGraph.jsx:312-318 | every player's display id is the id of a node of the player view that represents that player |
| PlayerView.MultiNode | survivor-graph/src/components/SurvivorGraph.jsx:183-191 | a multi-season player has an individual node, under their own name, in both modes |
| PlayerView.GroupNode | survivor-graph/src/components/SurvivorGraph.jsx:194-205 | in condensed mode a single-season player is represented by the node of their season, whose id is their display id |
| PlayerView.SingleNode | survivor-graph/src/components/SurvivorGraph.jsx:206-216 | in uncondensed mode a single-season player gets their own node |
| PlayerView.MultiSingleFacts | survivor-graph/src/components/SurvivorGraph.jsx:162-177 | the multi list, the single list and the group order have no repeats |
| PlayerView.SingleOrderSeasons | survivor-graph/src/components/SurvivorGraph.jsx:172-175 | a season has a group node iff some player played only that season |
| PlayerView.NodeAt | survivor-graph/src/components/SurvivorGraph.jsx:180-217 | what node k of the view is: multi player, season group or single player, by position |
| PlayerView.NodeFacts | survivor-graph/src/components/SurvivorGraph.jsx:180-217 | a player node carries its player's seasons; a season node occurs only in condensed mode and holds a nonempty list of players who played only that season |
| PlayerView.RepresentedOnce | survivor-graph/src/components/SurvivorGraph.jsx:180-217 | each player is represented by at most one node of the view |
| PlayerView.RepresentedKind | survivor-graph/src/components/SurvivorGraph.jsx:183-191 | a player is represented among the leading nodes iff they played more than one season |
| PlayerView.SeasonLabelsOrder | survivor-graph/src/components/SurvivorGraph.jsx:195-205 | a player in a season group belongs to the group of their only season |
| PlayerView.IdsDistinct | survivor-graph/src/components/SurvivorGraph.jsx:186-202 | when no player is named like a season label, all node ids of the view are distinct |
| Presentation.SearchNames | survivor-graph/src/components/SurvivorGraph.jsx:266-277 | a blank term finds nothing; otherwise the result is the first five names, in dataset order, whose lower-cased form contains the lower-cased term, or all of them if there are fewer than five |
| Presentation.SearchNamesDistinct | survivor-graph/src/components/SurvivorGraph.jsx:273-275 | the search lists no name twice |
| Presentation.NodeSize | survivor-graph/src/components/SurvivorGraph.jsx:44-51 | a season node is 6 in the season view and 12 in the player view; a player node is 2 per season plus 4 (6 for one season), capped at 12, and the cap is reached from four seasons on |
| Presentation.NodeSizeMonotone | survivor-graph/src/components/SurvivorGraph.jsx:48-50 | a player with more seasons is drawn no smaller |
| Search.BfsStart | survivor-graph/src/components/SurvivorGraph.jsx:347-349 | the start labelled 0 and queued alone satisfies the search invariant |
| Search.Pop | survivor-graph/src/components/SurvivorGraph.jsx:352 | after the head is taken off, the rest of the queue lies between the head's label and one more |
| Search.Frontier | survivor-graph/src/components/SurvivorGraph.jsx:352-361 | when a node is dequeued, every node within its distance is already labelled |
| Search.NextLayer | survivor-graph/src/components/SurvivorGraph.jsx:357-358 | a neighbour that is not yet labelled is exactly one hop farther than the node being expanded |
| Search.VisitDone | survivor-graph/src/components/SurvivorGraph.jsx:356-361 | expanding a node restores the search invariant for the queue with its new neighbours appended |
| Search.Progress | survivor-graph/src/components/SurvivorGraph.jsx:351 | labelling a new node reduces the number of unlabelled nodes, so the loop ends |
| Search.Found | survivor-graph/src/components/SurvivorGraph.jsx:354 | stopping when the end is dequeued leaves true labels, the end labelled, and everything no farther than the end labelled |
| Search.Exhausted | survivor-graph/src/components/SurvivorGraph.jsx:351-364 | with an empty queue, every node the search did not reach is unreachable |
| Search.BfsDone | survivor-graph/src/components/SurvivorGraph.jsx:351-364 | the search result: labels are hop distances, the end is labelled iff it is reachable, and then all nodes within its distance are labelled |
| PathQuery.EdgeOf | survivor-graph/src/components/SurvivorGraph.jsx:356 | the graph of the adjacency lists has an edge exactly where the list names the neighbour |
| PathQuery.LinkedToFacts | survivor-graph/src/components/SurvivorGraph.jsx:341-344 | a node's list holds exactly the nodes joined to it by some link, in either direction |
| PathQuery.AdjacencyOf | survivor-graph/src/components/SurvivorGraph.jsx:337-340 | every node of the view, and nothing else, gets a list |
| PathQuery.LinkGraphEdge | survivor-graph/src/components/SurvivorGraph.jsx:337-344 | u has an edge to v iff u is a node and some link joins u and v |
| PathQuery.LinkGraphSymmetric | survivor-graph/src/components/SurvivorGraph.jsx:341-344 | the adjacency built from links between nodes is symmetric |
| PathQuery.BuildAdjacency | survivor-graph/src/components/SurvivorGraph.jsx:337-344 | the loops build the adjacency lists of the links, both directions |
| PathQuery.PairLinksEnds | survivor-graph/src/components/SurvivorGraph.jsx:138-157 | a link drawn by the pair loop over distinct ids joins two different listed nodes |
| PathQuery.PairLinksOnce | survivor-graph/src/components/SurvivorGraph.jsx:138-157 | no two links of the pair loop join the same two nodes, in either direction |
| PathQuery.LinkedToNoDup | survivor-graph/src/components/SurvivorGraph.jsx:341-344 | the adjacency list built from the pair loop's links repeats no neighbour |
| PathQuery.PairLinksReady | survivor-graph/src/components/SurvivorGraph.jsx:337-344 | the pair loop's links join listed, different nodes, and their adjacency lists repeat no neighbour |
| PathQuery.SeasonViewReady | survivor-graph/src/components/SurvivorGraph.jsx:109-159 | every season-view link joins two different season nodes of the view, and no adjacency list of the view repeats a neighbour |
| PathQuery.PlayerViewIdsDistinct | survivor-graph/src/components/SurvivorGraph.jsx:162-205 | the player view's node ids are distinct when no player is named like a season label |
| PathQuery.PlayerLinksReady | survivor-graph/src/components/SurvivorGraph.jsx:218-255 | links drawn by the pair loop over nodes with distinct ids join two different nodes of the view, and their adjacency lists repeat no neighbour |
| PathQuery.PlayerViewReady | survivor-graph/src/components/SurvivorGraph.jsx:162-258 | when no player is named like a season label, every player-view link joins two different nodes of the view and no adjacency list repeats a neighbour |
| PathQuery.LabelNeighbours | survivor-graph/src/components/SurvivorGraph.jsx:356-361 | each unlabelled neighbour is labelled one more than the current node and queued; labels already present are kept; every neighbour ends labelled |
| PathQuery.Visit | survivor-graph/src/components/SurvivorGraph.jsx:356-361 | expanding a node keeps the search invariant and only adds labels |
| PathQuery.BfsTurn | survivor-graph/src/components/SurvivorGraph.jsx:351-362 | one turn either dequeues the end and stops with the search result, or keeps the invariant and makes progress |
| PathQuery.Bfs | survivor-graph/src/components/SurvivorGraph.jsx:346-362 | the distances are true hop distances from the start; the end is labelled iff it is reachable; then every node no farther than the end is labelled |
| PathQuery.DescentLength | survivor-graph/src/components/SurvivorGraph.jsx:373-389 | a descent of rising labels from label k to the end has shortest - k more nodes |
| PathQuery.DfsSound | survivor-graph/src/components/SurvivorGraph.jsx:373-389 | every path the enumeration records is the current path extended by a descent to the end |
| PathQuery.DfsViaSound | survivor-graph/src/components/SurvivorGraph.jsx:382-388 | every path found through the neighbour list goes through one neighbour labelled one more |
| PathQuery.DfsComplete | survivor-graph/src/components/SurvivorGraph.jsx:373-389 | every descent to the end is recorded |
| PathQuery.DfsViaComplete | survivor-graph/src/components/SurvivorGraph.jsx:382-388 | a descent through any neighbour of the list is recorded |
| PathQuery.GradedDescent | survivor-graph/src/components/SurvivorGraph.jsx:383 | a walk whose labels are 0, 1, 2, … is a descent from each of its nodes |
| PathQuery.DescentWalk | survivor-graph/src/components/SurvivorGraph.jsx:383-385 | a descent is a walk of the graph to the end |
| PathQuery.DfsShortest | survivor-graph/src/components/SurvivorGraph.jsx:369-391 | every recorded path is a shortest walk from start to end |
| PathQuery.ShortestDfs | survivor-graph/src/components/SurvivorGraph.jsx:369-391 | every shortest walk from start to end is recorded |
| PathQuery.DfsNoDup | survivor-graph/src/components/SurvivorGraph.jsx:373-389 | when no adjacency list repeats a node, no path is recorded twice |
| PathQuery.DfsViaNoDup | survivor-graph/src/components/SurvivorGraph.jsx:382-388 | paths through different neighbours of a repeat-free list are different |
| PathQuery.DfsAnswer | survivor-graph/src/components/SurvivorGraph.jsx:369-392 | the recorded paths are exactly the shortest walks, at least one, none repeating a node, and no path twice when the lists have no repeats |
| PathQuery.FindAllShortestPaths | survivor-graph/src/components/SurvivorGraph.jsx:321-393 | a missing endpoint or the same endpoint twice gives no answer; distinct players on the same display node give the single one-node path; otherwise no answer iff the display nodes are not connected, and else exactly the shortest paths between them |
| LongestPath.SeasonGraphEdge | survivor-graph/scripts/find_longest_path.py:15-28 | p2 is a neighbour of p1 iff they are different players who shared a season; the relation is symmetric |
| LongestPath.SeasonGraphNode | survivor-graph/scripts/find_longest_path.py:22-26 | a player is a key of the graph iff they shared a season with somebody else |
| LongestPath.SeasonGraphSymmetric | survivor-graph/scripts/find_longest_path.py:22-26 | the co-player graph is symmetric |
| LongestPath.AddToSeasons | survivor-graph/scripts/find_longest_path.py:18-19 | a player is added to exactly the sets of their seasons |
| LongestPath.GroupBySeason | survivor-graph/scripts/find_longest_path.py:15-19 | a player is in a season's set iff they played that season; no set is empty |
| LongestPath.AddClique | survivor-graph/scripts/find_longest_path.py:23-26 | one season joins every two different players of the season and keeps earlier edges |
| LongestPath.AddNeighbours | survivor-graph/scripts/find_longest_path.py:24-26 | one player gains the other players of the season as neighbours |
| LongestPath.Connect | survivor-graph/scripts/find_longest_path.py:21-26 | u has an edge to v iff they differ and some season holds both; no key has an empty set |
| LongestPath.SameGraph | survivor-graph/scripts/find_longest_path.py:11-28 | a graph with those edges and no empty neighbour set is the co-player graph |
| LongestPath.BuildGraph | survivor-graph/scripts/find_longest_path.py:11-28 | the graph built is the co-player graph of the dataset |
| LongestPath.ExtendWalk | survivor-graph/scripts/find_longest_path.py:45 | a path extended by a neighbour is a walk to that neighbour |
| LongestPath.FirstsAppend | survivor-graph/scripts/find_longest_path.py:45 | appending queue entries appends their nodes |
| LongestPath.VisitOne | survivor-graph/scripts/find_longest_path.py:42-45 | one neighbour is marked visited and queued with its path if new; the neighbour loop makes progress |
| LongestPath.VisitNew | survivor-graph/scripts/find_longest_path.py:43-45 | an unvisited neighbour is one hop farther than the current player; marking it and queueing it with the extended path keeps the loop invariant |
| LongestPath.VisitSeen | survivor-graph/scripts/find_longest_path.py:43 | a neighbour already visited changes nothing |
| LongestPath.VisitNeighbours | survivor-graph/scripts/find_longest_path.py:42-45 | after the neighbour loop, every neighbour is visited; new ones are one farther, queued with a walk one longer; visited is the labelled set |
| LongestPath.CarriedAfter | survivor-graph/scripts/find_longest_path.py:45 | every queued path is a shortest-length walk to its node |
| LongestPath.SearchTurn | survivor-graph/scripts/find_longest_path.py:37-45 | one turn returns a shortest path when it dequeues the end, or keeps the invariant and makes progress |
| LongestPath.FoundPath | survivor-graph/scripts/find_longest_path.py:39-40 | the path carried to the end is a shortest walk with no repeated node; from start to itself it is [start] |
| LongestPath.FindShortestPath | survivor-graph/scripts/find_longest_path.py:30-47 | none when an endpoint is not a key; otherwise a path iff the end is reachable, and then a shortest walk with no repeats; [s] from s to itself |
| LongestPath.ScanSnoc | survivor-graph/scripts/find_longest_path.py:62-73 | scanning one more pair absorbs that pair into the tally |
| LongestPath.ScanFacts | survivor-graph/scripts/find_longest_path.py:62-73 | after a scan: processed counts every pair, the valid count counts the connected pairs, max length bounds every connected pair's path, and the ties are exactly the pairs attaining it, in scan order |
| LongestPath.PairsBeforeCount | survivor-graph/scripts/find_longest_path.py:56-63 | the first i rows hold i(2n-i-1)/2 pairs |
| LongestPath.PairsBeforeComplete | survivor-graph/scripts/find_longest_path.py:62-63 | every pair a<b with a in the first i rows is enumerated |
| LongestPath.PairsBeforeSound | survivor-graph/scripts/find_longest_path.py:62-63 | every enumerated pair is some (names[a], names[b]) with a<b |
| LongestPath.AllPairsFacts | survivor-graph/scripts/find_longest_path.py:55-63 | the scan visits exactly the n(n-1)/2 unordered pairs a<b |
| LongestPath.PairOrder | survivor-graph/scripts/find_longest_path.py:63-64 | the order a pair is asked in does not change whether it is connected or how far apart it is |
| LongestPath.ScanPair | survivor-graph/scripts/find_longest_path.py:64-73 | one pair updates the running maximum, the ties, the valid count and the processed count as the scan does |
| LongestPath.ScanRow | survivor-graph/scripts/find_longest_path.py:63-73 | the inner loop scans one more row |
| LongestPath.RowStep | survivor-graph/scripts/find_longest_path.py:63-73 | one more pair of the row extends the scan by that pair |
| LongestPath.FindLongestShortestPath | survivor-graph/scripts/find_longest_path.py:49-77 | the recorded pairs and valid count are those of the scan over all pairs, and every recorded path is a shortest path of maximum length between its pair |
| LongestPath.LongestAnswer | survivor-graph/scripts/find_longest_path.py:49-77 | n(n-1)/2 pairs are processed; max length is at least every connected pair's shortest path; the ties are exactly the pairs attaining it; it is 0 iff no pair is connected |
| CleanNames.LeadingSpace | survivor_scraper.py:72 | the length of the whitespace run that begins the string: all whitespace, and followed by a non-whitespace character or the end |
| CleanNames.TrimEnd | survivor_scraper.py:72 | where the trailing whitespace of a range begins: everything after it is whitespace, and the character before it is not |
| CleanNames.Strip | survivor_scraper.py:72 | no whitespace at either end, never longer than the input |
| CleanNames.StripKeeps | survivor_scraper.py:72 | text with no whitespace at either end is unchanged |
| CleanNames.StripSlice | survivor_scraper.py:72 | only whitespace is cut: the result is a middle slice of the input with whitespace alone before and after it |
| CleanNames.WordLength | survivor_scraper.py:75 | the length of the leading run of non-whitespace |
| CleanNames.Split | survivor_scraper.py:75 | the tokens are nonempty and hold no whitespace |
| CleanNames.SplitAllSpace | survivor_scraper.py:75 | whitespace alone gives no tokens |
| CleanNames.SplitWord | survivor_scraper.py:75 | a nonempty run without whitespace is a single token |
| CleanNames.SplitAt | survivor_scraper.py:75 | a whitespace character separates the tokens before it from those after it, so no word is lost or merged |
| CleanNames.WordLengthPrefix | survivor_scraper.py:75 | a token ends where it would end anyway when whitespace follows |
| CleanNames.WordLengthOf | survivor_scraper.py:75 | a token followed by whitespace or nothing is read whole |
| CleanNames.SplitJoin | survivor_scraper.py:75-95 | splitting the single-space join of nonempty whitespace-free tokens gives back the tokens |
| CleanNames.RStripDots | survivor_scraper.py:76 | only trailing dots removed, and the result does not end with a dot |
| CleanNames.NumberWordShape | survivor_scraper.py:76 | digits followed by dots make a number token, which is dropped |
| CleanNames.NumberWordDigits | survivor_scraper.py:76 | a dropped token is digits followed by dots |
| CleanNames.Unquote | survivor_scraper.py:86-87 | a token that starts and ends with a quote loses exactly those two characters (a lone quote becomes empty); other tokens are unchanged |
| CleanNames.CapitalizeFacts | survivor_scraper.py:90-91 | same length and same letters up to case; the first character is not lower case and the others are not upper case |
| CleanNames.CleanWordFacts | survivor_scraper.py:86-92 | unquoting and recapitalising never lengthens a token, adds no whitespace, and keeps its letters up to case |
| CleanNames.MapWordsFacts | survivor_scraper.py:79-93 | with no empty tokens, the loop keeps one word per token, in order, each the token as the word cleaning leaves it |
| CleanNames.AliasFinal | survivor_scraper.py:97-106 | an alias is never itself a key of the table, so applying the table twice changes nothing |
| CleanNames.CleanName | survivor_scraper.py:70-106 | the loop computes the cleaned name, and the result is never one of the aliased spellings |
| CleanNames.CleanedTwoWords | survivor_scraper.py:70-106 | a name of two words, neither a list number, is the alias of the two cleaned words joined by a space |
| CleanNames.CleanCaps | survivor_scraper.py:90-91 | an unquoted all-caps token of more than two characters is capitalised |
| CleanNames.RobMariano | survivor_scraper.py:70-106 | "ROB MARIANO" is cleaned to "Boston Rob Mariano" |
| CleanNames.CleanWords | survivor_scraper.py:79-93 | the loop appends, in order, every token that is not empty as the word cleaning (passed in) leaves it, and skips the empty ones |
| CleanNames.CleanedWordsFacts | survivor_scraper.py:72-93 | one cleaned word per kept token, in order; no kept token is a number token; no word holds whitespace |
| CleanNames.KeptParts | survivor_scraper.py:75-76 | the tokens kept are non-empty, hold no whitespace and are not number tokens |
| CleanNames.CleanedNameWords | survivor_scraper.py:95-106 | when no word is empty and no alias applies, splitting the cleaned name gives back its words |
| Scraper.SeasonLogos | survivor_scraper.py:15-18 | keys are exactly seasons 1 to 48, each mapped to "/logos/season_N.png" |
| Scraper.LogoPathInjective | survivor_scraper.py:15-18 | different seasons have different logo paths |
| Scraper.SeasonAcceptedRange | survivor_scraper.py:158-159 | with a start season of at least 1, a card is kept iff its season number was found and lies in the range |
| Scraper.ImageUrl | survivor_scraper.py:170-173 | an image URL exists iff the image has a nonempty src, and then it is the site prefix followed by the src |
| Scraper.Sight | survivor_scraper.py:183-215 | a sighting adds its season and keeps earlier ones; a sighting that is not from spans with an image keeps the old image |
| Scraper.ReplayFacts | survivor_scraper.py:183-215 | after a series of sightings: a record exists iff there was one; its seasons are exactly the sighted ones; its image is the last one from a span sighting with an image, or else the first sighting's |
| Scraper.QuoteCountConcat | survivor_scraper.py:197 | quotes in a concatenation add up |
| Scraper.QuoteCountZero | survivor_scraper.py:197 | a text with no counted quote has no quote |
| Scraper.QuoteCountSome | survivor_scraper.py:197 | a text with a counted quote has one at some position |
| Scraper.FirstQuote | survivor_scraper.py:198 | the position of the first quote |
| Scraper.LastQuote | survivor_scraper.py:198 | the position of the last quote |
| Scraper.AfterFirstQuote | survivor_scraper.py:198 | after the first quote one quote fewer remains |
| Scraper.BeforeLastQuote | survivor_scraper.py:198 | before the last quote one quote fewer remains |
| Scraper.QuoteCountSplit | survivor_scraper.py:197 | quotes on both sides of a cut add up |
| Scraper.QuoteCountZeroOf | survivor_scraper.py:197 | a text without quotes counts none |
| Scraper.NicknameHasNoQuote | survivor_scraper.py:197-198 | with exactly two quotes, the first comes before the last and nothing between them is a quote |
| Scraper.SpanPart | survivor_scraper.py:197-201 | a span text with exactly two quotes contributes its nickname, which holds no quote; any other text is kept whole |
| Scraper.SpanPartNickname | survivor_scraper.py:197-198 | a span text with exactly two quotes is the nickname in quotes with quote-free text before and after it |
| Scraper.SpanName | survivor_scraper.py:191-203 | the loop joins, with single spaces, the part of every nonempty stripped span text in span order |
| Scraper.MergeKey | survivor_scraper.py:227-230 | every name containing "Rob Mariano" is merged under "Boston Rob Mariano"; every other name is its own key |
| Scraper.FirstIndex | survivor_scraper.py:232-236 | the index found holds the key |
| Scraper.FirstIndexFacts | survivor_scraper.py:232-236 | a first index exists iff some player has the key, and no earlier player has it |
| Scraper.MergedSeasonsSound | survivor_scraper.py:237 | each merged season comes from a player with that key |
| Scraper.MergedSeasonsComplete | survivor_scraper.py:237 | each season of a player is in the merged set of its key: no season is lost |
| Scraper.NothingMerged | survivor_scraper.py:232-237 | a key no player has merges no season |
| Scraper.MergeTurn | survivor_scraper.py:226-237 | one turn of the merge loop keeps the merge invariant |
| Scraper.MergeRecords | survivor_scraper.py:232-237 | after one more player, every merged record still holds the union of its key's seasons so far and the image of its key's first player |
| Scraper.SavedNames | survivor_scraper.py:225-247 | the output names are distinct, each is the key of some player, and every player's key is among them |
| Scraper.SavedSeasons | survivor_scraper.py:237-243 | an output season list is strictly ascending and holds y iff some player with that key played y |
| Scraper.SavedImage | survivor_scraper.py:232-236 | the image comes from the first player in table order with that key |
| Scraper.SurvivorScraper.constructor | survivor_scraper.py:9-18 | a new scraper has no players and the fixed logo table |
| Scraper.SurvivorScraper.Record | survivor_scraper.py:207-215 | an empty name changes nothing; otherwise the player's record is the sighting applied to the old one, nothing else changes, and a new name is appended to the table order |
| Scraper.SurvivorScraper.ParseEntry | survivor_scraper.py:164-215 | an entry updates exactly the record of its cleaned name with its season and image, and a new name goes last in the table order; an entry whose name cleans to nothing changes nothing |
| Scraper.SurvivorScraper.ParseCard | survivor_scraper.py:158-215 | a rejected card changes nothing; an accepted card leaves the table that filing its linked entries in order gives; no season is ever lost; an accepted card adds no season but its own |
| Scraper.File | survivor_scraper.py:207-215 | filing a sighting under a name gives that name's record the season, keeps every record and every season, and touches no other name; an empty name files nothing |
| Scraper.FileAllGrows | survivor_scraper.py:158-215 | filing a card's entries keeps every record and every season, and adds to a record only the card's season |
| Scraper.FileAllFiles | survivor_scraper.py:207-215 | every filing under a nonempty name ends up in that name's record |
| Scraper.CardFiles | survivor_scraper.py:164-215 | every linked entry of an accepted card whose name cleans to something ends up in the table with the card's season |
| Scraper.SurvivorScraper.SaveData | survivor_scraper.py:224-249 | one output player per distinct merge key, in first-seen order; its seasons are the sorted union over the players with that key; its image is the first such player's; the logos are copied |

## Left out

- Rendering: React state, effects and event handlers, image and logo
  preloading, canvas drawing, tooltips and the force-layout physics are not
  modelled. They are browser I/O or floating point.
- The highlight handler and the path-summary label text are presentation and
  are not modelled.
- The path-search dropdown is not modelled either.
- `findAllShortestPaths` stores its answer with `setShortestPaths`. The model
  returns that value instead: `None` stands for `null`.
- The force library replaces a link's endpoints with node objects, hence
  `link.source.id`. A link is modelled as the pair of its endpoint ids.
- `PlayerView.ClassifyPlayers` and the player view require every player to
  have at least one season. The web view reads `seasons[0]` of an empty list
  as `undefined`, which the model does not represent.
- `PathQuery.FindAllShortestPaths` requires every link to join two nodes of
  the view. `PathQuery.SeasonViewReady` proves this of the season view, and
  `PathQuery.PlayerViewReady` of the player view when no player is named
  like a season label.
- The empty string stands for a missing endpoint (`null` or `""`).
- `Object.entries` lists the keys that are array indices ("0", "17", ...)
  first, in ascending numeric order, and only then the other keys in
  insertion order. The model assumes no player name is such a key, so the web
  view sees the players in file order.
- `PlayerView.IdsDistinct` assumes that no player is named like a season
  label ("Season 12"). The source does not exclude such a name.
- `Presentation.SearchNames` lower-cases ASCII letters only. JavaScript's
  `toLowerCase` covers all of Unicode.
- Unicode generally: `str.strip`, `split`, `isdigit`, `isupper` and
  `capitalize` are modelled on ASCII. Whitespace is Python's ASCII
  whitespace, including the separators 0x1C-0x1F.
- `load_survivor_data`, `main` and the progress printing are file I/O and
  output. The `processed` counter is modelled; its printing is not.
- `LongestPath.FindShortestPath` visits neighbours in any order. Python's
  set order is unspecified, so the model does not say which of several
  shortest paths is returned.
- Reading a missing key of the defaultdict inserts that key. The model reads
  it as an empty set without inserting. That read only happens for a key
  with no neighbours, so the answer is the same.
- Extracting the season number from a card (image alt text, divider text,
  "Survivor N", the first number) is HTML parsing and is not modelled.
  `ParseCard` receives its outcome as an optional number, and 0 counts as
  not found.
- HTML parsing with BeautifulSoup is not modelled. An entry arrives as its
  link (or nothing), the image src, the texts of the first/last-name spans,
  and the link text.
- HTTP fetching, `time.sleep`, reading and writing files, the JSON dump and
  the `run`/`process_saved_files` drivers are not modelled.
- Key-order output: Python dicts keep insertion order, so the player table is
  a map plus the sequence of its keys in insertion order.
- download_logos.py, survivor-graph/vite.config.js and
  survivor-graph/src/App.jsx are not part of this model.
- CleanNames.CleanName: a token that is a lone quote becomes empty after
  unquoting and is still kept. Joining then yields a double space, as the
  source does. `CleanedNameWords` therefore assumes that no word is empty.
- Presentation.NodeSize: stated for the node sizes directly. The constants BASE_NODE_SIZE = 6 and SEASON_NODE_SIZE = 12 are inlined.
