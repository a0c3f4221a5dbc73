/** Two small pure rules of the web page: the name search box and the radius
    a node is drawn with. */
module Presentation {
  import opened Seqs
  import opened Strings
  import opened Survivor

  /** The name matches the search term, ignoring ASCII case. */
  predicate Matches(term: string, name: string) {
    Contains(ToLower(name), ToLower(term))
  }

  function MatchesF(term: string): string -> bool {
    n => Matches(term, n)
  }

  /** The term is empty after trimming whitespace. */
  predicate Blank(term: string) {
    forall i | 0 <= i < |term| :: IsJsSpace(term[i])
  }

  /** The search results for a term: nothing for a blank term, otherwise the
      first five names, in dataset order, that contain the term (the term
      itself is not trimmed, only tested for blankness). */
  function SearchNames(d: Dataset, term: string): (r: seq<string>)
    ensures Blank(term) ==> r == []
    ensures |r| <= 5
    ensures forall n | n in r :: n in d.names && Matches(term, n)
    ensures !Blank(term) ==> |r| == Min(5, |Filter(d.names, MatchesF(term))|)
    ensures !Blank(term) ==> r == Filter(d.names, MatchesF(term))[..|r|]
    ensures !Blank(term) && |r| < 5 ==> forall n | n in d.names && Matches(term, n) :: n in r
  {
    if Blank(term) then []
    else
      var all := Filter(d.names, MatchesF(term));
      if |all| <= 5 then all else all[..5]
  }

  /** The search never lists a name twice. */
  lemma SearchNamesDistinct(d: Dataset, term: string)
    requires Valid(d)
    ensures NoDup(SearchNames(d, term))
  {
    FilterNoDup(d.names, MatchesF(term));
  }

  /** The drawing radius of a node.  A season node is drawn at half size in
      the season view and at full size in the player view; a player node
      grows by 2 per season beyond the first, capped at the season node size.
      seasonCount is the length of the player's season list. */
  function NodeSize(isSeasonNode: bool, seasonCount: nat, seasonView: bool): (r: int)
    ensures isSeasonNode ==> r == if seasonView then 6 else 12
    ensures !isSeasonNode ==> 4 <= r <= 12
    ensures !isSeasonNode ==> (r == 12 <==> seasonCount >= 4)
    ensures !isSeasonNode && seasonCount <= 4 ==> r == 2 * seasonCount + 4
  {
    if isSeasonNode then
      if seasonView then 12 / 2 else 12
    else
      Min(6 + (seasonCount - 1) * 2, 12)
  }

  function Min(a: int, b: int): (m: int)
    ensures m <= a && m <= b && (m == a || m == b)
  {
    if a < b then a else b
  }

  /** A player who played more seasons is drawn no smaller. */
  lemma NodeSizeMonotone(c: nat, c': nat, seasonView: bool)
    requires c <= c'
    ensures NodeSize(false, c, seasonView) <= NodeSize(false, c', seasonView)
  {
  }
}
