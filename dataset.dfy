/** The contestant dataset both programs read: player names in the order the
    data file lists them, and each player's list of season numbers. */
module Survivor {
  import opened Seqs

  datatype Dataset = Dataset(names: seq<string>, seasons: map<string, seq<int>>)

  /** Names are unique keys and the order lists exactly the keys. */
  ghost predicate Valid(d: Dataset) {
    NoDup(d.names) && forall n :: n in d.seasons <==> n in d.names
  }

  /** Every player appeared in at least one season. */
  ghost predicate AllNonEmpty(d: Dataset) {
    forall n | n in d.seasons :: |d.seasons[n]| > 0
  }

  /** The season list of a player; none for a name that is not a player. */
  function SeasonsOfPlayer(d: Dataset, n: string): (r: seq<int>)
    ensures n in d.seasons ==> r == d.seasons[n]
  {
    if n in d.seasons then d.seasons[n] else []
  }

  /** The player appeared in season s. */
  predicate InSeason(d: Dataset, s: int, n: string) {
    n in d.seasons && s in d.seasons[n]
  }

  function InSeasonF(d: Dataset, s: int): string -> bool {
    n => InSeason(d, s, n)
  }

  /** Every season number that occurs in some player's list. */
  ghost function AllSeasons(d: Dataset): set<int> {
    set n, s | n in d.seasons && s in d.seasons[n] :: s
  }

  /** The players who appeared in season s. */
  ghost function PlayersIn(d: Dataset, s: int): set<string> {
    set n | n in d.seasons && s in d.seasons[n]
  }
}
