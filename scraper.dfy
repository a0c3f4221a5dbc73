/** The scraper's bookkeeping: which season cards it reads, how it files a
    contestant entry under a cleaned name (seasons collected, image chosen),
    how the saved file's player table is formed by merging names and sorting
    seasons, and the table of season logos.  Pages, files and HTML parsing
    are outside the model: a season card is its season number and its
    contestant entries. */
module Scraper {
  import opened Options
  import opened Seqs
  import opened Strings
  import opened CleanNames

  // ---------------------------------------------------------------------
  // Season logos

  /** The path of a season's logo. */
  function LogoPath(season: int): string {
    "/logos/season_" + IntToString(season) + ".png"
  }

  /** The logo table: one entry for each of seasons 1 to 48. */
  function SeasonLogos(): (m: map<int, string>)
    ensures forall n :: n in m <==> 1 <= n <= 48
    ensures forall n | n in m :: m[n] == LogoPath(n)
  {
    map n | 1 <= n < 49 :: LogoPath(n)
  }

  /** No two seasons share a logo path. */
  lemma LogoPathInjective(a: int, b: int)
    requires LogoPath(a) == LogoPath(b)
    ensures a == b
  {
    var sa, sb := IntToString(a), IntToString(b);
    var pre := "/logos/season_";
    assert |sa| == |sb|;
    assert LogoPath(a)[|pre|..|pre| + |sa|] == sa;
    assert LogoPath(b)[|pre|..|pre| + |sb|] == sb;
    IntToStringInjective(a, b);
  }

  // ---------------------------------------------------------------------
  // Season cards

  /** A card is read when its season number was found, is not 0 and lies in
      the page's range; Python's `not season_num` holds for None and 0. */
  predicate SeasonAccepted(seasonNum: Option<int>, startSeason: int, endSeason: int) {
    seasonNum.Some? && seasonNum.value != 0 && startSeason <= seasonNum.value <= endSeason
  }

  /** For the page ranges the scraper uses, which start at 1, the test is
      exactly membership in the range. */
  lemma SeasonAcceptedRange(seasonNum: Option<int>, startSeason: int, endSeason: int)
    requires startSeason >= 1
    ensures SeasonAccepted(seasonNum, startSeason, endSeason) <==>
      seasonNum.Some? && startSeason <= seasonNum.value <= endSeason
  {
  }

  // ---------------------------------------------------------------------
  // Images

  const ImagePrefix := "https://www.truedorktimes.com/survivor/cast/"

  /** Python truthiness of an optional string. */
  predicate Truthy(u: Option<string>) {
    u.Some? && u.value != ""
  }

  /** The image URL of an entry: the site prefix and the img src, when the
      entry has an img with a non-empty src. */
  function ImageUrl(src: Option<string>): (u: Option<string>)
    ensures u.Some? <==> Truthy(src)
    ensures u.Some? ==> Truthy(u) && u.value == ImagePrefix + src.value
  {
    if Truthy(src) then Some(ImagePrefix + src.value) else None
  }

  // ---------------------------------------------------------------------
  // Sightings of one player

  datatype PlayerRecord = PlayerRecord(seasons: set<int>, imageUrl: Option<string>)

  /** One entry naming a player: its season, its image and whether its name
      came from name spans (only then does a present image replace the
      recorded one). */
  datatype Sighting = Sighting(season: int, imageUrl: Option<string>, fromSpans: bool)

  /** The sighting replaces the recorded image. */
  predicate Replaces(s: Sighting) {
    s.fromSpans && Truthy(s.imageUrl)
  }

  /** The record after one more sighting (None: the player is new). */
  function Sight(r: Option<PlayerRecord>, s: Sighting): (r': PlayerRecord)
    ensures s.season in r'.seasons
    ensures r.Some? ==> r.value.seasons <= r'.seasons
    ensures !Replaces(s) && r.Some? ==> r'.imageUrl == r.value.imageUrl
  {
    var base := if r.Some? then r.value else PlayerRecord({}, s.imageUrl);
    var added := base.(seasons := base.seasons + {s.season});
    if Replaces(s) then added.(imageUrl := s.imageUrl) else added
  }

  /** The record left by a sequence of sightings of one player. */
  function Replay(ss: seq<Sighting>): Option<PlayerRecord> {
    if ss == [] then None else Some(Sight(Replay(ss[..|ss| - 1]), ss[|ss| - 1]))
  }

  /** A player's record holds every season it was sighted in and no other;
      its image is the one of the last sighting that replaces images, or,
      when none does, the image of the first sighting. */
  lemma {:induction false} ReplayFacts(ss: seq<Sighting>)
    ensures Replay(ss).Some? <==> ss != []
    ensures ss != [] ==> forall y :: y in Replay(ss).value.seasons <==> exists i :: 0 <= i < |ss| && ss[i].season == y
    ensures ss != [] && (forall i | 0 <= i < |ss| :: !Replaces(ss[i])) ==> Replay(ss).value.imageUrl == ss[0].imageUrl
    ensures forall i | 0 <= i < |ss| && Replaces(ss[i]) && (forall j | i < j < |ss| :: !Replaces(ss[j])) ::
      Replay(ss).value.imageUrl == ss[i].imageUrl
  {
    if ss != [] {
      var init, last := ss[..|ss| - 1], ss[|ss| - 1];
      ReplayFacts(init);
      forall y ensures y in Replay(ss).value.seasons <==> exists i :: 0 <= i < |ss| && ss[i].season == y {
        if y in Replay(ss).value.seasons && y != last.season {
          var i :| 0 <= i < |init| && init[i].season == y;
          assert ss[i].season == y;
        }
        if exists i :: 0 <= i < |ss| && ss[i].season == y {
          var i :| 0 <= i < |ss| && ss[i].season == y;
          if i < |init| {
            assert init[i].season == y;
          }
        }
      }
      if init != [] {
        assert init[0] == ss[0];
      }
      forall i | 0 <= i < |ss| && Replaces(ss[i]) && (forall j | i < j < |ss| :: !Replaces(ss[j]))
        ensures Replay(ss).value.imageUrl == ss[i].imageUrl
      {
        if i < |init| {
          assert !Replaces(last);
          assert init[i] == ss[i];
          assert forall j | i < j < |init| :: init[j] == ss[j];
        }
      }
    }
  }

  // ---------------------------------------------------------------------
  // Names from name spans

  /** The number of single quotes in s. */
  function QuoteCount(s: string): nat {
    if s == [] then 0 else QuoteCount(s[..|s| - 1]) + if s[|s| - 1] == '\'' then 1 else 0
  }

  lemma {:induction false} QuoteCountConcat(a: string, b: string)
    ensures QuoteCount(a + b) == QuoteCount(a) + QuoteCount(b)
    decreases |b|
  {
    if b == [] {
      assert a + b == a;
    } else {
      assert (a + b)[..|a + b| - 1] == a + b[..|b| - 1];
      QuoteCountConcat(a, b[..|b| - 1]);
    }
  }

  lemma {:induction false} QuoteCountZero(s: string)
    requires QuoteCount(s) == 0
    ensures forall i | 0 <= i < |s| :: s[i] != '\''
  {
    if s != [] {
      QuoteCountZero(s[..|s| - 1]);
      assert forall i | 0 <= i < |s| - 1 :: s[i] == s[..|s| - 1][i];
    }
  }

  lemma {:induction false} QuoteCountSome(s: string) returns (i: nat)
    requires QuoteCount(s) > 0
    ensures i < |s| && s[i] == '\''
  {
    if s[|s| - 1] == '\'' {
      i := |s| - 1;
    } else {
      i := QuoteCountSome(s[..|s| - 1]);
    }
  }

  /** str.find("'"), for a string holding a quote. */
  function FirstQuote(s: string): (i: nat)
    requires QuoteCount(s) > 0
    ensures i < |s| && s[i] == '\''
    ensures forall j | 0 <= j < i :: s[j] != '\''
    decreases |s|
  {
    if s[0] == '\'' then 0
    else
      assert QuoteCount(s) == QuoteCount(s[1..]) by {
        assert s == s[..1] + s[1..];
        QuoteCountConcat(s[..1], s[1..]);
        assert s[..1][..0] == [];
      }
      var i := 1 + FirstQuote(s[1..]);
      assert forall j | 1 <= j < i :: s[j] == s[1..][j - 1];
      i
  }

  /** str.rfind("'"), for a string holding a quote. */
  function LastQuote(s: string): (i: nat)
    requires QuoteCount(s) > 0
    ensures i < |s| && s[i] == '\''
    ensures forall j | i < j < |s| :: s[j] != '\''
    decreases |s|
  {
    if s[|s| - 1] == '\'' then |s| - 1
    else
      var i := LastQuote(s[..|s| - 1]);
      assert forall j | i < j < |s| - 1 :: s[j] == s[..|s| - 1][j];
      i
  }

  /** A span's contribution to the name, from its stripped text t: t, or,
      when t holds exactly two quotes, the nickname between them. */
  function SpanPart(t: string): (r: string)
    ensures QuoteCount(t) == 2 ==> forall i | 0 <= i < |r| :: r[i] != '\''
    ensures QuoteCount(t) != 2 ==> r == t
  {
    if QuoteCount(t) == 2 then
      var f, l := FirstQuote(t), LastQuote(t);
      NicknameHasNoQuote(t, f, l);
      t[f + 1..l]
    else t
  }

  /** A text with exactly two quotes is the quote-free text before the
      first, a quote, the nickname, a quote and the quote-free rest. */
  lemma SpanPartNickname(t: string) returns (a: string, b: string)
    requires QuoteCount(t) == 2
    ensures t == a + ['\''] + SpanPart(t) + ['\''] + b
    ensures QuoteCount(a) == 0 && QuoteCount(b) == 0
  {
    var f, l := FirstQuote(t), LastQuote(t);
    NicknameHasNoQuote(t, f, l);
    a, b := t[..f], t[l + 1..];
    assert t == a + [t[f]] + t[f + 1..l] + [t[l]] + b;
    forall i | 0 <= i < |a| ensures a[i] != '\'' {
      assert a[i] == t[i];
    }
    forall i | 0 <= i < |b| ensures b[i] != '\'' {
      assert b[i] == t[l + 1 + i];
    }
    QuoteCountZeroOf(a);
    QuoteCountZeroOf(b);
  }

  lemma NicknameHasNoQuote(t: string, f: nat, l: nat)
    requires QuoteCount(t) == 2
    requires f < |t| && t[f] == '\'' && forall j | 0 <= j < f :: t[j] != '\''
    requires l < |t| && t[l] == '\'' && forall j | l < j < |t| :: t[j] != '\''
    ensures f < l
    ensures forall i | f < i < l :: t[i] != '\''
  {
    AfterFirstQuote(t, f);
    var w := t[f + 1..];
    if f == l {
      // then w lies after l and holds no quote
      forall i | 0 <= i < |w| ensures w[i] != '\'' {
        assert w[i] == t[f + 1 + i];
      }
      QuoteCountZeroOf(w);
    }
    var j := l - f - 1;
    forall i | j < i < |w| ensures w[i] != '\'' {
      assert w[i] == t[f + 1 + i];
    }
    BeforeLastQuote(w, j);
    QuoteCountZero(w[..j]);
    forall i | f < i < l ensures t[i] != '\'' {
      assert t[i] == w[..j][i - f - 1];
    }
  }

  /** The first quote of t is one of its quotes. */
  lemma AfterFirstQuote(t: string, f: nat)
    requires f < |t| && t[f] == '\'' && forall j | 0 <= j < f :: t[j] != '\''
    ensures QuoteCount(t[f + 1..]) == QuoteCount(t) - 1
  {
    QuoteCountSplit(t, f + 1);
    var a := t[..f + 1];
    assert a == a[..f] + [a[f]];
    assert a[..f] == t[..f];
    QuoteCountZeroOf(t[..f]);
  }

  /** The last quote of w is one of its quotes. */
  lemma BeforeLastQuote(w: string, j: nat)
    requires j < |w| && w[j] == '\'' && forall i | j < i < |w| :: w[i] != '\''
    ensures QuoteCount(w[..j]) == QuoteCount(w) - 1
  {
    QuoteCountSplit(w, j + 1);
    var a := w[..j + 1];
    assert a[..j] == w[..j];
    var b := w[j + 1..];
    forall i | 0 <= i < |b| ensures b[i] != '\'' {
      assert b[i] == w[j + 1 + i];
    }
    QuoteCountZeroOf(b);
  }

  /** The quotes of t are those before i and those from i on. */
  lemma QuoteCountSplit(t: string, i: nat)
    requires i <= |t|
    ensures QuoteCount(t) == QuoteCount(t[..i]) + QuoteCount(t[i..])
  {
    assert t == t[..i] + t[i..];
    QuoteCountConcat(t[..i], t[i..]);
  }

  lemma QuoteCountZeroOf(s: string)
    requires forall i | 0 <= i < |s| :: s[i] != '\''
    ensures QuoteCount(s) == 0
  {
    if QuoteCount(s) > 0 {
      var i := QuoteCountSome(s);
    }
  }

  /** The parts the span loop collects from the first k spans: the span
      parts of spans whose stripped text is not empty. */
  function SpanParts(texts: seq<string>, k: nat): seq<string>
    requires k <= |texts|
  {
    if k == 0 then []
    else
      var t := Strip(texts[k - 1]);
      SpanParts(texts, k - 1) + if t == [] then [] else [SpanPart(t)]
  }

  /** The name spans' text, as the loop over the spans joins it. */
  method SpanName(texts: seq<string>) returns (name: string)
    ensures name == Join(SpanParts(texts, |texts|))
  {
    var nameParts: seq<string> := [];
    for k := 0 to |texts|
      invariant nameParts == SpanParts(texts, k)
    {
      var text := Strip(texts[k]);
      if text != [] {
        nameParts := nameParts + [SpanPart(text)];
      }
    }
    name := Join(nameParts);
  }

  // ---------------------------------------------------------------------
  // Contestant entries

  /** A contestant's link: the src of its img, the texts of its first and
      last name spans, and its whole text. */
  datatype Link = Link(imageSrc: Option<string>, nameSpans: seq<string>, text: string)

  /** The name an entry is filed under; "" when it is skipped. */
  function EntryName(link: Link): string {
    if link.nameSpans == [] then
      var n := Strip(link.text);
      if n == [] then [] else CleanedName(n)
    else CleanedName(Join(SpanParts(link.nameSpans, |link.nameSpans|)))
  }

  /** What an entry tells about its player. */
  function EntrySighting(season: int, link: Link): Sighting {
    Sighting(season, ImageUrl(link.imageSrc), link.nameSpans != [])
  }

  /** The player table: the records by name and the names in the order
      their records were created. */
  datatype Table = Table(players: map<string, PlayerRecord>, order: seq<string>)

  /** The table after one sighting is filed under name (nothing is filed
      under an empty name): the name's record absorbs the sighting, and a
      new name goes last in the order. */
  function File(t: Table, name: string, s: Sighting): (t': Table)
    ensures name != [] ==> name in t'.players && s.season in t'.players[name].seasons
    ensures forall p | p in t.players :: p in t'.players && t.players[p].seasons <= t'.players[p].seasons
    ensures forall p | p in t'.players :: p in t.players || p == name
    ensures forall p | p in t'.players && p != name :: t'.players[p] == t.players[p]
  {
    if name == [] then t
    else Table(t.players[name := Sight(Lookup(t.players, name), s)],
               if name in t.players then t.order else t.order + [name])
  }

  /** One entry of a card as a filing: the name and sighting a linked
      entry files under season; None for an entry without a link. */
  function Filing(season: int, e: Option<Link>): Option<(string, Sighting)> {
    if e.None? then None else Some((EntryName(e.value), EntrySighting(season, e.value)))
  }

  /** The filings of a card's entries under season, in order. */
  function CardFilings(season: int, entries: seq<Option<Link>>): (fs: seq<Option<(string, Sighting)>>)
    ensures |fs| == |entries|
    ensures forall i | 0 <= i < |entries| :: fs[i] == Filing(season, entries[i])
  {
    seq(|entries|, i requires 0 <= i < |entries| => Filing(season, entries[i]))
  }

  /** The table after the filings fs are filed in order. */
  function FileAll(t: Table, fs: seq<Option<(string, Sighting)>>): Table {
    if fs == [] then t
    else
      var t' := FileAll(t, fs[..|fs| - 1]);
      match fs[|fs| - 1]
      case None => t'
      case Some((name, s)) => File(t', name, s)
  }

  /** Filing keeps every record, and adds to a record only the seasons of
      the filings under its name. */
  lemma {:induction false} FileAllGrows(t: Table, fs: seq<Option<(string, Sighting)>>, season: int)
    requires forall i | 0 <= i < |fs| && fs[i].Some? :: fs[i].value.1.season == season
    ensures forall p | p in t.players ::
      p in FileAll(t, fs).players && t.players[p].seasons <= FileAll(t, fs).players[p].seasons
    ensures forall p | p in FileAll(t, fs).players ::
      FileAll(t, fs).players[p].seasons <= SeasonsOf(t.players, p) + {season}
  {
    if fs != [] {
      var fs' := fs[..|fs| - 1];
      assert forall i | 0 <= i < |fs'| && fs'[i].Some? :: fs'[i] == fs[i];
      FileAllGrows(t, fs', season);
      match fs[|fs| - 1]
      case None =>
      case Some((name, s)) =>
        var t' := FileAll(t, fs');
        if name != [] {
          var r := Sight(Lookup(t'.players, name), s);
          assert r.seasons == SeasonsOf(t'.players, name) + {s.season};
        }
    }
  }

  /** Every filing under a name ends up in that name's record. */
  lemma {:induction false} FileAllFiles(t: Table, fs: seq<Option<(string, Sighting)>>, i: nat)
    requires i < |fs| && fs[i].Some? && fs[i].value.0 != []
    ensures fs[i].value.0 in FileAll(t, fs).players
    ensures fs[i].value.1.season in FileAll(t, fs).players[fs[i].value.0].seasons
  {
    var fs' := fs[..|fs| - 1];
    if i < |fs| - 1 {
      assert fs'[i] == fs[i];
      FileAllFiles(t, fs', i);
    }
  }

  /** Every linked entry of a card with a name ends up with the card's
      season in its record. */
  lemma CardFiles(t: Table, season: int, entries: seq<Option<Link>>, i: nat)
    requires i < |entries| && entries[i].Some? && EntryName(entries[i].value) != []
    ensures EntryName(entries[i].value) in FileAll(t, CardFilings(season, entries)).players
    ensures season in FileAll(t, CardFilings(season, entries)).players[EntryName(entries[i].value)].seasons
  {
    var fs := CardFilings(season, entries);
    assert fs[i] == Filing(season, entries[i]);
    FileAllFiles(t, fs, i);
  }

  /** A player's record, or None when the player has not been seen. */
  function Lookup(players: map<string, PlayerRecord>, name: string): Option<PlayerRecord> {
    if name in players then Some(players[name]) else None
  }

  /** The seasons recorded for a name, none when it has no record. */
  function SeasonsOf(players: map<string, PlayerRecord>, name: string): set<int> {
    if name in players then players[name].seasons else {}
  }

  // ---------------------------------------------------------------------
  // The saved player table

  const BostonRob := "Boston Rob Mariano"

  /** The name a player is saved under: every name containing
      "Rob Mariano" is saved as "Boston Rob Mariano". */
  function MergeKey(p: string): (k: string)
    ensures Contains(p, "Rob Mariano") ==> k == BostonRob
    ensures !Contains(p, "Rob Mariano") ==> k == p
    ensures Contains(k, "Rob Mariano") ==> k == BostonRob
  {
    if Contains(p, "Rob Mariano") then BostonRob else p
  }

  function MergeKeys(order: seq<string>): (r: seq<string>)
    ensures |r| == |order| && forall i | 0 <= i < |order| :: r[i] == MergeKey(order[i])
  {
    seq(|order|, i requires 0 <= i < |order| => MergeKey(order[i]))
  }

  /** The seasons saved under key after the first k players, keys[i] being
      the name order[i] is saved under. */
  function MergedSeasons(players: map<string, PlayerRecord>, order: seq<string>, keys: seq<string>, k: nat, key: string): set<int>
    requires k <= |order| == |keys|
  {
    if k == 0 then {}
    else if keys[k - 1] == key then MergedSeasons(players, order, keys, k - 1, key) + SeasonsOf(players, order[k - 1])
    else MergedSeasons(players, order, keys, k - 1, key)
  }

  /** The first of the first k players saved under key. */
  function FirstIndex(keys: seq<string>, k: nat, key: string): (r: Option<nat>)
    requires k <= |keys|
    ensures r.Some? ==> r.value < k && keys[r.value] == key
  {
    if k == 0 then None
    else
      var f := FirstIndex(keys, k - 1, key);
      if f.Some? then f else if keys[k - 1] == key then Some(k - 1) else None
  }

  /** A key collects the seasons of exactly the players saved under it. */
  lemma {:induction false} MergedSeasonsSound(players: map<string, PlayerRecord>, order: seq<string>, keys: seq<string>,
                                              k: nat, key: string, y: int)
    returns (i: nat)
    requires k <= |order| == |keys| && y in MergedSeasons(players, order, keys, k, key)
    ensures i < k && keys[i] == key && y in SeasonsOf(players, order[i])
  {
    if keys[k - 1] == key && y in SeasonsOf(players, order[k - 1]) {
      i := k - 1;
    } else {
      i := MergedSeasonsSound(players, order, keys, k - 1, key, y);
    }
  }

  lemma {:induction false} MergedSeasonsComplete(players: map<string, PlayerRecord>, order: seq<string>, keys: seq<string>,
                                                 k: nat, i: nat, y: int)
    requires i < k <= |order| == |keys| && y in SeasonsOf(players, order[i])
    ensures y in MergedSeasons(players, order, keys, k, keys[i])
  {
    if i < k - 1 {
      MergedSeasonsComplete(players, order, keys, k - 1, i, y);
    }
  }

  /** FirstIndex finds the first player saved under key, if there is one. */
  lemma {:induction false} FirstIndexFacts(keys: seq<string>, k: nat, key: string)
    requires k <= |keys|
    ensures FirstIndex(keys, k, key).Some? <==> exists i :: 0 <= i < k && keys[i] == key
    ensures FirstIndex(keys, k, key).Some? ==>
      var f := FirstIndex(keys, k, key).value;
      f < k && keys[f] == key && forall j | 0 <= j < f :: keys[j] != key
  {
    if k > 0 {
      FirstIndexFacts(keys, k - 1, key);
    }
  }

  /** One player of the saved table. */
  datatype SavedPlayer = SavedPlayer(name: string, seasons: seq<int>, imageUrl: Option<string>)

  /** The saved file: players in the order their saved names first occur,
      and the logo table. */
  datatype SavedData = SavedData(players: seq<SavedPlayer>, seasonLogos: map<int, string>)

  // ---------------------------------------------------------------------
  // The scraper

  class SurvivorScraper {
    /** Records by cleaned name. */
    var players: map<string, PlayerRecord>
    /** The names in the order their records were created (the dictionary's
        insertion order). */
    var order: seq<string>
    var seasonLogos: map<int, string>

    ghost predicate Valid()
      reads this
    {
      NoDup(order) && forall p :: p in players <==> p in order
    }

    constructor ()
      ensures Valid()
      ensures players == map[] && order == [] && seasonLogos == SeasonLogos()
    {
      players := map[];
      order := [];
      seasonLogos := SeasonLogos();
    }

    /** Files one sighting under fullName; an empty name is skipped. */
    method Record(fullName: string, s: Sighting)
      requires Valid()
      modifies this
      ensures Valid() && seasonLogos == old(seasonLogos)
      ensures fullName == [] ==> players == old(players) && order == old(order)
      ensures fullName != [] ==> players == old(players)[fullName := Sight(Lookup(old(players), fullName), s)]
      ensures fullName != [] ==> order == if fullName in old(players) then old(order) else old(order) + [fullName]
      ensures Table(players, order) == File(Table(old(players), old(order)), fullName, s)
    {
      if fullName == [] {
        return;
      }
      var entry;
      if fullName in players {
        entry := players[fullName];
      } else {
        entry := PlayerRecord({}, s.imageUrl);
        order := order + [fullName];
      }
      entry := entry.(seasons := entry.seasons + {s.season});
      if s.fromSpans && Truthy(s.imageUrl) {
        entry := entry.(imageUrl := s.imageUrl);
      }
      players := players[fullName := entry];
    }

    /** One contestant entry of an accepted card: its image, its name from
        the spans or from the link text, and the record update. */
    method ParseEntry(season: int, link: Link)
      requires Valid()
      modifies this
      ensures Valid() && seasonLogos == old(seasonLogos)
      ensures var name := EntryName(link);
        (name == [] ==> players == old(players) && order == old(order)) &&
        (name != [] ==> players == old(players)[name := Sight(Lookup(old(players), name), EntrySighting(season, link))]) &&
        (name != [] ==> order == if name in old(players) then old(order) else old(order) + [name])
      ensures Table(players, order) == File(Table(old(players), old(order)), EntryName(link), EntrySighting(season, link))
    {
      var imageUrl := ImageUrl(link.imageSrc);
      if link.nameSpans == [] {
        var name := Strip(link.text);
        if name != [] {
          var fullName := CleanName(name);
          Record(fullName, Sighting(season, imageUrl, false));
        }
        return;
      }
      var joined := SpanName(link.nameSpans);
      var fullName := CleanName(joined);
      Record(fullName, Sighting(season, imageUrl, true));
    }

    /** One season card: skipped unless its season is accepted; otherwise
        every entry with a link is filed under that season. */
    method ParseCard(seasonNum: Option<int>, startSeason: int, endSeason: int, entries: seq<Option<Link>>)
      requires Valid()
      modifies this
      ensures Valid() && seasonLogos == old(seasonLogos)
      ensures !SeasonAccepted(seasonNum, startSeason, endSeason) ==> players == old(players) && order == old(order)
      ensures forall p | p in old(players) :: p in players && old(players)[p].seasons <= players[p].seasons
      ensures SeasonAccepted(seasonNum, startSeason, endSeason) ==>
        forall p | p in players :: players[p].seasons <= SeasonsOf(old(players), p) + {seasonNum.value}
      ensures SeasonAccepted(seasonNum, startSeason, endSeason) ==>
        Table(players, order) == FileAll(Table(old(players), old(order)), CardFilings(seasonNum.value, entries))
    {
      if !SeasonAccepted(seasonNum, startSeason, endSeason) {
        return;
      }
      var season := seasonNum.value;
      ghost var t0 := Table(players, order);
      ghost var fs := CardFilings(season, entries);
      for k := 0 to |entries|
        invariant Valid() && seasonLogos == old(seasonLogos)
        invariant Table(players, order) == FileAll(t0, fs[..k])
      {
        assert fs[..k + 1][..k] == fs[..k] && fs[k] == Filing(season, entries[k]);
        if entries[k].None? {
          continue;
        }
        ParseEntry(season, entries[k].value);
      }
      assert fs[..|entries|] == fs;
      FileAllGrows(t0, fs, season);
    }

    /** The saved data: records merged by saved name in first-seen order,
        each with its seasons sorted and the image of the first record
        merged into it. */
    method SaveData() returns (out: SavedData)
      requires Valid()
      ensures var keys := MergeKeys(order);
        var names := Dedup(keys);
        |out.players| == |names| &&
        forall i | 0 <= i < |names| ::
          out.players[i].name == names[i] &&
          FirstIndex(keys, |keys|, names[i]).Some? &&
          out.players[i].seasons == SortSet(MergedSeasons(players, order, keys, |order|, names[i])) &&
          out.players[i].imageUrl == ImageOf(players, order[FirstIndex(keys, |keys|, names[i]).value])
      ensures out.seasonLogos == seasonLogos
    {
      var merged: map<string, PlayerRecord> := map[];
      var mergedOrder: seq<string> := [];
      ghost var keys := MergeKeys(order);
      for k := 0 to |order|
        invariant Merged(players, order, keys, k, merged, mergedOrder)
      {
        var player := order[k];
        assert player in order;
        var data := players[player];
        var key := MergeKey(player);
        assert key == keys[k];
        MergeTurn(players, order, keys, k, merged, mergedOrder);
        if key !in merged {
          merged := merged[key := PlayerRecord({}, data.imageUrl)];
          mergedOrder := mergedOrder + [key];
        }
        merged := merged[key := merged[key].(seasons := merged[key].seasons + data.seasons)];
      }
      assert keys[..|order|] == keys;
      var saved := seq(|mergedOrder|, i requires 0 <= i < |mergedOrder| =>
        SavedPlayer(mergedOrder[i], SortSet(merged[mergedOrder[i]].seasons), merged[mergedOrder[i]].imageUrl));
      out := SavedData(saved, seasonLogos);
    }
  }

  /** A player's recorded image; None for a name without a record. */
  function ImageOf(players: map<string, PlayerRecord>, name: string): Option<string> {
    if name in players then players[name].imageUrl else None
  }

  /** The merge loop's invariant after the first k players: the saved names
      in first-seen order, each with the seasons of the players merged into
      it and the image of the first of them. */
  ghost predicate Merged(players: map<string, PlayerRecord>, order: seq<string>, keys: seq<string>, k: nat,
                         merged: map<string, PlayerRecord>, mergedOrder: seq<string>)
  {
    k <= |order| == |keys| &&
    mergedOrder == Dedup(keys[..k]) &&
    (forall key :: key in merged <==> key in mergedOrder) &&
    MergedRecords(players, order, keys, k, merged)
  }

  /** Each merged record: its seasons and its first player's image. */
  ghost predicate MergedRecords(players: map<string, PlayerRecord>, order: seq<string>, keys: seq<string>, k: nat,
                                merged: map<string, PlayerRecord>)
    requires k <= |order| == |keys|
  {
    (forall key :: key in merged <==> FirstIndex(keys, k, key).Some?) &&
    (forall key | key in merged ::
      merged[key].seasons == MergedSeasons(players, order, keys, k, key) &&
      merged[key].imageUrl == ImageOf(players, order[FirstIndex(keys, k, key).value]))
  }

  /** One turn of the merge loop keeps its invariant. */
  lemma MergeTurn(players: map<string, PlayerRecord>, order: seq<string>, keys: seq<string>, k: nat,
                  merged: map<string, PlayerRecord>, mergedOrder: seq<string>)
    requires k < |order| && order[k] in players && Merged(players, order, keys, k, merged, mergedOrder)
    ensures var key := keys[k];
      var base := if key in merged then merged[key] else PlayerRecord({}, players[order[k]].imageUrl);
      Merged(players, order, keys, k + 1, merged[key := base.(seasons := base.seasons + players[order[k]].seasons)],
             if key in merged then mergedOrder else mergedOrder + [key])
  {
    DedupStep(keys, k);
    var key := keys[k];
    var base := if key in merged then merged[key] else PlayerRecord({}, players[order[k]].imageUrl);
    var merged' := merged[key := base.(seasons := base.seasons + players[order[k]].seasons)];
    var mergedOrder' := if key in merged then mergedOrder else mergedOrder + [key];
    assert mergedOrder' == Dedup(keys[..k + 1]);
    assert forall key' :: key' in merged' <==> key' in mergedOrder';
    MergeRecords(players, order, keys, k, merged, merged');
  }

  /** The records of one turn of the merge loop. */
  lemma MergeRecords(players: map<string, PlayerRecord>, order: seq<string>, keys: seq<string>, k: nat,
                     merged: map<string, PlayerRecord>, merged': map<string, PlayerRecord>)
    requires k < |order| == |keys| && order[k] in players
    requires MergedRecords(players, order, keys, k, merged)
    requires var key := keys[k];
      var base := if key in merged then merged[key] else PlayerRecord({}, players[order[k]].imageUrl);
      merged' == merged[key := base.(seasons := base.seasons + players[order[k]].seasons)]
    ensures MergedRecords(players, order, keys, k + 1, merged')
  {
    var key := keys[k];
    forall key' ensures key' in merged' <==> FirstIndex(keys, k + 1, key').Some? {
    }
    forall key' | key' in merged'
      ensures merged'[key'].seasons == MergedSeasons(players, order, keys, k + 1, key')
      ensures merged'[key'].imageUrl == ImageOf(players, order[FirstIndex(keys, k + 1, key').value])
    {
      var before := MergedSeasons(players, order, keys, k, key');
      var seen := players[order[k]].seasons;
      assert SeasonsOf(players, order[k]) == seen;
      if key' != key {
        assert MergedSeasons(players, order, keys, k + 1, key') == before;
        assert merged'[key'] == merged[key'];
      } else {
        assert MergedSeasons(players, order, keys, k + 1, key') == before + seen;
        if key !in merged {
          NothingMerged(players, order, keys, k, key);
        }
      }
    }
  }

  /** A name no player was saved under has collected no seasons. */
  lemma {:induction false} NothingMerged(players: map<string, PlayerRecord>, order: seq<string>, keys: seq<string>,
                                         k: nat, key: string)
    requires k <= |order| == |keys| && FirstIndex(keys, k, key).None?
    ensures MergedSeasons(players, order, keys, k, key) == {}
  {
    if k > 0 {
      NothingMerged(players, order, keys, k - 1, key);
    }
  }

  /** The saved names: each is the saved name of some recorded player, each
      recorded player's saved name is listed, and none is listed twice. */
  lemma SavedNames(players: map<string, PlayerRecord>, order: seq<string>)
    requires forall p :: p in players <==> p in order
    ensures NoDup(Dedup(MergeKeys(order)))
    ensures forall k | k in Dedup(MergeKeys(order)) :: exists p :: p in players && MergeKey(p) == k
    ensures forall p | p in players :: MergeKey(p) in Dedup(MergeKeys(order))
  {
    var mk := MergeKeys(order);
    forall k | k in Dedup(mk) ensures exists p :: p in players && MergeKey(p) == k {
      var j :| 0 <= j < |mk| && mk[j] == k;
      assert order[j] in order;
    }
    forall p | p in players ensures MergeKey(p) in Dedup(mk) {
      var j :| 0 <= j < |order| && order[j] == p;
      assert mk[j] in mk;
    }
  }

  /** The seasons saved under a name: sorted, and a season is listed exactly
      when some player saved under that name has it. */
  lemma SavedSeasons(players: map<string, PlayerRecord>, order: seq<string>, key: string, y: int)
    requires forall p :: p in players <==> p in order
    ensures StrictlyIncreasing(SortSet(MergedSeasons(players, order, MergeKeys(order), |order|, key)))
    ensures y in SortSet(MergedSeasons(players, order, MergeKeys(order), |order|, key)) <==>
      exists p :: p in players && MergeKey(p) == key && y in players[p].seasons
  {
    var keys := MergeKeys(order);
    if y in MergedSeasons(players, order, keys, |order|, key) {
      var j := MergedSeasonsSound(players, order, keys, |order|, key, y);
      assert order[j] in order;
    }
    if exists p :: p in players && MergeKey(p) == key && y in players[p].seasons {
      var p :| p in players && MergeKey(p) == key && y in players[p].seasons;
      var j :| 0 <= j < |order| && order[j] == p;
      MergedSeasonsComplete(players, order, keys, |order|, j, y);
    }
  }

  /** The image saved for a name is that of the first recorded player saved
      under it. */
  lemma SavedImage(order: seq<string>, key: string, f: nat)
    requires FirstIndex(MergeKeys(order), |order|, key) == Some(f)
    ensures f < |order| && MergeKey(order[f]) == key
    ensures forall j | 0 <= j < f :: MergeKey(order[j]) != key
  {
    FirstIndexFacts(MergeKeys(order), |order|, key);
  }
}
