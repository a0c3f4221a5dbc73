/** Contestant name normalisation of the scraper: trim, split into words,
    drop numbered-list prefixes such as "1." or "12", unquote nicknames,
    recapitalise all-capitals words, join with single spaces, and map known
    aliases to the name the data set uses.  Python's string methods are
    modelled over ASCII. */
module CleanNames {
  import opened Seqs
  import opened Strings

  // ---------------------------------------------------------------------
  // Python str.strip, str.split() and ' '.join

  /** The word has no whitespace. */
  predicate NoSpace(t: string) {
    forall i | 0 <= i < |t| :: !IsPySpace(t[i])
  }

  /** Every character is whitespace. */
  predicate AllSpace(t: string) {
    forall i | 0 <= i < |t| :: IsPySpace(t[i])
  }

  /** The number of whitespace characters s starts with. */
  function LeadingSpace(s: string): (k: nat)
    ensures k <= |s|
    ensures forall i | 0 <= i < k :: IsPySpace(s[i])
    ensures k < |s| ==> !IsPySpace(s[k])
    decreases |s|
  {
    if s != [] && IsPySpace(s[0]) then 1 + LeadingSpace(s[1..]) else 0
  }

  /** Where s[lo..hi] ends once its trailing whitespace is cut off. */
  function TrimEnd(s: string, lo: nat, hi: nat): (k: nat)
    requires lo <= hi <= |s|
    ensures lo <= k <= hi
    ensures forall i | k <= i < hi :: IsPySpace(s[i])
    ensures k > lo ==> !IsPySpace(s[k - 1])
    decreases hi
  {
    if hi > lo && IsPySpace(s[hi - 1]) then TrimEnd(s, lo, hi - 1) else hi
  }

  /** str.strip(): s without whitespace at either end. */
  function Strip(s: string): (r: string)
    ensures |r| <= |s|
    ensures r == [] || (!IsPySpace(r[0]) && !IsPySpace(r[|r| - 1]))
  {
    var i := LeadingSpace(s);
    s[i..TrimEnd(s, i, |s|)]
  }

  /** Strip cuts off only whitespace: its result is the middle part of s
      that starts at some i, with whitespace only before and after it. */
  lemma StripSlice(s: string) returns (i: nat)
    ensures i + |Strip(s)| <= |s| && Strip(s) == s[i..i + |Strip(s)|]
    ensures AllSpace(s[..i]) && AllSpace(s[i + |Strip(s)|..])
  {
    i := LeadingSpace(s);
    var j := TrimEnd(s, i, |s|);
    assert Strip(s) == s[i..j];
    var a, b := s[..i], s[j..];
    forall k | 0 <= k < |a| ensures IsPySpace(a[k]) {
      assert a[k] == s[k];
    }
    forall k | 0 <= k < |b| ensures IsPySpace(b[k]) {
      assert b[k] == s[j + k];
    }
  }

  /** The number of leading characters of s that are not whitespace. */
  function WordLength(s: string): (k: nat)
    ensures k <= |s|
    ensures forall i | 0 <= i < k :: !IsPySpace(s[i])
    ensures k < |s| ==> IsPySpace(s[k])
  {
    if s == [] || IsPySpace(s[0]) then 0
    else
      var k := 1 + WordLength(s[1..]);
      assert forall i | 1 <= i < k :: s[i] == s[1..][i - 1];
      k
  }

  /** str.split() without arguments: the maximal runs of non-whitespace
      characters, in order. */
  function Split(s: string): (r: seq<string>)
    ensures forall t | t in r :: t != [] && NoSpace(t)
    decreases |s|
  {
    if s == [] then []
    else if IsPySpace(s[0]) then Split(s[1..])
    else
      var k := WordLength(s);
      [s[..k]] + Split(s[k..])
  }

  /** ' '.join(ts). */
  function Join(ts: seq<string>): string {
    if |ts| == 0 then ""
    else if |ts| == 1 then ts[0]
    else ts[0] + " " + Join(ts[1..])
  }

  lemma {:induction false} WordLengthOf(t: string, x: string)
    requires t != [] && NoSpace(t)
    requires x == [] || IsPySpace(x[0])
    ensures WordLength(t + x) == |t|
  {
    if |t| > 1 {
      assert (t + x)[1..] == t[1..] + x;
      WordLengthOf(t[1..], x);
    } else {
      assert (t + x)[1..] == x;
    }
  }

  /** Whitespace after a run ends the run where it would end anyway. */
  lemma {:induction false} WordLengthPrefix(a: string, x: string)
    requires x == [] || IsPySpace(x[0])
    ensures WordLength(a + x) == WordLength(a)
  {
    if a == [] {
      assert a + x == x;
    } else if !IsPySpace(a[0]) {
      assert (a + x)[1..] == a[1..] + x;
      WordLengthPrefix(a[1..], x);
    }
  }

  /** Whitespace alone splits into no words. */
  lemma {:induction false} SplitAllSpace(s: string)
    requires AllSpace(s)
    ensures Split(s) == []
    decreases |s|
  {
    if s != [] {
      assert IsPySpace(s[0]);
      SplitAllSpace(s[1..]);
    }
  }

  /** A nonempty run without whitespace is one word. */
  lemma SplitWord(t: string)
    requires t != [] && NoSpace(t)
    ensures Split(t) == [t]
  {
    WordLengthOf(t, []);
    assert t + [] == t;
    assert t[..|t|] == t && t[|t|..] == [];
  }

  /** A whitespace character separates the words before it from the words
      after it: no word of the input is lost or merged. */
  lemma {:induction false} SplitAt(a: string, c: char, b: string)
    requires IsPySpace(c)
    ensures Split(a + [c] + b) == Split(a) + Split(b)
    decreases |a|
  {
    var s := a + [c] + b;
    if a == [] {
      assert s == [c] + b && s[1..] == b;
    } else if IsPySpace(a[0]) {
      assert s[1..] == a[1..] + [c] + b;
      SplitAt(a[1..], c, b);
    } else {
      var k := WordLength(a);
      SplitAt(a[k..], c, b);
      SplitAtWord(a, c, b);
    }
  }

  /** The case of SplitAt where a starts with a word: that word is read
      whole, and the rest follows it. */
  lemma SplitAtWord(a: string, c: char, b: string)
    requires IsPySpace(c) && a != [] && !IsPySpace(a[0])
    ensures var k := WordLength(a);
      Split(a + [c] + b) == [a[..k]] + Split(a[k..] + [c] + b)
  {
    var s, k := a + [c] + b, WordLength(a);
    WordLengthPrefix(a, [c] + b);
    assert s == a + ([c] + b);
    assert s[..k] == a[..k];
    assert s[k..] == a[k..] + [c] + b;
  }

  /** Splitting words joined by single spaces gives the words back. */
  lemma {:induction false} SplitJoin(ts: seq<string>)
    requires forall t | t in ts :: t != [] && NoSpace(t)
    ensures Split(Join(ts)) == ts
  {
    if |ts| == 1 {
      assert ts[0] in ts;
      WordLengthOf(ts[0], []);
      assert ts[0] + [] == ts[0];
      assert ts[0][|ts[0]|..] == [];
    } else if |ts| > 1 {
      var t, rest := ts[0], Join(ts[1..]);
      var s := t + " " + rest;
      assert t in ts;
      assert forall x | x in ts[1..] :: x in ts;
      WordLengthOf(t, " " + rest);
      assert s == t + (" " + rest);
      assert s[..|t|] == t;
      assert s[|t|..] == " " + rest;
      assert (" " + rest)[1..] == rest;
      SplitJoin(ts[1..]);
      assert ts == [t] + ts[1..];
    }
  }

  // ---------------------------------------------------------------------
  // Words

  predicate AllDigits(s: string) {
    forall i | 0 <= i < |s| :: IsDigit(s[i])
  }

  predicate AllDots(s: string) {
    forall i | 0 <= i < |s| :: s[i] == '.'
  }

  /** str.rstrip('.'). */
  function RStripDots(s: string): (r: string)
    ensures |r| <= |s| && r == s[..|r|] && AllDots(s[|r|..])
    ensures r != [] ==> r[|r| - 1] != '.'
  {
    if s != [] && s[|s| - 1] == '.' then
      var r := RStripDots(s[..|s| - 1]);
      assert forall i | |r| <= i < |s| - 1 :: s[i] == s[..|s| - 1][i];
      r
    else s
  }

  /** The word is a list number: digits, at least one, after dropping
      trailing dots (str.isdigit is false on the empty string). */
  predicate NumberWord(p: string) {
    var q := RStripDots(p);
    |q| > 0 && AllDigits(q)
  }

  /** A list number is exactly some digits followed by some dots. */
  lemma NumberWordShape(p: string, k: nat)
    requires 0 < k <= |p| && AllDigits(p[..k]) && AllDots(p[k..])
    ensures NumberWord(p)
  {
    var q := RStripDots(p);
    assert p[..k][k - 1] == p[k - 1];
  }

  lemma NumberWordDigits(p: string) returns (k: nat)
    requires NumberWord(p)
    ensures 0 < k <= |p| && AllDigits(p[..k]) && AllDots(p[k..])
  {
    k := |RStripDots(p)|;
  }

  function KeepF(): string -> bool {
    p => !NumberWord(p)
  }

  /** The word starts and ends with a single quote. */
  predicate Quoted(p: string) {
    |p| > 0 && p[0] == '\'' && p[|p| - 1] == '\''
  }

  /** part[1:-1] for a quoted word (empty for the word ' alone). */
  function Unquote(p: string): (r: string)
    ensures Quoted(p) && |p| >= 2 ==> p == ['\''] + r + ['\'']
    ensures Quoted(p) && |p| == 1 ==> r == []
    ensures !Quoted(p) ==> r == p
    ensures NoSpace(p) ==> NoSpace(r)
  {
    if Quoted(p) then (if |p| >= 2 then p[1..|p| - 1] else []) else p
  }

  /** str.isupper(): some letter, and no lower-case letter. */
  predicate AllCaps(s: string) {
    (exists i | 0 <= i < |s| :: IsUpper(s[i])) && forall i | 0 <= i < |s| :: !IsLower(s[i])
  }

  /** str.capitalize(): the first character in upper case, the rest in
      lower case. */
  function Capitalize(s: string): (r: string)
    ensures |r| == |s|
    ensures |s| > 0 ==> r[0] == UpperChar(s[0])
    ensures forall i | 1 <= i < |r| :: r[i] == LowerChar(s[i])
  {
    if s == [] then [] else [UpperChar(s[0])] + ToLower(s[1..])
  }

  /** The capitalised word has the same letters up to case and the same
      whitespace; its first character is not lower case and the others are
      not upper case. */
  lemma CapitalizeFacts(s: string)
    ensures |s| > 0 ==> !IsLower(Capitalize(s)[0])
    ensures forall i | 1 <= i < |s| :: !IsUpper(Capitalize(s)[i])
    ensures ToLower(Capitalize(s)) == ToLower(s)
    ensures forall i | 0 <= i < |s| :: IsPySpace(Capitalize(s)[i]) <==> IsPySpace(s[i])
  {
    var r := Capitalize(s);
    forall i | 0 <= i < |r| ensures ToLower(r)[i] == ToLower(s)[i] && (IsPySpace(r[i]) <==> IsPySpace(s[i])) {
      if i == 0 {
        assert r[0] == UpperChar(s[0]);
      } else {
        assert r[i] == LowerChar(s[i]);
      }
    }
  }

  /** A word as the cleaning loop leaves it. */
  function CleanWord(p: string): string {
    var u := Unquote(p);
    if AllCaps(u) && |u| > 2 then Capitalize(u) else u
  }

  /** Unquoting and recapitalising never lengthens a word, adds no
      whitespace and keeps the letters of the unquoted word up to case. */
  lemma CleanWordFacts(p: string)
    ensures NoSpace(p) ==> NoSpace(CleanWord(p))
    ensures |CleanWord(p)| <= |p|
    ensures ToLower(CleanWord(p)) == ToLower(Unquote(p))
  {
    var u := Unquote(p);
    CapitalizeFacts(u);
  }

  /** f applied to each of the first k words that is not empty, in order:
      what the cleaning loop has appended after k turns, with f the word
      cleaning. */
  function MapWords(parts: seq<string>, k: nat, f: string -> string): seq<string>
    requires k <= |parts|
  {
    if k == 0 then []
    else MapWords(parts, k - 1, f) + if parts[k - 1] == [] then [] else [f(parts[k - 1])]
  }

  /** Without empty words, every word is mapped and none skipped. */
  lemma {:induction false} MapWordsFacts(parts: seq<string>, k: nat, f: string -> string)
    requires k <= |parts|
    requires forall i | 0 <= i < |parts| :: parts[i] != []
    ensures |MapWords(parts, k, f)| == k
    ensures forall i | 0 <= i < k :: MapWords(parts, k, f)[i] == f(parts[i])
  {
    if k > 0 {
      MapWordsFacts(parts, k - 1, f);
    }
  }

  // ---------------------------------------------------------------------
  // Aliases and the whole cleaning

  /** Players known under more than one name. */
  const NameMappings: map<string, string> := map[
    "Rob Mariano" := "Boston Rob Mariano",
    "Boston Rob" := "Boston Rob Mariano",
    "Candice Woodcock" := "Candice Woodcock Cody",
    "Candice Cody" := "Candice Woodcock Cody",
    "Amber Brkich" := "Amber Mariano"
  ]

  /** name_mappings.get(n, n). */
  function Alias(n: string): (r: string)
    ensures n in NameMappings ==> r == NameMappings[n]
    ensures n !in NameMappings ==> r == n
  {
    if n in NameMappings then NameMappings[n] else n
  }

  /** No alias leads to another alias: the mapped name is final. */
  lemma AliasFinal(n: string)
    ensures Alias(n) !in NameMappings
    ensures Alias(Alias(n)) == Alias(n)
  {
    var vs := ["Boston Rob Mariano", "Candice Woodcock Cody", "Amber Mariano"];
    assert forall k | k in NameMappings :: NameMappings[k] in vs;
    assert forall v | v in vs :: v !in NameMappings;
  }

  /** The words kept by the cleaning, in order. */
  function CleanedWords(name: string): seq<string> {
    var parts := Filter(Split(Strip(name)), KeepF());
    MapWords(parts, |parts|, CleanWord)
  }

  /** The name clean_name returns. */
  function CleanedName(name: string): string {
    Alias(Join(CleanedWords(name)))
  }

  /** Text with no whitespace at either end is left alone by strip. */
  lemma StripKeeps(s: string)
    requires s != [] && !IsPySpace(s[0]) && !IsPySpace(s[|s| - 1])
    ensures Strip(s) == s
  {
    var i := StripSlice(s);
  }

  lemma JoinTwo(x: string, y: string)
    ensures Join([x, y]) == x + " " + y
  {
    assert [x, y][1..] == [y];
  }

  lemma FilterTwo<T>(x: T, y: T, f: T -> bool)
    requires f(x) && f(y)
    ensures Filter([x, y], f) == [x, y]
  {
    assert FilterTo([x, y], f, 1) == [x];
  }

  lemma MapTwo(x: string, y: string, f: string -> string)
    requires x != [] && y != []
    ensures MapWords([x, y], 2, f) == [f(x), f(y)]
  {
    assert MapWords([x, y], 1, f) == [f(x)];
  }

  /** A name of two words, neither a list number, is cleaned word by word
      and then looked up in the alias table. */
  lemma CleanedTwoWords(a: string, b: string)
    requires a != [] && NoSpace(a) && !NumberWord(a)
    requires b != [] && NoSpace(b) && !NumberWord(b)
    ensures CleanedName(a + " " + b) == Alias(CleanWord(a) + " " + CleanWord(b))
  {
    var s := a + " " + b;
    JoinTwo(a, b);
    assert s[0] == a[0] && s[|s| - 1] == b[|b| - 1];
    StripKeeps(s);
    SplitJoin([a, b]);
    FilterTwo(a, b, KeepF());
    MapTwo(a, b, CleanWord);
    JoinTwo(CleanWord(a), CleanWord(b));
  }

  /** The all-caps spelling of Rob Mariano is recapitalised and then merged
      under his alias. */
  lemma RobMariano()
    ensures CleanedName("ROB MARIANO") == "Boston Rob Mariano"
  {
    RobMarianoWords();
    CleanedTwoWords("ROB", "MARIANO");
    RobMarianoClean();
  }

  lemma RobMarianoWords()
    ensures "ROB" + " " + "MARIANO" == "ROB MARIANO"
    ensures NoSpace("ROB") && NoSpace("MARIANO")
    ensures !NumberWord("ROB") && !NumberWord("MARIANO")
  {
    var t := "MARIANO";
    forall i | 0 <= i < |t| ensures !IsPySpace(t[i]) {
      assert IsUpper(t[i]);
    }
    assert RStripDots("ROB") == "ROB" && !AllDigits("ROB");
    assert RStripDots("MARIANO") == "MARIANO" && !AllDigits("MARIANO");
  }

  /** An unquoted all-caps word of more than two characters is
      capitalised. */
  lemma CleanCaps(p: string)
    requires !Quoted(p) && AllCaps(p) && |p| > 2
    ensures CleanWord(p) == Capitalize(p)
  {
  }

  lemma RobMarianoCaps()
    ensures !Quoted("ROB") && AllCaps("ROB") && Capitalize("ROB") == "Rob"
    ensures !Quoted("MARIANO") && AllCaps("MARIANO") && Capitalize("MARIANO") == "Mariano"
  {
    assert IsUpper("ROB"[0]) && IsUpper("MARIANO"[0]);
    var r, m := Capitalize("ROB"), Capitalize("MARIANO");
    assert r[0] == 'R' && r[1] == 'o' && r[2] == 'b';
    assert m[0] == 'M' && m[1] == 'a' && m[2] == 'r' && m[3] == 'i' && m[4] == 'a' && m[5] == 'n' && m[6] == 'o';
  }

  lemma RobMarianoClean()
    ensures CleanWord("ROB") == "Rob" && CleanWord("MARIANO") == "Mariano"
    ensures Alias("Rob" + " " + "Mariano") == "Boston Rob Mariano"
  {
    assert "Rob" + " " + "Mariano" == "Rob Mariano";
    RobMarianoCaps();
    CleanCaps("ROB");
    CleanCaps("MARIANO");
  }

  /** The cleaning: strip, split, drop the list numbers, clean each word in
      a loop, join and look up the alias table. */
  method CleanName(name: string) returns (r: string)
    ensures r == CleanedName(name)
    ensures r !in NameMappings
  {
    var stripped := Strip(name);
    var parts := Split(stripped);
    parts := Filter(parts, KeepF());
    var cleaned := CleanWords(parts, CleanWord);
    var fullName := Join(cleaned);
    AliasFinal(fullName);
    r := Alias(fullName);
  }

  /** The loop of the cleaning: skip empty words, append the others as f
      (the word cleaning) leaves them. */
  method CleanWords(parts: seq<string>, f: string -> string) returns (cleaned: seq<string>)
    ensures cleaned == MapWords(parts, |parts|, f)
  {
    cleaned := [];
    for k := 0 to |parts|
      invariant cleaned == MapWords(parts, k, f)
    {
      var part := parts[k];
      if part == [] {
        continue;
      }
      cleaned := cleaned + [f(part)];
    }
  }

  /** The cleaned words contain no whitespace and none of them is a list
      number as it stood in the input; the words the cleaning keeps are the
      non-number words of the input, in order, each cleaned. */
  lemma CleanedWordsFacts(name: string)
    ensures var parts := Filter(Split(Strip(name)), KeepF());
      |CleanedWords(name)| == |parts| &&
      (forall i | 0 <= i < |parts| :: CleanedWords(name)[i] == CleanWord(parts[i]) && !NumberWord(parts[i])) &&
      (forall t | t in CleanedWords(name) :: NoSpace(t))
  {
    var parts := Filter(Split(Strip(name)), KeepF());
    KeptParts(name, parts);
    MapWordsFacts(parts, |parts|, CleanWord);
    CleanedNoSpace(CleanedWords(name), parts);
  }

  lemma CleanedNoSpace(ws: seq<string>, parts: seq<string>)
    requires |ws| == |parts|
    requires forall i | 0 <= i < |parts| :: ws[i] == CleanWord(parts[i]) && NoSpace(parts[i])
    ensures forall t | t in ws :: NoSpace(t)
  {
    forall t | t in ws ensures NoSpace(t) {
      var i :| 0 <= i < |ws| && ws[i] == t;
      CleanWordFacts(parts[i]);
    }
  }

  /** The words the cleaning keeps are non-empty, hold no whitespace and are
      no list numbers. */
  lemma KeptParts(name: string, parts: seq<string>)
    requires parts == Filter(Split(Strip(name)), KeepF())
    ensures forall i | 0 <= i < |parts| :: parts[i] != [] && NoSpace(parts[i]) && !NumberWord(parts[i])
  {
    forall i | 0 <= i < |parts| ensures parts[i] != [] && NoSpace(parts[i]) && !NumberWord(parts[i]) {
      assert parts[i] in parts;
      assert parts[i] in Split(Strip(name));
    }
  }

  /** When no word became empty by unquoting and no alias applies, the
      result is its words separated by single spaces. */
  lemma CleanedNameWords(name: string)
    requires forall t | t in CleanedWords(name) :: t != []
    requires Join(CleanedWords(name)) !in NameMappings
    ensures Split(CleanedName(name)) == CleanedWords(name)
  {
    CleanedWordsFacts(name);
    SplitJoin(CleanedWords(name));
  }
}
