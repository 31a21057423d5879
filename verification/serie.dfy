/**
 The series-episode descriptor: episode number with its "part" fallbacks,
 episode count, the date sanity window, season inference, the regexp id,
 the special-episode flag and the country.
 */
module GuessitSerie {
  import opened Text
  import opened Guess

  predicate Complete(g: Guess)
  {
    "Complete" in g.other
  }

  /** The complete flag reads the Complete tag and no other; no tags means
      not complete. */
  lemma CompleteFlag(g: Guess, tag: string)
    ensures Complete(g.(other := g.other + {tag})) <==> Complete(g) || tag == "Complete"
    ensures Complete(g.(other := g.other - {tag})) <==> Complete(g) && tag != "Complete"
    ensures !Complete(Empty)
  {
  }

  // ---------------------------------------------------------------------
  // The pattern `part\s?(\d+)`, compiled with re.IGNORECASE

  /** "part" in any ASCII case starts at i. */
  predicate PartWordAt(t: string, i: nat)
  {
    && i + 4 <= |t|
    && Lower(t[i]) == 'p' && Lower(t[i + 1]) == 'a'
    && Lower(t[i + 2]) == 'r' && Lower(t[i + 3]) == 't'
  }

  /** The pattern matches at i. The greedy `\s?` takes a whitespace
      character only when a digit follows it; otherwise it matches empty and
      `\d+` must start right after "part". */
  predicate PartMatchAt(t: string, i: nat)
  {
    && PartWordAt(t, i)
    && i + 4 < |t|
    && (IsDigit(t[i + 4]) || (IsRegexSpace(t[i + 4]) && i + 5 < |t| && IsDigit(t[i + 5])))
  }

  /** Where the captured digits start in a match at i. */
  function GroupStart(t: string, i: nat): (j: nat)
    requires PartMatchAt(t, i)
    ensures j < |t| && IsDigit(t[j])
  {
    if IsDigit(t[i + 4]) then i + 4 else i + 5
  }

  /** The captured group: the whole run of digits (`\d+` is greedy). */
  function Group(t: string, i: nat): (digits: string)
    requires PartMatchAt(t, i)
    ensures |digits| > 0 && AllDigits(digits)
  {
    var j := GroupStart(t, i);
    var k := DigitRunLength(t[j..]);
    assert t[j..][0] == t[j];
    assert t[j..][..k] == t[j..j + k];
    t[j..j + k]
  }

  /** `re.search` from position `from`: the leftmost match at or after it. */
  function FindPart(t: string, from: nat): (r: Option<nat>)
    ensures r.Some? ==> from <= r.value && PartMatchAt(t, r.value)
    ensures r.Some? ==> forall j: nat :: from <= j < r.value ==> !PartMatchAt(t, j)
    ensures r.None? ==> forall j: nat :: from <= j ==> !PartMatchAt(t, j)
    decreases |t| - from
  {
    if from >= |t| then None
    else if PartMatchAt(t, from) then Some(from)
    else FindPart(t, from + 1)
  }

  /** `int(part_re.search(title).group(1))`, or None when nothing matches. */
  function PartNumber(title: string): (n: Option<nat>)
    ensures n.Some? <==> exists i: nat :: PartMatchAt(title, i)
    ensures n.Some? ==> exists i: nat ::
      && PartMatchAt(title, i)
      && (forall j: nat :: j < i ==> !PartMatchAt(title, j))
      && n.value == Decimal(Group(title, i))
  {
    match FindPart(title, 0)
    case None => None
    case Some(i) => Some(Decimal(Group(title, i)))
  }

  function ToInt(n: Option<nat>): Option<int>
  {
    match n
    case None => None
    case Some(v) => Some(v)
  }

  // ---------------------------------------------------------------------
  // Episode number and count

  /** `episode`: `episodeNumber`; else the value under a present `part`
      key (even when that value is None); else the number after the
      leftmost "part" in the title; else None. */
  function Episode(g: Guess): (e: Option<int>)
    ensures g.episodeNumber.Some? ==> e == g.episodeNumber
    ensures g.episodeNumber.None? && g.part.Present? ==> e == g.part.held
    ensures g.episodeNumber.None? && g.part.Absent? ==>
      (e.Some? <==> g.title.Some? && exists i: nat :: PartMatchAt(g.title.value, i))
    ensures g.episodeNumber.None? && g.part.Absent? && e.Some? ==> exists i: nat ::
      && PartMatchAt(g.title.value, i)
      && (forall j: nat :: j < i ==> !PartMatchAt(g.title.value, j))
      && e.value == Decimal(Group(g.title.value, i))
  {
    if g.episodeNumber.None? && g.part.Present? then g.part.held
    else if g.episodeNumber.None? && Truthy(g.title) then ToInt(PartNumber(g.title.value))
    else g.episodeNumber
  }

  /** `episodes`: the length of `episodeList` whenever that key is present,
      even an empty list; otherwise one if an episode resolves (episode 0
      included) and zero if none does. */
  function Episodes(g: Guess): (n: nat)
    ensures g.episodeList.Some? ==> n == |g.episodeList.value|
    ensures g.episodeList.None? ==> n <= 1 && (n == 1 <==> Episode(g).Some?)
  {
    match g.episodeList
    case Some(list) => |list|
    case None => if Episode(g).Some? then 1 else 0
  }

  /** "Part N" releases: with no episode number and no `part` key, a title
      that is "Part " followed by the decimal text of n resolves to episode n,
      and counts as one episode. */
  lemma PartTitleRoundTrip(g: Guess, n: nat)
    requires g.episodeNumber.None? && g.part.Absent? && g.episodeList.None?
    requires g.title == Some("Part " + ShowNat(n))
    ensures Episode(g) == Some(n)
    ensures Episodes(g) == 1
  {
    var digits := ShowNat(n);
    var t := "Part " + digits;
    assert t[5..] == digits;
    assert PartMatchAt(t, 0);
    assert FindPart(t, 0) == Some(0);
    assert GroupStart(t, 0) == 5;
    DigitRunOfDigits(digits);
    assert t[5..5 + |digits|] == digits;
    DecimalShowNat(n);
  }

  /** Examples: a `part` of 2 gives episode 2; a title
      "Show Part 3" gives episode 3; nothing at all gives no episode. */
  lemma EpisodeExamples()
    ensures Episode(Empty.(part := Present(Some(2)))) == Some(2)
    ensures Episode(Empty.(title := Some("Show Part 3"))) == Some(3)
    ensures Episode(Empty) == None
  {
    var g := Empty.(title := Some("Show Part 3"));
    assert Episode(g) == Some(3) by {
      ExamplePartTitle();
      assert Truthy(g.title);
    }
  }

  lemma ExamplePartTitle()
    ensures PartNumber("Show Part 3") == Some(3)
  {
    var t := "Show Part 3";
    ExampleFindPart(t);
    ExampleGroup(t);
  }

  lemma ExampleFindPart(t: string)
    requires t == "Show Part 3"
    ensures FindPart(t, 0) == Some(5)
  {
    assert PartMatchAt(t, 5);
    assert forall j: nat :: j < 5 ==> !PartMatchAt(t, j);
  }

  lemma ExampleGroup(t: string)
    requires t == "Show Part 3"
    ensures PartMatchAt(t, 5) && Group(t, 5) == "3"
  {
    assert PartMatchAt(t, 5);
    assert GroupStart(t, 5) == 10;
    assert t[10..] == "3";
  }

  // ---------------------------------------------------------------------
  // Air date

  /** `date(1970, 1, 1).toordinal()`. */
  const Epoch: int := 719163

  /** `date`: the air date only when it lies between 1970-01-01 and
      tomorrow, both included. */
  function Date(g: Guess, today: int): (d: Option<int>)
    ensures d.Some? <==> g.date.Some? && Epoch <= g.date.value <= today + 1
    ensures d.Some? ==> d == g.date
  {
    match g.date
    case None => None
    case Some(day) =>
      if day > today + 1 then None
      else if day < Epoch then None
      else Some(day)
  }

  /** A later clock never rejects a date an earlier one accepted. */
  lemma DateAcceptedLater(g: Guess, today: int, later: int)
    requires today <= later
    requires Date(g, today).Some?
    ensures Date(g, later) == Date(g, today)
  {
  }

  /** Examples: the day after tomorrow and 1969-12-31 are
      rejected, today is kept. */
  lemma DateExamples(today: int)
    requires today >= Epoch
    ensures Date(Empty.(date := Some(today + 2)), today) == None
    ensures Date(Empty.(date := Some(Epoch - 1)), today) == None
    ensures Date(Empty.(date := Some(today)), today) == Some(today)
  {
  }

  // ---------------------------------------------------------------------
  // Season inference

  /** A letter other than v/V in the text matched for the episode number. */
  predicate HasSeasonLetter(raw: string)
  {
    exists i :: 0 <= i < |raw| && IsAlpha(raw[i]) && Lower(raw[i]) != 'v'
  }

  function ScanSeasonLetter(raw: string): (found: bool)
    ensures found <==> HasSeasonLetter(raw)
  {
    if |raw| == 0 then false
    else if IsAlpha(raw[0]) && Lower(raw[0]) != 'v' then true
    else
      assert forall i :: 1 <= i < |raw| ==> raw[i] == raw[1..][i - 1];
      ScanSeasonLetter(raw[1..])
  }

  /** The episode is truthy: present and not zero. */
  predicate HasEpisode(g: Guess)
  {
    Episode(g).Some? && Episode(g).value != 0
  }

  /** `parsed_season`: an explicit season is kept as it is; otherwise season 1
      is inferred exactly when a non-zero episode resolves, seasonless
      parsing is off, and either a `part` key is present or the raw episode
      text holds a letter other than v; otherwise there is no season. */
  function ParsedSeason(g: Guess, allowSeasonless: bool): (s: Option<int>)
    ensures g.season.Some? ==> s == g.season
    ensures g.season.None? ==> s.None? || s == Some(1)
    ensures g.season.None? ==>
      (s == Some(1) <==>
        && HasEpisode(g)
        && !allowSeasonless
        && (g.part.Present? || (g.episodeRaw.Some? && HasSeasonLetter(g.episodeRaw.value))))
  {
    if g.season.None? && HasEpisode(g) && !allowSeasonless then
      if g.part.Present? then Some(1)
      else if Truthy(g.episodeRaw) && ScanSeasonLetter(g.episodeRaw.value) then Some(1)
      else g.season
    else g.season
  }

  /** Examples: raw episode text "E03b" with no explicit season
      gives season 1, whereas a version marker "3v2" alone does not. */
  lemma ParsedSeasonExamples()
    ensures ParsedSeason(Empty.(episodeNumber := Some(3), episodeRaw := Some("E03b")), false) == Some(1)
    ensures ParsedSeason(Empty.(episodeNumber := Some(3), episodeRaw := Some("3v2")), false) == None
    ensures ParsedSeason(Empty.(episodeNumber := Some(3), episodeRaw := Some("E03b")), true) == None
  {
    assert IsAlpha("E03b"[0]) && Lower("E03b"[0]) != 'v';
    var raw := "3v2";
    assert !IsAlpha(raw[0]) && Lower(raw[1]) == 'v' && !IsAlpha(raw[2]);
  }

  // ---------------------------------------------------------------------
  // regexp id, special, country

  /** `regexp_id`: a list of groups is joined with "-"; a single value is
      returned as it is. */
  function RegexpIdText(g: Guess): (r: Option<string>)
    ensures r.Some? <==> g.regexpId.Some?
    ensures g.regexpId.Some? && g.regexpId.value.IdText? ==> r == Some(g.regexpId.value.text)
  {
    match g.regexpId
    case None => None
    case Some(IdList(groups)) => Some(Join(groups, '-'))
    case Some(IdText(text)) => Some(text)
  }

  /** The joined id splits back into its groups when no group holds a hyphen. */
  lemma RegexpIdRoundTrip(g: Guess)
    requires g.regexpId.Some? && g.regexpId.value.IdList?
    requires |g.regexpId.value.groups| > 0
    requires forall i :: 0 <= i < |g.regexpId.value.groups| ==> '-' !in g.regexpId.value.groups[i]
    ensures SplitOn(RegexpIdText(g).value, '-') == g.regexpId.value.groups
  {
    SplitJoin(g.regexpId.value.groups, '-');
  }

  /** Examples: ["a", "b"] gives "a-b", "x" gives "x", none gives none. */
  lemma RegexpIdExamples()
    ensures RegexpIdText(Empty.(regexpId := Some(IdList(["a", "b"])))) == Some("a-b")
    ensures RegexpIdText(Empty.(regexpId := Some(IdText("x")))) == Some("x")
    ensures RegexpIdText(Empty) == None
  {
    assert ["a", "b"][1..] == ["b"];
    assert Join(["a", "b"], '-') == "a" + "-" + "b";
    assert "a" + "-" + "b" == "a-b";
  }

  /** `title.lower().strip() == 'special'`. */
  predicate IsSpecialTitle(title: string)
  {
    Strip(LowerString(title), IsSpace) == "special"
  }

  /** `special`: non-empty episode details, or a title that reads "special". */
  function Special(g: Guess): (b: bool)
    ensures b <==> (Truthy(g.episodeDetails) || (g.title.Some? && IsSpecialTitle(g.title.value)))
  {
    Truthy(g.episodeDetails) || (Truthy(g.title) && IsSpecialTitle(g.title.value))
  }

  predicate AllSpace(s: string)
  {
    forall i :: 0 <= i < |s| ==> IsSpace(s[i])
  }

  /** A title reads "special" exactly when it is that word, in any ASCII
      case, with nothing but whitespace around it. */
  lemma SpecialTitleIff(title: string)
    ensures IsSpecialTitle(title) <==>
      exists a: nat, b: nat :: a <= b <= |title| && AllSpace(title[..a]) && AllSpace(title[b..])
                            && LowerString(title[a..b]) == "special"
  {
    if IsSpecialTitle(title) {
      var a, b := SpecialTitleSplits(title);
    }
    if exists a: nat, b: nat :: a <= b <= |title| && AllSpace(title[..a]) && AllSpace(title[b..])
                            && LowerString(title[a..b]) == "special" {
      var a: nat, b: nat :| a <= b <= |title| && AllSpace(title[..a]) && AllSpace(title[b..])
                         && LowerString(title[a..b]) == "special";
      SpecialTitleFromSplit(title, a, b);
    }
  }

  lemma LowerKeepsSpaces(s: string)
    ensures forall i :: 0 <= i < |s| ==> (IsSpace(LowerString(s)[i]) <==> IsSpace(s[i]))
  {
    forall i | 0 <= i < |s|
      ensures IsSpace(LowerString(s)[i]) <==> IsSpace(s[i])
    {
      CaseMappingKeepsClass(s[i]);
    }
  }

  lemma SpecialTitleSplits(title: string) returns (a: nat, b: nat)
    requires IsSpecialTitle(title)
    ensures a <= b <= |title| && AllSpace(title[..a]) && AllSpace(title[b..])
    ensures LowerString(title[a..b]) == "special"
  {
    var u := LowerString(title);
    LowerKeepsSpaces(title);
    a, b := StripSlice(u, IsSpace);
    assert LowerString(title[a..b]) == u[a..b];
    assert forall i :: 0 <= i < a ==> title[..a][i] == title[i];
    assert forall i :: 0 <= i < |title| - b ==> title[b..][i] == title[b + i];
  }

  lemma SpecialTitleFromSplit(title: string, a: nat, b: nat)
    requires a <= b <= |title| && AllSpace(title[..a]) && AllSpace(title[b..])
    requires LowerString(title[a..b]) == "special"
    ensures IsSpecialTitle(title)
  {
    var u := LowerString(title);
    LowerKeepsSpaces(title);
    assert u[a..b] == LowerString(title[a..b]);
    assert u == u[..a] + "special" + u[b..];
    assert AllSpace(u[..a]);
    assert AllSpace(u[b..]);
    assert u == u[..a] + ("special" + u[b..]);
    TrimStartSkipsPrefix(u[..a], "special" + u[b..], IsSpace);
    assert TrimStart("special" + u[b..], IsSpace) == "special" + u[b..];
    TrimEndSkipsSuffix("special", u[b..], IsSpace);
    assert TrimEnd("special", IsSpace) == "special";
  }

  /** `country`: the text of the value whenever the key is present, which
      for a present None is the text "None". */
  function Country(g: Guess): (c: Option<string>)
    ensures c.Some? <==> g.country.Present?
    ensures g.country == Present(None) ==> c == Some("None")
    ensures g.country.Get().Some? ==> c == g.country.Get()
  {
    match g.country
    case Absent => None
    case Present(None) => Some("None")
    case Present(Some(v)) => Some(v)
  }
}
