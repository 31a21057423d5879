# Guessit normalization layer, modelled in Dafny

FlexGet's guessit parser turns the attribute bag that the `guessit`
tokenizer returns for a release name into one of four typed descriptors:
a plain entry, a video, a series episode or a movie. It then derives the
normalized values the rest of FlexGet reads from that descriptor:

- the legacy proper/version score;
- the legacy quality token;
- the episode number with its "part" fallbacks, and the episode count;
- a sanity window on the air date;
- season inference;
- the regexp id, the special-episode flag and the country;
- the tag flags (3D, screener, complete).

The parser around the descriptors:

- builds the tokenizer options from the caller's configuration;
- adds the hint name as an attended series;
- picks the descriptor variant;
- cleans a hint name into a display name.

The model is a set of pure functions over an immutable `Guess` record:

| file | module | what it models |
|---|---|---|
| `text.dfy` | `Text` | the ASCII string operations the source relies on: `split`, `join`, `strip`, `capwords`, `int`/`str` of decimals |
| `guess.dfy` | `Guess` | the tokenizer result |
| `entry.dfy` | `GuessitEntry` | the base descriptor |
| `quality.dfy` | `GuessitQuality` | the quality view |
| `video.dfy` | `GuessitVideo` | the video view and its 3D flag |
| `serie.dfy` | `GuessitSerie` | the series-episode accessors |
| `parser.dfy` | `GuessitParser` | variant dispatch, options, the series hint, name cleanup |

A key of the bag whose mere presence matters is a `Field`: `type`, `part`
and `country`. A `Field` is either absent or present with a value that may
itself be None. Every other key is an `Option`.

The source is Python 2: `len(filter(...))` on line 189 only works there.
So character classes are ASCII:

- `\s` is tab through carriage return plus space;
- `split()`/`strip()` whitespace is that of `unicode` text, which is what the tokenizer returns: 9–13 and 28–32 (a byte `str` has only 9–13 and 32);
- `re.IGNORECASE` and `lower()` fold only A–Z.

Dates are proleptic Gregorian day ordinals, as `date.toordinal()` gives
them. The current day is a parameter.

## Where a natural reading and the code differ

The model follows the code in each case.

- `proper_count`, version 0. One would expect version 0 to count like a
  missing version, 0. Line 32 maps every present version that is not
  positive to −1. `GuessitEntry.ProperCountExamples` pins this.
- `clean_input_name`, an example. One would expect
  `Show.Name_(2020)[HD] - Pilot` to clean to `Show Name`. The code only cuts
  the text after " - ", collapses runs and capitalizes. The year and the tag
  stay: the result is `Show Name 2020 Hd`, proved in
  `GuessitParser.CleanInputNameExample`.

## Model

| member | source | states |
|---|---|---|
| GuessitEntry.ProperCount | flexget/utils/parsers/parser_guessit.py:26-38 | once the propers are removed and the Fastsub penalty undone, the score is never below −1; it is −1 exactly for a present version ≤ 0, and 0 exactly for no version or version 1 |
| GuessitEntry.VersionTerm | flexget/utils/parsers/parser_guessit.py:29-35 | the version term is never below −1; it is −1 exactly for a present version ≤ 0, 0 exactly for no version or version 1, and one below the version for any positive version |
| GuessitEntry.FastsubFlag | flexget/utils/parsers/parser_guessit.py:37 | the Fastsub flag reads only its own tag: adding a tag turns it on exactly when the tag is Fastsub, removing one turns it off exactly then, and no tags means no flag |
| GuessitEntry.VersionRanking | flexget/utils/parsers/parser_guessit.py:29-35 | each version above 1 ranks one step higher; a missing version ranks like v1; a present non-positive version ranks one step below a missing one |
| GuessitEntry.ProperRanking | flexget/utils/parsers/parser_guessit.py:36-38 | each proper adds exactly one; a missing proper count ranks like zero |
| GuessitEntry.FastsubPenalty | flexget/utils/parsers/parser_guessit.py:37-38 | the Fastsub tag costs exactly five; no other tag changes the score |
| GuessitEntry.ProperCountExamples | flexget/utils/parsers/parser_guessit.py:29-38 | version 0 and version −3 score −1; a lone Fastsub scores −5; v2 with one proper scores 2 |
| GuessitQuality.WithoutHyphens | flexget/utils/parsers/parser_guessit.py:87 | the result holds no hyphen and keeps every other character exactly as often as the input has it; a hyphen-free input comes back unchanged |
| GuessitQuality.WithoutHyphensConcat | flexget/utils/parsers/parser_guessit.py:87 | hyphen removal works piece by piece, so the kept characters stay in their order |
| GuessitQuality.Resolution | flexget/utils/parsers/parser_guessit.py:86 | a non-empty screen size is the resolution; without one, a resolution exists exactly when HR is tagged, and then it is "HR"; a resolution is never empty |
| GuessitQuality.SourceTerm | flexget/utils/parsers/parser_guessit.py:87 | a source term exists exactly for a non-empty format; it holds no hyphen and keeps every other character of the format as often as it occurs |
| GuessitQuality.AudioTerm | flexget/utils/parsers/parser_guessit.py:90-93 | Dolby Digital is always "dd5.1"; with no codec the term is "dd5.1" for 5.1 channels and missing otherwise; any other codec passes through |
| GuessitQuality.Kept | flexget/utils/parsers/parser_guessit.py:95 | the filter keeps only non-empty terms, keeps the value of every non-empty term, never more than it was given, and keeps none exactly when no term is a non-empty string |
| GuessitQuality.KeptEvery | flexget/utils/parsers/parser_guessit.py:95 | no non-empty term is lost: each one's value is among the kept terms |
| GuessitQuality.KeptConcat | flexget/utils/parsers/parser_guessit.py:95 | the filter works piece by piece and keeps a single term exactly when it is non-empty, so it keeps the non-empty terms in their order and nothing else |
| GuessitQuality.LegacyToken | flexget/utils/parsers/parser_guessit.py:85-95 | the token is empty exactly when resolution, source, codec and audio are all missing or empty |
| GuessitQuality.LegacyTokenSplits | flexget/utils/parsers/parser_guessit.py:95 | if at least one term is non-empty and no term contains a space, splitting the token on spaces gives back exactly the kept terms, in resolution, source, codec, audio order |
| GuessitQuality.LegacyTokenExample | flexget/utils/parsers/parser_guessit.py:85-95 | 1080p Blu-ray x264 gives "1080p Bluray x264"; 5.1 channels with no codec give "dd5.1" |
| GuessitQuality.ScreenerFlag | flexget/utils/parsers/parser_guessit.py:57-59 | the screener flag reads only its own tag: adding a tag turns it on exactly when the tag is Screener, removing one turns it off exactly then, and no tags means no flag |
| GuessitVideo.Is3DFlag | flexget/utils/parsers/parser_guessit.py:106-108 | the 3D flag reads only its own tag: adding a tag turns it on exactly when the tag is 3D, removing one turns it off exactly then, and no tags means no flag |
| GuessitSerie.CompleteFlag | flexget/utils/parsers/parser_guessit.py:152-154 | the complete flag reads only its own tag: adding a tag turns it on exactly when the tag is Complete, removing one turns it off exactly then, and no tags means no flag |
| GuessitSerie.FindPart | flexget/utils/parsers/parser_guessit.py:139 | the search returns the leftmost position at or after the start where `part\s?\d` matches, ignoring case; None means no match at any later position |
| GuessitSerie.PartNumber | flexget/utils/parsers/parser_guessit.py:182-184 | a number exists exactly when the pattern matches somewhere; it is the decimal value of the whole digit run at the leftmost match |
| GuessitSerie.Episode | flexget/utils/parsers/parser_guessit.py:176-185 | the episode number wins; otherwise a present `part` key's value, even None; otherwise the title's leftmost "part N" number, present exactly when the title matches |
| GuessitSerie.Episodes | flexget/utils/parsers/parser_guessit.py:187-189 | a present episode list gives its length, even 0; otherwise 1 exactly when an episode resolves (episode 0 included), else 0 |
| GuessitSerie.PartTitleRoundTrip | flexget/utils/parsers/parser_guessit.py:179-184 | "Part " followed by the decimal text of n resolves to episode n and counts as one episode |
| GuessitSerie.EpisodeExamples | flexget/utils/parsers/parser_guessit.py:177-185 | part 2 gives episode 2; title "Show Part 3" gives 3; an empty guess gives none |
| GuessitSerie.Date | flexget/utils/parsers/parser_guessit.py:191-200 | a date is returned, unchanged, exactly when it lies from 1970-01-01 through tomorrow, both ends included |
| GuessitSerie.DateAcceptedLater | flexget/utils/parsers/parser_guessit.py:195-196 | a date accepted today is still accepted, unchanged, on any later day |
| GuessitSerie.DateExamples | flexget/utils/parsers/parser_guessit.py:192-200 | the day after tomorrow and 1969-12-31 are rejected; today is kept |
| GuessitSerie.ScanSeasonLetter | flexget/utils/parsers/parser_guessit.py:209 | the scan is true exactly when the raw episode text has a letter other than v or V |
| GuessitSerie.ParsedSeason | flexget/utils/parsers/parser_guessit.py:202-211 | an explicit season is kept; otherwise season 1 comes exactly from a non-zero episode, seasonless parsing off, and a `part` key or a season letter in the raw text; anything else gives no season |
| GuessitSerie.ParsedSeasonExamples | flexget/utils/parsers/parser_guessit.py:203-211 | "E03b" infers season 1; the version marker in "3v2" does not; allowing seasonless parsing suppresses inference |
| GuessitSerie.RegexpIdText | flexget/utils/parsers/parser_guessit.py:156-162 | a regexp id is reported exactly when the guess holds one, and a single (non-list) id is reported unchanged |
| GuessitSerie.RegexpIdRoundTrip | flexget/utils/parsers/parser_guessit.py:159-160 | for a non-empty list of groups none of which holds a hyphen, the hyphen-joined id splits back into exactly its groups |
| GuessitSerie.RegexpIdExamples | flexget/utils/parsers/parser_guessit.py:157-162 | ["a", "b"] gives "a-b"; a single "x" stays "x"; no id gives none |
| GuessitSerie.Special | flexget/utils/parsers/parser_guessit.py:168-170 | an episode is special exactly when it has non-empty episode details or its title reads "special" |
| GuessitSerie.SpecialTitleIff | flexget/utils/parsers/parser_guessit.py:170 | a title reads "special" exactly when it is that word in any ASCII case with only whitespace around it |
| GuessitSerie.Country | flexget/utils/parsers/parser_guessit.py:148-150 | a country is reported exactly when the key is present; a present None reads "None"; a present value is reported as the text it holds (see "## Left out" on `str()`) |
| GuessitParser.KindOf | flexget/utils/parsers/parser_guessit.py:224-231 | a series, movie or video comes only from its own type name; every other name, None included, gives the base entry |
| GuessitParser.KindOfTypeName | flexget/utils/parsers/parser_guessit.py:224-231 | dispatch and type names are inverse: each variant comes from its own name, and a name survives the round trip exactly when it is None or one of the three known names |
| GuessitParser.EffectiveType | flexget/utils/parsers/parser_guessit.py:223 | the guess's `type` decides whenever the key is present, even when it holds None; the declared type decides only when the key is missing |
| GuessitParser.BuildParsed | flexget/utils/parsers/parser_guessit.py:222-231 | the guess, input and name are kept; the result is a series, movie or video exactly when the deciding type is "episode", "movie" or "video"; anything else gives the base entry |
| GuessitParser.GuessTypeWins | flexget/utils/parsers/parser_guessit.py:223 | if the guess has a `type` key, the declared type changes nothing; if not, the declared type alone decides |
| GuessitParser.ParseBuildAsWritten | flexget/utils/parsers/parser_guessit.py:263 | as written, a guess without a `type` key always gives the base entry and a guess with one gives that type's variant; the result is the corrected build with no declared type; the display name is filtered as in the corrected build |
| GuessitParser.DeclaredTypeIgnoredAsWritten | flexget/utils/parsers/parser_guessit.py:263 | as written, the declared type never changes the result |
| GuessitParser.DeclaredTypeLostAsWritten | flexget/utils/parsers/parser_guessit.py:259-263 | as written, an episode declared for a guess with no type comes back as the base entry; the fallback it was meant for would give a series |
| GuessitParser.TypeMap | flexget/utils/parsers/parser_guessit.py:244 | episode, video and movie map to "episode", "video" and "movie", the table of line 220; each name leads dispatch back to a video variant; no declared type maps to None |
| GuessitParser.DisplayName | flexget/utils/parsers/parser_guessit.py:263 | the display name is never the input text itself: a name equal to the text becomes None, any other name is kept |
| GuessitParser.ParseBuild | flexget/utils/parsers/parser_guessit.py:244-263 | when the guess has no type, the mapped declared type picks the variant; otherwise the guess's type does; the input is kept; the name is kept unless it equals the input text, which gives None |
| GuessitParser.ParseBuildHonoursDeclared | flexget/utils/parsers/parser_guessit.py:220-231 | when the guess has no type, each declared parser type reaches the variant of its own name, always a video |
| GuessitParser.GuessitOptions | flexget/utils/parsers/parser_guessit.py:265-274 | the options are the configuration plus number preference, off exactly for `identified_by == 'ep'`, plus the attended group when `allow_groups` is truthy; every other key is unchanged |
| GuessitParser.GuessitOptionsIdempotent | flexget/utils/parsers/parser_guessit.py:265-274 | building options from built options changes nothing |
| GuessitParser.WithSeriesHint | flexget/utils/parsers/parser_guessit.py:248-250 | a non-empty name that differs from the text, with no truthy `strict_name`, becomes the only attended series; otherwise the options are untouched; no other key changes |
| GuessitParser.ParseOptions | flexget/utils/parsers/parser_guessit.py:243-250 | given the caller's configuration: number preference follows `identified_by`; the attended group is present exactly when configured or `allow_groups` is truthy; the attended series is present exactly when configured or the hint applies, and then holds just the name; a configured one is otherwise kept |
| GuessitParser.ReplacePunctuation | flexget/utils/parsers/parser_guessit.py:234 | the same length; each character of the class becomes a space; every other character is kept |
| GuessitParser.SeparatorFrom | flexget/utils/parsers/parser_guessit.py:236 | returns the leftmost " - " at or after the start; None means none exists |
| GuessitParser.BeforeSeparator | flexget/utils/parsers/parser_guessit.py:236 | the result is a prefix with no " - " starting inside it, followed by a " - " unless it is the whole text |
| GuessitParser.CollapseRuns | flexget/utils/parsers/parser_guessit.py:238 | the result is no longer than the input, holds no run character but the space, never has two spaces in a row, and does not start with a space when a run was already open |
| GuessitParser.CollapseRunsKeepsOthers | flexget/utils/parsers/parser_guessit.py:238 | every character outside the run class is kept exactly as often as the input has it |
| GuessitParser.CollapseRunsNoSeparator | flexget/utils/parsers/parser_guessit.py:238 | collapsing never creates a " - " in punctuation-free text that had none |
| GuessitParser.CollapseRunsIdentity | flexget/utils/parsers/parser_guessit.py:238 | text without punctuation or doubled spaces is left unchanged |
| GuessitParser.CollapseRunsConcat | flexget/utils/parsers/parser_guessit.py:238 | collapsing works piece by piece: the second piece continues in the run state the first one left |
| GuessitParser.CleanInputName | flexget/utils/parsers/parser_guessit.py:233-241 | the cleaned name holds none of the replaced punctuation; it is single-spaced with no whitespace at either end; every word is capitalized with the rest lower case |
| GuessitParser.CleanInputNameDropsTail | flexget/utils/parsers/parser_guessit.py:234-236 | everything from the leftmost " - " on is irrelevant: any tail gives the same name, and so does cutting the name just before the separator |
| GuessitParser.CleanInputNameCaseEquivalent | flexget/utils/parsers/parser_guessit.py:233-241 | a name whose only whitespace is the plain space, already free of punctuation, separators, doubled or outer spaces and outer dashes, comes out differing from itself in letter case only |
| GuessitParser.CleanInputNameFixedPoint | flexget/utils/parsers/parser_guessit.py:233-241 | such a name whose words are all capitalized is its own cleanup |
| GuessitParser.CleanInputNameIdempotent | flexget/utils/parsers/parser_guessit.py:233-241 | if a name's only whitespace is the plain space, cleaning it twice equals cleaning it once |
| GuessitParser.CleanInputNameTabCounterexample | flexget/utils/parsers/parser_guessit.py:233-241 | without that condition idempotence fails: "a -\tb" cleans to "A - B", and cleaning that again cuts at the " - " it now contains, giving "A" |
| GuessitParser.CleanInputNameExample | flexget/utils/parsers/parser_guessit.py:233-241 | `Show.Name_(2020)[HD] - Pilot` cleans to `Show Name 2020 Hd` |
| Text.WordsAreWords | flexget/utils/parsers/parser_guessit.py:240 | `split()` yields only non-empty words without whitespace |
| Text.WordsJoin | flexget/utils/parsers/parser_guessit.py:240 | `split()` of a space-join of words gives the words back |
| Text.SingleSpacedIsJoin | flexget/utils/parsers/parser_guessit.py:240 | single-spaced text is the space-join of its own words |
| Text.StripSlice | flexget/utils/parsers/parser_guessit.py:238 | `strip` keeps a slice of the text: everything before and after it is dropped characters, and its first and last characters are not |
| Text.CapWordsFacts | flexget/utils/parsers/parser_guessit.py:240 | `capwords` output is single-spaced; its words are the input's words capitalized; it differs from the space-joined words only in letter case |
| Text.CapWordsOfCapitalized | flexget/utils/parsers/parser_guessit.py:240 | single-spaced text whose words are all capitalized is unchanged by `capwords` |
| Text.CapWordsIdempotent | flexget/utils/parsers/parser_guessit.py:240 | `capwords` of a `capwords` result returns it unchanged |
| Text.DecimalShowNat | flexget/utils/parsers/parser_guessit.py:184 | `int` of the decimal text of n is n |

## Left out

- The `guessit` tokenizer itself, its transformer registration and its default options (lines 6-15). The guess is an input of the model.
- `qualities.Quality` and `old_assume_quality` (lines 95-96). The model stops at the token string handed to them.
- The second tokenizer pass on the cleaned hint name (lines 252-260). The model covers the cleanup and the options. The display name that pass recovers is tokenizer output, so `ParseBuild` takes it as a parameter and applies the filter of line 263 to it.
- The `deepcopy` of the options and the disabled transformers of that pass (lines 256-257). They only feed the tokenizer.
- Passthrough accessors that return one key of the guess as it is: group, properties, codec, profiles, sizes, languages, title, series, episode details, year, and `valid_strict`. They need no model. The `quality2` memo is caching only.
- The descriptor base classes from `parser_common`, and the keyword arguments forwarded to them. Those classes are not part of this model.
- Unicode: letters, case folding and whitespace are ASCII only (`isalpha`, `lower` and `strip` on non-ASCII text are not modelled).
- The clock: `Date` takes today's ordinal as a parameter.
- GuessitSerie.Country: the `str()` on line 150 is not modelled; the field holds the text `str()` gives the tokenizer's value, so the model reports that text unchanged.
- Byte strings: whitespace follows `unicode` text. A name given as a byte `str` would not treat characters 28–31 as whitespace in `split()`, `strip()` and `capwords`.
- GuessitSerie.Episodes: an `episodeList` key that is present but holds None is not modelled. The source would fail on `len(None)` there.
- GuessitEntry.ProperCount: a `properCount` key present with None is not modelled. The source would fail adding None to an integer.
- `other` held as a string rather than a collection is not modelled; there `in` would test for a substring. The model holds the tags as a set.
- GuessitSerie.ParsedSeason: the raw episode text is an input (`episodeRaw`). What the tokenizer's metadata holds when the episode came from a title "part N" is not modelled; a missing raw text reads as no season letter.
- GuessitParser.CleanInputNameIdempotent: this is stated only for names whose only whitespace is the plain space. Tabs and other whitespace survive the first pass and are only collapsed by `capwords`. GuessitParser.CleanInputNameTabCounterexample shows that the condition is needed.

## Findings

| source | as written | input that shows it | evidently intended | confidence | as-written member | corrected member |
|---|---|---|---|---|---|---|
| flexget/utils/parsers/parser_guessit.py:263 | `parse` hands the mapped type to `build_parsed` as the keyword `type`, which lands in `**kwargs` and leaves the parameter `type_` at None | a guess with no `type` key, with the caller declaring an episode: the result is the base entry | the declared type reaches `type_`, so that the fallback on line 223 gives a series episode | medium, not executed | GuessitParser.ParseBuildAsWritten | GuessitParser.ParseBuild |
