/**
 The parser entry points around the descriptors: variant dispatch, the
 tokenizer options built from the caller's configuration, the attended
 series hint, and the cleanup of a hint name.
 */
module GuessitParser {
  import opened Text
  import opened Guess

  // ---------------------------------------------------------------------
  // Descriptor variants and build_parsed

  /** The closed family of descriptors. */
  datatype Kind = Entry | Video | Serie | Movie

  /** Series episodes and movies are videos; the base entry is not. */
  predicate IsVideo(k: Kind)
  {
    k != Entry
  }

  /** The dispatch table on the type name: a variant other than the base
      entry is reached from its own type name only, and every other name,
      None included, gives the base entry. */
  function KindOf(t: Option<string>): (k: Kind)
    ensures k != Entry ==> TypeName(k) == t
    ensures k == Entry <==> t != Some("episode") && t != Some("movie") && t != Some("video")
  {
    if t == Some("episode") then Serie
    else if t == Some("movie") then Movie
    else if t == Some("video") then Video
    else Entry
  }

  /** The type name each variant is built for; the base entry has none. */
  function TypeName(k: Kind): Option<string>
  {
    match k
    case Entry => None
    case Video => Some("video")
    case Serie => Some("episode")
    case Movie => Some("movie")
  }

  /** The dispatch table and the type names are inverse: each variant is
      reached from exactly its own name, and a name leads back to itself
      exactly when it is one of the three known names or None. */
  lemma KindOfTypeName(k: Kind, t: Option<string>)
    ensures KindOf(TypeName(k)) == k
    ensures TypeName(KindOf(t)) == t <==>
      t == None || t == Some("episode") || t == Some("movie") || t == Some("video")
  {
  }

  /** One built descriptor: its variant over the guess, the input text and
      the display name. */
  datatype Parsed = Parsed(kind: Kind, data: string, name: Option<string>, guess: Guess)

  /** The type that decides the variant: the guess's own `type` whenever the
      key is present, even when it holds None; the declared type otherwise. */
  function EffectiveType(g: Guess, declared: Option<string>): (t: Option<string>)
    ensures g.mediaType.Present? ==> t == g.mediaType.Get()
    ensures g.mediaType.Absent? ==> t == declared
    ensures g.mediaType == Present(None) ==> t == None
  {
    match g.mediaType
    case Present(t) => t
    case Absent => declared
  }

  /** `build_parsed`: never fails; an unknown or missing type gives the base entry. */
  function BuildParsed(g: Guess, input: string, declared: Option<string>, name: Option<string>): (p: Parsed)
    ensures p.guess == g && p.data == input && p.name == name
    ensures p.kind == Serie <==> EffectiveType(g, declared) == Some("episode")
    ensures p.kind == Movie <==> EffectiveType(g, declared) == Some("movie")
    ensures p.kind == Video <==> EffectiveType(g, declared) == Some("video")
  {
    Parsed(KindOf(EffectiveType(g, declared)), input, name, g)
  }

  /** The tokenizer's classification always wins: once the guess holds a
      `type` key, the declared type changes nothing; without one, the
      declared type alone decides. */
  lemma GuessTypeWins(g: Guess, input: string, d1: Option<string>, d2: Option<string>, name: Option<string>)
    ensures g.mediaType.Present? ==>
      BuildParsed(g, input, d1, name).kind == BuildParsed(g, input, d2, name).kind
    ensures g.mediaType.Absent? ==>
      BuildParsed(g, input, d1, name).kind == KindOf(d1)
  {
  }

  // ---------------------------------------------------------------------
  // The declared type as parse passes it

  /** The parser's own type constants, as declared by the caller. */
  datatype ParserType = ParserEpisode | ParserVideo | ParserMovie

  /** `self._type_map.get(type_)`: a declared parser type maps to the name
      of a video variant, a missing one to None. */
  function TypeMap(declared: Option<ParserType>): (t: Option<string>)
    ensures t.Some? <==> declared.Some?
    ensures declared == Some(ParserEpisode) ==> t == Some("episode")
    ensures declared == Some(ParserVideo) ==> t == Some("video")
    ensures declared == Some(ParserMovie) ==> t == Some("movie")
    ensures declared.Some? ==> IsVideo(KindOf(t)) && TypeName(KindOf(t)) == t
  {
    match declared
    case None => None
    case Some(ParserEpisode) => Some("episode")
    case Some(ParserVideo) => Some("video")
    case Some(ParserMovie) => Some("movie")
  }

  /** The display name `parse` hands to the build: the name, unless it is
      the input text itself. */
  function DisplayName(data: string, name: Option<string>): (d: Option<string>)
    ensures d.Some? ==> d.value != data
    ensures name.Some? && name.value != data ==> d == name
    ensures name.None? || name == Some(data) ==> d.None?
  {
    if name == Some(data) then None else name
  }

  /** The final build in `parse` as written: the mapped type goes in as the
      keyword `type`, which lands among the extra keyword arguments, so the
      `type_` parameter that the fallback reads stays None. */
  function ParseBuildAsWritten(g: Guess, data: string, declared: Option<ParserType>, name: Option<string>): (p: Parsed)
    ensures g.mediaType.Absent? ==> p.kind == Entry
    ensures g.mediaType.Present? ==> p.kind == KindOf(g.mediaType.held)
    ensures p == ParseBuild(g, data, None, name)
    ensures p.guess == g && p.data == data && p.name == DisplayName(data, name)
  {
    BuildParsed(g, data, None, DisplayName(data, name))
  }

  /** As written, the declared type never changes the result. */
  lemma DeclaredTypeIgnoredAsWritten(g: Guess, data: string, d1: Option<ParserType>, d2: Option<ParserType>, name: Option<string>)
    ensures ParseBuildAsWritten(g, data, d1, name) == ParseBuildAsWritten(g, data, d2, name)
  {
  }

  /** As written, a guess without a `type` key always gives the base entry,
      even for a caller that declared an episode. */
  lemma DeclaredTypeLostAsWritten()
    ensures ParseBuildAsWritten(Empty, "x", Some(ParserEpisode), None).kind == Entry
    ensures BuildParsed(Empty, "x", TypeMap(Some(ParserEpisode)), None).kind == Serie
  {
  }

  /** The final build of `parse` with the declared type handed to the
      fallback it was meant for. */
  function ParseBuild(g: Guess, data: string, declared: Option<ParserType>, name: Option<string>): (p: Parsed)
    ensures g.mediaType.Absent? ==> p.kind == KindOf(TypeMap(declared))
    ensures g.mediaType.Present? ==> p.kind == KindOf(g.mediaType.held)
    ensures p.guess == g && p.data == data
    ensures p.name.Some? ==> p.name.value != data
    ensures name.Some? && name.value != data ==> p.name == name
    ensures name.None? || name == Some(data) ==> p.name.None?
  {
    BuildParsed(g, data, TypeMap(declared), DisplayName(data, name))
  }

  /** Each declared parser type reaches its own variant when the guess is silent. */
  lemma ParseBuildHonoursDeclared(g: Guess, data: string, name: Option<string>, t: ParserType)
    requires g.mediaType.Absent?
    ensures TypeName(ParseBuild(g, data, Some(t), name).kind) == TypeMap(Some(t))
    ensures IsVideo(ParseBuild(g, data, Some(t), name).kind)
  {
  }

  // ---------------------------------------------------------------------
  // Tokenizer options

  /** A configuration or option value. */
  datatype Value = VNone | VBool(b: bool) | VInt(n: int) | VStr(s: string) | VList(items: seq<string>)

  /** Python truthiness. */
  predicate IsTruthy(v: Value)
  {
    match v
    case VNone => false
    case VBool(b) => b
    case VInt(n) => n != 0
    case VStr(s) => |s| > 0
    case VList(items) => |items| > 0
  }

  /** `options.get(key)`. */
  function Lookup(o: map<string, Value>, key: string): Value
  {
    if key in o then o[key] else VNone
  }

  const PreferNumber := "episode_prefer_number"
  const AttendedGroup := "attended_group"
  const AttendedSeries := "attended_series"

  /** `_guessit_options`: a copy of the configuration in which number
      preference is off exactly for `identified_by == 'ep'`, and a truthy
      `allow_groups` is also handed over as the attended group; every other
      key is kept as it is. */
  function GuessitOptions(config: map<string, Value>): (o: map<string, Value>)
    ensures o.Keys == config.Keys + {PreferNumber}
                    + (if IsTruthy(Lookup(config, "allow_groups")) then {AttendedGroup} else {})
    ensures o[PreferNumber] == VBool(Lookup(config, "identified_by") != VStr("ep"))
    ensures IsTruthy(Lookup(config, "allow_groups")) ==> o[AttendedGroup] == config["allow_groups"]
    ensures forall k :: k in config && k != PreferNumber
                        && (k != AttendedGroup || !IsTruthy(Lookup(config, "allow_groups")))
                        ==> o[k] == config[k]
  {
    var o := config[PreferNumber := VBool(Lookup(config, "identified_by") != VStr("ep"))];
    if IsTruthy(Lookup(config, "allow_groups")) then o[AttendedGroup := config["allow_groups"]] else o
  }

  /** Building the options from options already built changes nothing. */
  lemma GuessitOptionsIdempotent(config: map<string, Value>)
    ensures GuessitOptions(GuessitOptions(config)) == GuessitOptions(config)
  {
    var o := GuessitOptions(config);
    assert Lookup(o, "identified_by") == Lookup(config, "identified_by");
    assert Lookup(o, "allow_groups") == Lookup(config, "allow_groups");
  }

  /** The hint condition of `parse`: a non-empty name that differs from the
      text, and no truthy `strict_name`. */
  predicate WantsSeriesHint(options: map<string, Value>, data: string, name: Option<string>)
  {
    name.Some? && |name.value| > 0 && name.value != data && !IsTruthy(Lookup(options, "strict_name"))
  }

  /** Lines 248-250 of `parse`: the name becomes the only attended series
      when the hint condition holds; otherwise the options are untouched.
      No other key ever changes. */
  function WithSeriesHint(options: map<string, Value>, data: string, name: Option<string>): (o: map<string, Value>)
    ensures WantsSeriesHint(options, data, name) ==>
      AttendedSeries in o && o[AttendedSeries] == VList([name.value])
    ensures !WantsSeriesHint(options, data, name) ==> o == options
    ensures o.Keys - {AttendedSeries} == options.Keys - {AttendedSeries}
    ensures forall k :: k in options && k != AttendedSeries ==> k in o && o[k] == options[k]
  {
    if name.Some? && |name.value| > 0 && name.value != data then
      if !IsTruthy(Lookup(options, "strict_name")) then options[AttendedSeries := VList([name.value])]
      else options
    else options
  }

  /** The options `parse` hands to the tokenizer, stated against the
      caller's configuration: number preference, attended group and
      attended series each follow their own key, and the hint never
      disturbs the other two. */
  lemma ParseOptions(config: map<string, Value>, data: string, name: Option<string>)
    ensures var o := WithSeriesHint(GuessitOptions(config), data, name);
      && o[PreferNumber] == VBool(Lookup(config, "identified_by") != VStr("ep"))
      && (AttendedGroup in o <==> AttendedGroup in config || IsTruthy(Lookup(config, "allow_groups")))
      && (AttendedSeries in o <==> AttendedSeries in config || WantsSeriesHint(config, data, name))
      && (WantsSeriesHint(config, data, name) ==> o[AttendedSeries] == VList([name.value]))
      && (!WantsSeriesHint(config, data, name) && AttendedSeries in config ==>
            o[AttendedSeries] == config[AttendedSeries])
  {
    var opts := GuessitOptions(config);
    assert Lookup(opts, "strict_name") == Lookup(config, "strict_name");
  }

  // ---------------------------------------------------------------------
  // clean_input_name

  /** The class `[_.,\[\]\(\):]`. */
  predicate IsNamePunctuation(c: char)
  {
    c == '_' || c == '.' || c == ',' || c == '[' || c == ']' || c == '(' || c == ')' || c == ':'
  }

  /** The class `[\._\(\) ]` whose runs collapse to one space. */
  predicate IsRunChar(c: char)
  {
    c == '.' || c == '_' || c == '(' || c == ')' || c == ' '
  }

  predicate IsDashOrSpace(c: char)
  {
    c == ' ' || c == '-'
  }

  predicate NoPunctuation(s: string)
  {
    forall i :: 0 <= i < |s| ==> !IsNamePunctuation(s[i])
  }

  function ReplacePunctuation(s: string): (r: string)
    ensures |r| == |s| && NoPunctuation(r)
    ensures forall i :: 0 <= i < |s| && !IsNamePunctuation(s[i]) ==> r[i] == s[i]
    ensures forall i :: 0 <= i < |s| && IsNamePunctuation(s[i]) ==> r[i] == ' '
  {
    seq(|s|, i requires 0 <= i < |s| => if IsNamePunctuation(s[i]) then ' ' else s[i])
  }

  /** The separator " - " starts at i. */
  predicate SeparatorAt(s: string, i: nat)
  {
    i + 3 <= |s| && s[i] == ' ' && s[i + 1] == '-' && s[i + 2] == ' '
  }

  function SeparatorFrom(s: string, from: nat): (r: Option<nat>)
    ensures r.Some? ==> from <= r.value && SeparatorAt(s, r.value)
    ensures r.Some? ==> forall j: nat :: from <= j < r.value ==> !SeparatorAt(s, j)
    ensures r.None? ==> forall j: nat :: from <= j ==> !SeparatorAt(s, j)
    decreases |s| - from
  {
    if from >= |s| then None
    else if SeparatorAt(s, from) then Some(from)
    else SeparatorFrom(s, from + 1)
  }

  /** `s.split(' - ')[0]`: the text before the leftmost separator, or all of it. */
  function BeforeSeparator(s: string): (r: string)
    ensures |r| <= |s| && r == s[..|r|]
    ensures forall j: nat :: j < |r| ==> !SeparatorAt(s, j)
    ensures |r| < |s| ==> SeparatorAt(s, |r|)
  {
    match SeparatorFrom(s, 0)
    case None => s
    case Some(i) => s[..i]
  }

  /** `re.sub('[\._\(\) ]+', ' ', s)`; `inRun` says the character before s
      belonged to a run already written out as its one space. Every
      character outside the class is kept as often as it occurs, the only
      class character left is the space, and no two spaces meet. */
  function CollapseRuns(s: string, inRun: bool): (r: string)
    ensures |r| <= |s|
    ensures forall i :: 0 <= i < |r| && IsRunChar(r[i]) ==> r[i] == ' '
    ensures NoDoubleSpace(r)
    ensures inRun && |r| > 0 ==> r[0] != ' '
  {
    if |s| == 0 then ""
    else
      assert s == [s[0]] + s[1..];
      if IsRunChar(s[0]) then
        if inRun then CollapseRuns(s[1..], true)
        else
          var rest := CollapseRuns(s[1..], true);
          assert forall i :: 0 < i < |rest| + 1 ==> (" " + rest)[i] == rest[i - 1];
          " " + rest
      else
        var rest := CollapseRuns(s[1..], false);
        assert forall i :: 0 < i < |rest| + 1 ==> ([s[0]] + rest)[i] == rest[i - 1];
        [s[0]] + rest
  }

  /** `clean_input_name`: no punctuation of the replaced class survives, the
      result is single-spaced with no whitespace at either end, and every
      word is capitalized with the rest of it in lower case. */
  function CleanInputName(name: string): (r: string)
    ensures NoPunctuation(r)
    ensures SingleSpaced(r)
    ensures forall i :: 0 <= i < |Words(r)| ==> IsCapitalized(Words(r)[i])
  {
    var head := BeforeSeparator(ReplacePunctuation(name));
    var trimmed := Strip(CollapseRuns(head, false), IsDashOrSpace);
    CleanedHasNoPunctuation(head, trimmed);
    CapWordsFacts(trimmed);
    CapWordsKeepsNoPunctuation(trimmed);
    CapWords(trimmed)
  }

  lemma {:induction false} CollapseRunsAll(s: string, inRun: bool, p: char -> bool)
    requires p(' ')
    requires forall i :: 0 <= i < |s| ==> p(s[i])
    ensures forall i :: 0 <= i < |CollapseRuns(s, inRun)| ==> p(CollapseRuns(s, inRun)[i])
  {
    if |s| > 0 {
      if IsRunChar(s[0]) {
        CollapseRunsAll(s[1..], true, p);
      } else {
        CollapseRunsAll(s[1..], false, p);
      }
    }
  }

  lemma CleanedHasNoPunctuation(head: string, trimmed: string)
    requires NoPunctuation(head)
    requires trimmed == Strip(CollapseRuns(head, false), IsDashOrSpace)
    ensures NoPunctuation(trimmed)
  {
    CollapseRunsAll(head, false, c => !IsNamePunctuation(c));
    var c := CollapseRuns(head, false);
    var a, b := StripSlice(c, IsDashOrSpace);
    assert forall i :: 0 <= i < |trimmed| ==> trimmed[i] == c[a + i];
  }

  lemma CapWordsKeepsNoPunctuation(s: string)
    requires NoPunctuation(s)
    ensures NoPunctuation(CapWords(s))
  {
    var p := c => !IsNamePunctuation(c);
    WordsAll(s, p);
    JoinAll(Words(s), ' ', p);
    CapWordsFacts(s);
    CaseEquivalentNonLetters(CapWords(s), Join(Words(s), ' '));
  }

  /** The leftmost separator decides where the name ends. */
  lemma BeforeLeftmostSeparator(s: string, i: nat)
    requires SeparatorAt(s, i)
    requires forall j: nat :: j < i ==> !SeparatorAt(s, j)
    ensures BeforeSeparator(s) == s[..i]
  {
    assert |BeforeSeparator(s)| == i;
  }

  lemma BeforeNoSeparator(s: string)
    requires forall j: nat :: !SeparatorAt(s, j)
    ensures BeforeSeparator(s) == s
  {
  }

  lemma ReplacePunctuationPrefix(name: string, k: nat, tail: string)
    requires k <= |name|
    ensures ReplacePunctuation(name[..k] + tail)[..k] == ReplacePunctuation(name)[..k]
    ensures ReplacePunctuation(name[..k]) == ReplacePunctuation(name)[..k]
  {
    var n := name[..k] + tail;
    assert forall i :: 0 <= i < k ==> n[i] == name[i];
  }

  /** Everything from the leftmost " - " on (found once punctuation is
      replaced) is irrelevant: any tail may follow the separator, and
      cutting the name just before it changes nothing. */
  lemma CleanInputNameDropsTail(name: string, i: nat, tail: string)
    requires SeparatorAt(ReplacePunctuation(name), i)
    requires forall j: nat :: j < i ==> !SeparatorAt(ReplacePunctuation(name), j)
    ensures CleanInputName(name[..i + 3] + tail) == CleanInputName(name)
    ensures CleanInputName(name[..i]) == CleanInputName(name)
  {
    var p := ReplacePunctuation(name);
    var p2 := ReplacePunctuation(name[..i + 3] + tail);
    ReplacePunctuationPrefix(name, i + 3, tail);
    assert forall j :: 0 <= j < i + 3 ==> p2[j] == p[j];
    assert SeparatorAt(p2, i);
    forall j: nat | j < i
      ensures !SeparatorAt(p2, j)
    {
      assert !SeparatorAt(p, j);
    }
    BeforeLeftmostSeparator(p, i);
    BeforeLeftmostSeparator(p2, i);
    assert p2[..i] == p[..i];
    var p3 := ReplacePunctuation(name[..i]);
    ReplacePunctuationPrefix(name, i, "");
    forall j: nat
      ensures !SeparatorAt(p3, j)
    {
      assert SeparatorAt(p3, j) ==> SeparatorAt(p, j);
    }
    BeforeNoSeparator(p3);
  }

  // Idempotence of the cleanup, built from the shape each stage leaves.

  predicate OnlyPlainSpaces(s: string)
  {
    forall i :: 0 <= i < |s| && IsSpace(s[i]) ==> s[i] == ' '
  }

  predicate NoDoubleSpace(s: string)
  {
    forall i :: 0 <= i < |s| - 1 && s[i] == ' ' ==> s[i + 1] != ' '
  }

  predicate NoSeparator(s: string)
  {
    forall j: nat :: j < |s| ==> !SeparatorAt(s, j)
  }

  lemma SeparatorShift(c: char, s: string)
    ensures forall j: nat :: 1 <= j ==> (SeparatorAt([c] + s, j) <==> SeparatorAt(s, j - 1))
  {
    var t := [c] + s;
    assert forall k :: 0 <= k < |s| ==> t[k + 1] == s[k];
  }

  /** Collapsing keeps every character outside the run class, as often as
      it occurs. */
  lemma {:induction false} CollapseRunsKeepsOthers(s: string, inRun: bool)
    ensures forall c :: !IsRunChar(c) ==> multiset(CollapseRuns(s, inRun))[c] == multiset(s)[c]
    decreases |s|
  {
    if |s| > 0 {
      assert s == [s[0]] + s[1..];
      CollapseRunsKeepsOthers(s[1..], IsRunChar(s[0]));
    }
  }

  /** Without punctuation the run characters are exactly the spaces. */
  lemma RunCharIsSpace(s: string, i: nat)
    requires NoPunctuation(s) && i < |s|
    ensures IsRunChar(s[i]) <==> s[i] == ' '
  {
  }

  /** A collapsed text that starts "- " after a run came from a separator. */
  lemma {:induction false} DashSpaceFromSeparator(s: string)
    requires |s| > 0 && s[0] == ' ' && NoPunctuation(s)
    ensures var o := CollapseRuns(s[1..], true);
            |o| >= 2 && o[0] == '-' && o[1] == ' ' ==> !NoSeparator(s)
    decreases |s|
  {
    var x := s[1..];
    var o := CollapseRuns(x, true);
    if |o| >= 2 && o[0] == '-' && o[1] == ' ' {
      RunCharIsSpace(s, 1);
      if x[0] == ' ' {
        DashSpaceFromSeparator(x);
        var j: nat :| j < |x| && SeparatorAt(x, j);
        SeparatorShift(' ', x);
        assert [' '] + x == s;
        assert SeparatorAt(s, j + 1);
      } else {
        assert o == [x[0]] + CollapseRuns(x[1..], false);
        RunCharIsSpace(s, 2);
        assert SeparatorAt(s, 0);
      }
    }
  }

  /** Collapsing runs never creates a separator in punctuation-free text. */
  lemma {:induction false} CollapseRunsNoSeparator(s: string, inRun: bool)
    requires NoPunctuation(s) && NoSeparator(s)
    ensures NoSeparator(CollapseRuns(s, inRun))
    decreases |s|
  {
    if |s| > 0 {
      forall j: nat | j < |s| - 1
        ensures !SeparatorAt(s[1..], j)
      {
        assert !SeparatorAt(s, j + 1);
      }
      if IsRunChar(s[0]) {
        CollapseRunsNoSeparator(s[1..], true);
        var rest := CollapseRuns(s[1..], true);
        if !inRun {
          assert CollapseRuns(s, inRun) == [' '] + rest;
          RunCharIsSpace(s, 0);
          DashSpaceFromSeparator(s);
          SeparatorShift(' ', rest);
          assert !SeparatorAt([' '] + rest, 0);
        }
      } else {
        CollapseRunsNoSeparator(s[1..], false);
        var rest := CollapseRuns(s[1..], false);
        assert CollapseRuns(s, inRun) == [s[0]] + rest;
        SeparatorShift(s[0], rest);
        assert !SeparatorAt([s[0]] + rest, 0);
      }
    }
  }

  /** Text with no punctuation and no doubled space is left as it is. */
  lemma {:induction false} CollapseRunsIdentity(s: string, inRun: bool)
    requires NoPunctuation(s) && NoDoubleSpace(s)
    requires inRun && |s| > 0 ==> s[0] != ' '
    ensures CollapseRuns(s, inRun) == s
    decreases |s|
  {
    if |s| > 0 {
      RunCharIsSpace(s, 0);
      if |s| > 1 {
        RunCharIsSpace(s, 1);
      }
      CollapseRunsIdentity(s[1..], s[0] == ' ');
      assert [s[0]] + s[1..] == s;
    }
  }

  /** The trimmed middle stage: single-spaced, punctuation- and separator-free,
      with no dash at either end. */
  predicate TrimmedShape(t: string)
  {
    && SingleSpaced(t) && NoPunctuation(t) && NoSeparator(t)
    && (|t| > 0 ==> t[0] != '-' && t[|t| - 1] != '-')
  }

  /** The text before the separator has no punctuation, no separator, and
      no whitespace but the plain space when the name had none. */
  lemma HeadShape(name: string)
    requires OnlyPlainSpaces(name)
    ensures var head := BeforeSeparator(ReplacePunctuation(name));
            NoPunctuation(head) && OnlyPlainSpaces(head) && NoSeparator(head)
  {
    var p := ReplacePunctuation(name);
    var head := BeforeSeparator(p);
    assert OnlyPlainSpaces(p);
    assert forall i :: 0 <= i < |head| ==> head[i] == p[i];
    forall j: nat
      ensures !SeparatorAt(head, j)
    {
      assert SeparatorAt(head, j) ==> SeparatorAt(p, j);
    }
  }

  lemma CollapsedShape(head: string)
    requires NoPunctuation(head) && OnlyPlainSpaces(head) && NoSeparator(head)
    ensures var c := CollapseRuns(head, false);
            NoPunctuation(c) && OnlyPlainSpaces(c) && NoDoubleSpace(c) && NoSeparator(c)
  {
    CollapseRunsAll(head, false, ch => !IsNamePunctuation(ch) && (IsSpace(ch) ==> ch == ' '));
    CollapseRunsNoSeparator(head, false);
  }

  lemma StrippedShape(c: string)
    requires NoPunctuation(c) && OnlyPlainSpaces(c) && NoDoubleSpace(c) && NoSeparator(c)
    ensures TrimmedShape(Strip(c, IsDashOrSpace))
  {
    var a, b := StripSlice(c, IsDashOrSpace);
    var t := c[a..b];
    assert forall i :: 0 <= i < |t| ==> t[i] == c[a + i];
    forall j: nat
      ensures !SeparatorAt(t, j)
    {
      assert SeparatorAt(t, j) ==> SeparatorAt(c, a + j);
    }
  }

  lemma TrimmedShapeOfStage(name: string)
    requires OnlyPlainSpaces(name)
    ensures TrimmedShape(Strip(CollapseRuns(BeforeSeparator(ReplacePunctuation(name)), false), IsDashOrSpace))
  {
    HeadShape(name);
    CollapsedShape(BeforeSeparator(ReplacePunctuation(name)));
    StrippedShape(CollapseRuns(BeforeSeparator(ReplacePunctuation(name)), false));
  }

  /** Case changes keep the shape: spaces and dashes are not letters. */
  lemma TrimmedShapeCaseEquivalent(r: string, t: string)
    requires TrimmedShape(t) && CaseEquivalent(r, t) && SingleSpaced(r) && NoPunctuation(r)
    ensures TrimmedShape(r)
  {
    CaseEquivalentNonLetters(r, t);
    forall j: nat | j < |r|
      ensures !SeparatorAt(r, j)
    {
      assert SeparatorAt(r, j) ==> SeparatorAt(t, j);
    }
  }

  /** Every stage before the capitalization leaves text of this shape as it is. */
  lemma StagesKeepTrimmedShape(r: string)
    requires TrimmedShape(r)
    ensures Strip(CollapseRuns(BeforeSeparator(ReplacePunctuation(r)), false), IsDashOrSpace) == r
  {
    var p := ReplacePunctuation(r);
    assert p == r;
    BeforeNoSeparator(r);
    assert NoDoubleSpace(r);
    CollapseRunsIdentity(r, false);
    StripUnpadded(r, IsDashOrSpace);
  }

  /** Text already in the trimmed shape passes through the cleanup with its
      letters intact: only their case may change. */
  lemma CleanInputNameCaseEquivalent(n: string)
    requires TrimmedShape(n)
    ensures CaseEquivalent(CleanInputName(n), n)
  {
    StagesKeepTrimmedShape(n);
    CapWordsFacts(n);
    SingleSpacedIsJoin(n);
  }

  /** A name in the trimmed shape whose words are all capitalized is its own
      cleanup. */
  lemma CleanInputNameFixedPoint(n: string)
    requires TrimmedShape(n)
    requires forall i :: 0 <= i < |Words(n)| ==> IsCapitalized(Words(n)[i])
    ensures CleanInputName(n) == n
  {
    StagesKeepTrimmedShape(n);
    CapWordsOfCapitalized(n);
  }

  /** Cleaning an already clean name changes nothing, for names whose only
      whitespace is the plain space (other whitespace survives the first
      pass only to be split on by the capitalization). */
  lemma CleanInputNameIdempotent(name: string)
    requires OnlyPlainSpaces(name)
    ensures CleanInputName(CleanInputName(name)) == CleanInputName(name)
  {
    var t := Strip(CollapseRuns(BeforeSeparator(ReplacePunctuation(name)), false), IsDashOrSpace);
    var r := CleanInputName(name);
    assert r == CapWords(t);
    TrimmedShapeOfStage(name);
    CapWordsFacts(t);
    SingleSpacedIsJoin(t);
    TrimmedShapeCaseEquivalent(r, t);
    StagesKeepTrimmedShape(r);
    CapWordsIdempotent(t);
  }

  /** Examples: punctuation becomes spaces, the " - Pilot" episode
      part is cut, runs of spaces collapse, and the words are capitalized,
      which lowers the tail of "HD". */
  lemma CleanInputNameExample()
    ensures CleanInputName("Show.Name_(2020)[HD] - Pilot") == "Show Name 2020 Hd"
  {
    ExamplePunctuation();
    ExampleHead();
    ExampleCollapse(BeforeSeparator(ReplacePunctuation("Show.Name_(2020)[HD] - Pilot")));
    ExampleStrip();
    ExampleCapWords();
  }

  lemma ExamplePunctuation()
    ensures ReplacePunctuation("Show.Name_(2020)[HD] - Pilot") == "Show Name  2020  HD  - Pilot"
  {
    var name := "Show.Name_(2020)[HD] - Pilot";
    var r := ReplacePunctuation(name);
    assert forall i :: 0 <= i < |r| ==> r[i] == "Show Name  2020  HD  - Pilot"[i];
  }

  lemma ExampleHead()
    ensures BeforeSeparator("Show Name  2020  HD  - Pilot") == "Show Name  2020  HD "
  {
    var p := "Show Name  2020  HD  - Pilot";
    assert BeforeSeparator(p) == p[..20] by {
      assert SeparatorAt(p, 20);
      assert forall j: nat :: j < 20 ==> !SeparatorAt(p, j);
      BeforeLeftmostSeparator(p, 20);
    }
    assert p[..20] == "Show Name  2020  HD ";
  }

  /** Whether a run is open after reading a, starting in state inRun. */
  function RunOpenAfter(a: string, inRun: bool): bool
  {
    if |a| == 0 then inRun else IsRunChar(a[|a| - 1])
  }

  /** Collapsing works piecewise: the second piece starts in the state the
      first one left. */
  lemma {:induction false} CollapseRunsConcat(a: string, b: string, inRun: bool)
    ensures CollapseRuns(a + b, inRun) == CollapseRuns(a, inRun) + CollapseRuns(b, RunOpenAfter(a, inRun))
    decreases |a|
  {
    if |a| == 0 {
      assert a + b == b;
    } else {
      var rest := a[1..];
      var next := IsRunChar(a[0]);
      assert (a + b)[0] == a[0];
      assert (a + b)[1..] == rest + b;
      CollapseRunsConcat(rest, b, next);
      if |rest| > 0 {
        assert rest[|rest| - 1] == a[|a| - 1];
      }
      assert RunOpenAfter(rest, next) == RunOpenAfter(a, inRun);
      var x := CollapseRuns(rest, next);
      var y := CollapseRuns(b, RunOpenAfter(a, inRun));
      if next && !inRun {
        assert " " + (x + y) == (" " + x) + y;
      } else if !next {
        assert [a[0]] + (x + y) == ([a[0]] + x) + y;
      }
    }
  }

  /** The collapse of the example is proved piece by piece, each piece in
      its own lemma so that every proof obligation stays small. */
  lemma ExampleCollapse(h: string)
    requires h == "Show Name  2020  HD "
    ensures CollapseRuns(h, false) == "Show Name 2020 HD "
  {
    var a, b := "Show Name ", "2020 HD ";
    assert CollapseRuns(h, false) == a + b by {
      ExampleSplitShow();
      ExampleCollapseShow();
      ExampleCollapseTail();
    }
    assert a + b == "Show Name 2020 HD ";
  }

  lemma ExampleSplitShow()
    ensures CollapseRuns("Show Name  2020  HD ", false)
         == CollapseRuns("Show Name ", false) + CollapseRuns(" 2020  HD ", true)
  {
    var a, b := "Show Name ", " 2020  HD ";
    assert a + b == "Show Name  2020  HD ";
    CollapseRunsConcat(a, b, false);
  }

  lemma ExampleCollapseShow()
    ensures CollapseRuns("Show Name ", false) == "Show Name "
  {
    CollapseRunsIdentity("Show Name ", false);
  }

  lemma ExampleCollapseTail()
    ensures CollapseRuns(" 2020  HD ", true) == "2020 HD "
  {
    ExampleSplitYear();
    ExampleTailPieces();
  }

  lemma ExampleTailPieces()
    ensures CollapseRuns("2020 ", true) + CollapseRuns(" HD ", true) == "2020 HD "
  {
    ExampleCollapseYear();
    ExampleCollapseTag();
    assert "2020 " + "HD " == "2020 HD ";
  }

  lemma ExampleSplitYear()
    ensures CollapseRuns(" 2020  HD ", true) == CollapseRuns("2020 ", true) + CollapseRuns(" HD ", true)
  {
    var a, b := "2020 ", " HD ";
    assert [' '] + (a + b) == " 2020  HD ";
    CollapseRunsConcat(a, b, true);
  }

  lemma ExampleCollapseYear()
    ensures CollapseRuns("2020 ", true) == "2020 "
  {
    CollapseRunsIdentity("2020 ", true);
  }

  lemma ExampleCollapseTag()
    ensures CollapseRuns(" HD ", true) == "HD "
  {
    var a := "HD ";
    assert [' '] + a == " HD ";
    CollapseRunsIdentity(a, true);
  }

  lemma ExampleStrip()
    ensures Strip("Show Name 2020 HD ", IsDashOrSpace) == "Show Name 2020 HD"
  {
    var t := "Show Name 2020 HD";
    assert t + " " == "Show Name 2020 HD ";
    StripPaddedEnd(t, " ", IsDashOrSpace);
  }

  lemma ExampleCapWords()
    ensures CapWords("Show Name 2020 HD") == "Show Name 2020 Hd"
  {
    ExampleWords();
    ExampleCapitalized();
    ExampleJoinCaps();
  }

  lemma ExampleJoinCaps()
    ensures Join(["Show", "Name", "2020", "Hd"], ' ') == "Show Name 2020 Hd"
  {
    var caps := ["Show", "Name", "2020", "Hd"];
    assert Join(caps[1..], ' ') == "Name 2020 Hd" by {
      assert Join(caps[2..], ' ') == "2020 Hd" by {
        assert Join(caps[3..], ' ') == "Hd";
      }
    }
  }

  lemma ExampleWords()
    ensures Words("Show Name 2020 HD") == ["Show", "Name", "2020", "HD"]
  {
    var ws := ["Show", "Name", "2020", "HD"];
    assert Join(ws, ' ') == "Show Name 2020 HD" by {
      assert Join(ws[1..], ' ') == "Name 2020 HD" by {
        assert Join(ws[2..], ' ') == "2020 HD" by {
          assert Join(ws[3..], ' ') == "HD";
        }
      }
    }
    assert forall i :: 0 <= i < |ws| ==> IsWord(ws[i]) by {
      assert IsWord(ws[0]) && IsWord(ws[1]) && IsWord(ws[2]) && IsWord(ws[3]);
    }
    WordsJoin(ws);
  }

  lemma ExampleCapitalized()
    ensures CapitalizeAll(["Show", "Name", "2020", "HD"]) == ["Show", "Name", "2020", "Hd"]
  {
    assert Capitalize("Show") == "Show";
    assert Capitalize("Name") == "Name";
    assert Capitalize("2020") == "2020";
    assert Capitalize("HD") == "Hd";
  }

  /** Idempotence needs the plain-space condition: a tab survives the first
      pass and only `capwords` turns it into a space, which can complete a
      separator that the second pass then cuts at. */
  lemma CleanInputNameTabCounterexample()
    ensures CleanInputName("a -\tb") == "A - B"
    ensures CleanInputName("A - B") == "A"
  {
    TabFirstPass("a -\tb");
    TabSecondPass("A - B");
  }

  lemma TabFirstPass(name: string)
    requires name == "a -\tb"
    ensures CleanInputName(name) == "A - B"
  {
    TabPunctuationAndHead(name);
    TabCollapseAndStrip(name);
    TabCapWords(name);
  }

  lemma TabPunctuationAndHead(name: string)
    requires name == "a -\tb"
    ensures BeforeSeparator(ReplacePunctuation(name)) == name
  {
    assert ReplacePunctuation(name) == name by {
      assert NoPunctuation(name);
    }
    assert forall j: nat :: !SeparatorAt(name, j);
    BeforeNoSeparator(name);
  }

  lemma TabCollapseAndStrip(name: string)
    requires name == "a -\tb"
    ensures Strip(CollapseRuns(name, false), IsDashOrSpace) == name
  {
    assert CollapseRuns(name, false) == name by {
      assert NoPunctuation(name) && NoDoubleSpace(name);
      CollapseRunsIdentity(name, false);
    }
    StripUnpadded(name, IsDashOrSpace);
  }

  lemma TabCapWords(name: string)
    requires name == "a -\tb"
    ensures CapWords(name) == "A - B"
  {
    TabWords(name);
    TabCapitalized();
    TabJoin();
  }

  lemma TabWords(name: string)
    requires name == "a -\tb"
    ensures Words(name) == ["a", "-", "b"]
  {
    var rest := "-" + ['\t'] + "b";
    assert Words(rest) == ["-", "b"] by {
      WordsOfWordThenBlank("-", '\t', "b");
      WordsOfWord("b");
    }
    assert Words("a" + [' '] + rest) == ["a"] + Words(rest) by {
      WordsOfWordThenBlank("a", ' ', rest);
    }
    assert name == "a" + [' '] + rest;
  }

  lemma TabCapitalized()
    ensures CapitalizeAll(["a", "-", "b"]) == ["A", "-", "B"]
  {
    assert Capitalize("a") == "A";
    assert Capitalize("-") == "-";
    assert Capitalize("b") == "B";
  }

  lemma TabJoin()
    ensures Join(["A", "-", "B"], ' ') == "A - B"
  {
    var caps := ["A", "-", "B"];
    assert Join(caps[1..], ' ') == "- B" by {
      assert Join(caps[2..], ' ') == "B";
    }
  }

  lemma TabSecondPass(name: string)
    requires name == "A - B"
    ensures CleanInputName(name) == "A"
  {
    assert ReplacePunctuation(name) == name by {
      assert NoPunctuation(name);
    }
    assert BeforeSeparator(name) == "A" by {
      assert SeparatorAt(name, 1) && !SeparatorAt(name, 0);
      BeforeLeftmostSeparator(name, 1);
    }
    assert CollapseRuns("A", false) == "A";
    assert Strip("A", IsDashOrSpace) == "A" by {
      StripUnpadded("A", IsDashOrSpace);
    }
    assert CapWords("A") == "A" by {
      WordsOfWord("A");
      assert Capitalize("A") == "A";
    }
  }
}
