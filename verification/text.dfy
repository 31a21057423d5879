/**
 Text primitives with the meaning Python 2 gives the corresponding string
 methods, restricted to ASCII: character classes, case mapping, `sep.join`,
 `s.split(sep)`, `s.split()`, `strip`, `capitalize`, `string.capwords` and
 `int()` of a digit string.
 */
module Text {

  predicate IsDigit(c: char) { '0' <= c <= '9' }
  predicate IsUpper(c: char) { 'A' <= c <= 'Z' }
  predicate IsLower(c: char) { 'a' <= c <= 'z' }
  predicate IsAlpha(c: char) { IsUpper(c) || IsLower(c) }

  /** Whitespace as `split()` and `strip()` without arguments see it on a
      unicode string, within ASCII: tab to carriage return, the separators
      0x1C-0x1F, and space. */
  predicate IsSpace(c: char) { 9 <= c as int <= 13 || 28 <= c as int <= 32 }

  /** `\s` in a pattern compiled without `re.UNICODE`. */
  predicate IsRegexSpace(c: char) { 9 <= c as int <= 13 || c == ' ' }

  function Lower(c: char): char
  {
    if IsUpper(c) then (c as int + 32) as char else c
  }

  function Upper(c: char): char
  {
    if IsLower(c) then (c as int - 32) as char else c
  }

  /** Two characters that differ at most in ASCII case. */
  predicate SameLetter(c: char, d: char) { Lower(c) == Lower(d) }

  function LowerString(s: string): (r: string)
    ensures |r| == |s|
    ensures forall i :: 0 <= i < |s| ==> r[i] == Lower(s[i])
  {
    seq(|s|, i requires 0 <= i < |s| => Lower(s[i]))
  }

  /** Only a letter changes under case mapping, and it stays the same letter. */
  lemma CaseMappingKeepsClass(c: char)
    ensures SameLetter(Upper(c), c) && SameLetter(Lower(c), c)
    ensures IsSpace(Upper(c)) <==> IsSpace(c)
    ensures IsSpace(Lower(c)) <==> IsSpace(c)
    ensures !IsLower(Upper(c)) && !IsUpper(Lower(c))
  {
  }

  /** A character that is not a letter is the only character in its case class. */
  lemma SameLetterNonLetter(c: char, d: char)
    requires SameLetter(c, d) && (!IsAlpha(c) || !IsAlpha(d))
    ensures c == d
  {
  }

  /** Two texts that differ at most in the case of their letters. */
  predicate CaseEquivalent(a: string, b: string)
  {
    |a| == |b| && forall i :: 0 <= i < |a| ==> SameLetter(a[i], b[i])
  }

  lemma CaseEquivalentNonLetters(a: string, b: string)
    requires CaseEquivalent(a, b)
    ensures forall i :: 0 <= i < |a| && (!IsAlpha(a[i]) || !IsAlpha(b[i])) ==> a[i] == b[i]
  {
    forall i | 0 <= i < |a| && (!IsAlpha(a[i]) || !IsAlpha(b[i]))
      ensures a[i] == b[i]
    {
      SameLetterNonLetter(a[i], b[i]);
    }
  }

  // ---------------------------------------------------------------------
  // sep.join(words) and s.split(sep) for a one-character separator

  function Join(words: seq<string>, sep: char): string
  {
    if |words| == 0 then ""
    else if |words| == 1 then words[0]
    else words[0] + [sep] + Join(words[1..], sep)
  }

  function SplitOn(s: string, sep: char): (parts: seq<string>)
    ensures |parts| > 0
  {
    if |s| == 0 then [""]
    else if s[0] == sep then [""] + SplitOn(s[1..], sep)
    else
      var rest := SplitOn(s[1..], sep);
      [[s[0]] + rest[0]] + rest[1..]
  }

  /** A join of non-empty words is empty only when there are no words. */
  lemma JoinIsEmpty(words: seq<string>, sep: char)
    requires forall i :: 0 <= i < |words| ==> |words[i]| > 0
    ensures Join(words, sep) == "" <==> |words| == 0
  {
    if |words| > 1 {
      assert |Join(words, sep)| >= |words[0]|;
    }
  }

  lemma {:induction false} SplitOnWithoutSeparator(w: string, sep: char)
    requires sep !in w
    ensures SplitOn(w, sep) == [w]
  {
    if |w| > 0 {
      SplitOnWithoutSeparator(w[1..], sep);
      assert [w[0]] + w[1..] == w;
    }
  }

  lemma {:induction false} SplitOnFirstWord(w: string, rest: string, sep: char)
    requires sep !in w
    ensures SplitOn(w + [sep] + rest, sep) == [w] + SplitOn(rest, sep)
  {
    if |w| == 0 {
      assert w + [sep] + rest == [sep] + rest;
      assert ([sep] + rest)[1..] == rest;
    } else {
      SplitOnFirstWord(w[1..], rest, sep);
      assert (w + [sep] + rest)[1..] == w[1..] + [sep] + rest;
      assert [w[0]] + w[1..] == w;
    }
  }

  /** Splitting a join gives the words back when no word holds the separator. */
  lemma {:induction false} SplitJoin(words: seq<string>, sep: char)
    requires |words| > 0
    requires forall i :: 0 <= i < |words| ==> sep !in words[i]
    ensures SplitOn(Join(words, sep), sep) == words
  {
    if |words| == 1 {
      SplitOnWithoutSeparator(words[0], sep);
    } else {
      SplitJoin(words[1..], sep);
      SplitOnFirstWord(words[0], Join(words[1..], sep), sep);
      assert [words[0]] + words[1..] == words;
    }
  }

  // ---------------------------------------------------------------------
  // s.split() without arguments

  /** A word of `split()`: non-empty, no whitespace. */
  predicate IsWord(w: string)
  {
    |w| > 0 && forall i :: 0 <= i < |w| ==> !IsSpace(w[i])
  }

  function WordLength(s: string): (k: nat)
    ensures k <= |s|
    ensures forall i :: 0 <= i < k ==> !IsSpace(s[i])
    ensures k < |s| ==> IsSpace(s[k])
  {
    if |s| == 0 || IsSpace(s[0]) then 0 else 1 + WordLength(s[1..])
  }

  function Words(s: string): seq<string>
    decreases |s|
  {
    if |s| == 0 then []
    else if IsSpace(s[0]) then Words(s[1..])
    else
      var k := WordLength(s);
      [s[..k]] + Words(s[k..])
  }

  lemma {:induction false} WordsAreWords(s: string)
    ensures forall i :: 0 <= i < |Words(s)| ==> IsWord(Words(s)[i])
    decreases |s|
  {
    if |s| == 0 {
    } else if IsSpace(s[0]) {
      WordsAreWords(s[1..]);
    } else {
      WordsAreWords(s[WordLength(s)..]);
    }
  }

  lemma WordLengthOfWord(w: string, rest: string)
    requires IsWord(w)
    requires |rest| == 0 || IsSpace(rest[0])
    ensures WordLength(w + rest) == |w|
  {
    assert forall i :: 0 <= i < |w| ==> (w + rest)[i] == w[i];
    if |rest| > 0 {
      assert (w + rest)[|w|] == rest[0];
    }
  }

  lemma {:induction false} WordsOfWordThenSpace(w: string, rest: string)
    requires IsWord(w)
    ensures Words(w + [' '] + rest) == [w] + Words(rest)
  {
    var s := w + [' '] + rest;
    assert s == w + ([' '] + rest);
    WordLengthOfWord(w, [' '] + rest);
    assert s[..|w|] == w;
    assert s[|w|..] == [' '] + rest;
    assert ([' '] + rest)[1..] == rest;
  }

  /** The same for any whitespace character after the word, a tab included. */
  lemma {:induction false} WordsOfWordThenBlank(w: string, c: char, rest: string)
    requires IsWord(w) && IsSpace(c)
    ensures Words(w + [c] + rest) == [w] + Words(rest)
  {
    var s := w + [c] + rest;
    assert s == w + ([c] + rest);
    WordLengthOfWord(w, [c] + rest);
    assert s[..|w|] == w;
    assert s[|w|..] == [c] + rest;
    assert ([c] + rest)[1..] == rest;
  }

  lemma WordsOfWord(w: string)
    requires IsWord(w)
    ensures Words(w) == [w]
  {
    WordLengthOfWord(w, "");
    assert w + "" == w;
  }

  /** A property every character of s has, every character of its words has. */
  lemma {:induction false} WordsAll(s: string, p: char -> bool)
    requires forall i :: 0 <= i < |s| ==> p(s[i])
    ensures forall i, j :: 0 <= i < |Words(s)| && 0 <= j < |Words(s)[i]| ==> p(Words(s)[i][j])
    decreases |s|
  {
    if |s| > 0 {
      if IsSpace(s[0]) {
        WordsAll(s[1..], p);
      } else {
        var k := WordLength(s);
        WordsAll(s[k..], p);
        var rest := Words(s[k..]);
        assert Words(s) == [s[..k]] + rest;
        forall i, j | 0 <= i < |Words(s)| && 0 <= j < |Words(s)[i]|
          ensures p(Words(s)[i][j])
        {
          if i == 0 {
            assert Words(s)[0][j] == s[j];
          } else {
            assert Words(s)[i] == rest[i - 1];
          }
        }
      }
    }
  }

  /** A property of the separator and of every character of the words holds
      of every character of their join. */
  lemma {:induction false} JoinAll(words: seq<string>, sep: char, p: char -> bool)
    requires p(sep)
    requires forall i, j :: 0 <= i < |words| && 0 <= j < |words[i]| ==> p(words[i][j])
    ensures forall k :: 0 <= k < |Join(words, sep)| ==> p(Join(words, sep)[k])
  {
    if |words| > 1 {
      JoinAll(words[1..], sep, p);
      var w := words[0];
      var t := Join(words[1..], sep);
      assert Join(words, sep) == w + [sep] + t;
      forall k | 0 <= k < |w + [sep] + t|
        ensures p((w + [sep] + t)[k])
      {
        if k < |w| {
          assert (w + [sep] + t)[k] == words[0][k];
        } else if k > |w| {
          assert (w + [sep] + t)[k] == t[k - |w| - 1];
        }
      }
    }
  }

  /** Joining word lists that agree up to case gives texts that agree up to case. */
  lemma {:induction false} JoinCaseEquivalent(words: seq<string>, others: seq<string>, sep: char)
    requires |words| == |others|
    requires forall i :: 0 <= i < |words| ==> CaseEquivalent(words[i], others[i])
    ensures CaseEquivalent(Join(words, sep), Join(others, sep))
  {
    if |words| > 1 {
      JoinCaseEquivalent(words[1..], others[1..], sep);
      var a := words[0] + [sep] + Join(words[1..], sep);
      var b := others[0] + [sep] + Join(others[1..], sep);
      assert |a| == |b|;
      forall k | 0 <= k < |a|
        ensures SameLetter(a[k], b[k])
      {
        if k < |words[0]| {
          assert a[k] == words[0][k] && b[k] == others[0][k];
        } else if k > |words[0]| {
          assert a[k] == Join(words[1..], sep)[k - |words[0]| - 1];
          assert b[k] == Join(others[1..], sep)[k - |words[0]| - 1];
        }
      }
    }
  }

  /** `split()` of a space-join of words gives the words back. */
  lemma {:induction false} WordsJoin(words: seq<string>)
    requires forall i :: 0 <= i < |words| ==> IsWord(words[i])
    ensures Words(Join(words, ' ')) == words
  {
    if |words| == 1 {
      WordsOfWord(words[0]);
    } else if |words| > 1 {
      WordsJoin(words[1..]);
      WordsOfWordThenSpace(words[0], Join(words[1..], ' '));
      assert [words[0]] + words[1..] == words;
    }
  }

  /** Text already in the shape `capwords` produces: only plain spaces as
      whitespace, none at either end, never two in a row. */
  predicate SingleSpaced(s: string)
  {
    && (forall i :: 0 <= i < |s| && IsSpace(s[i]) ==> s[i] == ' ')
    && (|s| > 0 ==> !IsSpace(s[0]) && !IsSpace(s[|s| - 1]))
    && (forall i :: 0 <= i < |s| - 1 && IsSpace(s[i]) ==> !IsSpace(s[i + 1]))
  }

  lemma {:induction false} JoinWordsSingleSpaced(words: seq<string>)
    requires forall i :: 0 <= i < |words| ==> IsWord(words[i])
    ensures SingleSpaced(Join(words, ' '))
  {
    if |words| > 1 {
      JoinWordsSingleSpaced(words[1..]);
      var w := words[0];
      var t := Join(words[1..], ' ');
      var s := w + [' '] + t;
      assert IsWord(words[1]);
      assert |t| > 0;
      assert forall i :: 0 <= i < |w| ==> s[i] == w[i];
      assert forall i :: |w| < i < |s| ==> s[i] == t[i - |w| - 1];
      assert s[|w|] == ' ' && s[|w| + 1] == t[0];
      assert s[|s| - 1] == t[|t| - 1];
    }
  }

  lemma JoinCons(w: string, words: seq<string>, sep: char)
    requires |words| > 0
    ensures Join([w] + words, sep) == w + [sep] + Join(words, sep)
  {
    assert ([w] + words)[1..] == words;
  }

  /** Single-spaced text with a space in it is its first word, one space,
      and single-spaced text that starts with a word. */
  lemma SingleSpacedSplit(s: string) returns (k: nat)
    requires SingleSpaced(s) && |s| > 0 && WordLength(s) < |s|
    ensures k == WordLength(s) && k + 1 < |s|
    ensures s == s[..k] + [' '] + s[k + 1..]
    ensures IsWord(s[..k]) && SingleSpaced(s[k + 1..]) && !IsSpace(s[k + 1])
  {
    k := WordLength(s);
    assert s[k] == ' ';
    assert k + 1 < |s|;
    SplitAround(s, k);
    SingleSpacedSuffix(s, k + 1);
  }

  lemma SplitAround(s: string, k: nat)
    requires k < |s|
    ensures s == s[..k] + [s[k]] + s[k + 1..]
  {
  }

  /** A suffix that starts on a non-space is single-spaced again. */
  lemma SingleSpacedSuffix(s: string, m: nat)
    requires SingleSpaced(s) && m < |s| && !IsSpace(s[m])
    ensures SingleSpaced(s[m..])
  {
    var t := s[m..];
    forall i | 0 <= i < |t| && IsSpace(t[i])
      ensures t[i] == ' '
    {
      assert t[i] == s[m + i];
    }
    forall i | 0 <= i < |t| - 1 && IsSpace(t[i])
      ensures !IsSpace(t[i + 1])
    {
      assert t[i] == s[m + i] && t[i + 1] == s[m + i + 1];
    }
    assert t[|t| - 1] == s[|s| - 1];
  }

  lemma WordsOfWordStart(t: string)
    requires |t| > 0 && !IsSpace(t[0])
    ensures |Words(t)| > 0
  {
  }

  /** Single-spaced text is the space-join of its own words. */
  lemma {:induction false} SingleSpacedIsJoin(s: string)
    requires SingleSpaced(s)
    ensures Join(Words(s), ' ') == s
    decreases |s|
  {
    if |s| > 0 {
      if WordLength(s) == |s| {
        assert IsWord(s);
        WordsOfWord(s);
      } else {
        var k := SingleSpacedSplit(s);
        var w, t := s[..k], s[k + 1..];
        SingleSpacedIsJoin(t);
        WordsOfWordThenSpace(w, t);
        WordsOfWordStart(t);
        JoinCons(w, Words(t), ' ');
      }
    }
  }

  // ---------------------------------------------------------------------
  // capitalize() and string.capwords()

  function Capitalize(w: string): string
  {
    if |w| == 0 then w else [Upper(w[0])] + LowerString(w[1..])
  }

  /** What `capitalize` leaves behind: no lower-case first letter, no
      upper-case letter after it. */
  predicate IsCapitalized(w: string)
  {
    && (|w| > 0 ==> !IsLower(w[0]))
    && (forall i :: 1 <= i < |w| ==> !IsUpper(w[i]))
  }

  /** Capitalization changes case only, keeps a word a word, and is idempotent. */
  lemma CapitalizeFacts(w: string)
    ensures |Capitalize(w)| == |w|
    ensures forall i :: 0 <= i < |w| ==> SameLetter(Capitalize(w)[i], w[i])
    ensures IsCapitalized(Capitalize(w))
    ensures IsWord(w) ==> IsWord(Capitalize(w))
    ensures Capitalize(Capitalize(w)) == Capitalize(w)
  {
    var c := Capitalize(w);
    forall i | 0 <= i < |w|
      ensures SameLetter(c[i], w[i]) && (IsSpace(c[i]) <==> IsSpace(w[i]))
    {
      CaseMappingKeepsClass(w[i]);
    }
    if |w| > 0 {
      CaseMappingKeepsClass(w[0]);
      var cc := Capitalize(c);
      assert |cc| == |c|;
      forall i | 0 <= i < |c|
        ensures cc[i] == c[i]
      {
        if i > 0 {
          CaseMappingKeepsClass(w[i]);
        }
      }
    }
  }

  /** A word already capitalized is left as it is. */
  lemma CapitalizedIsFixed(w: string)
    requires IsCapitalized(w)
    ensures Capitalize(w) == w
  {
    if |w| > 0 {
      assert Upper(w[0]) == w[0];
      assert forall i :: 1 <= i < |w| ==> Lower(w[i]) == w[i];
      assert LowerString(w[1..]) == w[1..];
      assert [w[0]] + w[1..] == w;
    }
  }

  function CapitalizeAll(words: seq<string>): (r: seq<string>)
    ensures |r| == |words|
    ensures forall i :: 0 <= i < |words| ==> r[i] == Capitalize(words[i])
  {
    seq(|words|, i requires 0 <= i < |words| => Capitalize(words[i]))
  }

  /** `string.capwords(s)`: split on whitespace, capitalize each word, join with one space. */
  function CapWords(s: string): string
  {
    Join(CapitalizeAll(Words(s)), ' ')
  }

  /** What `capwords` promises: single spacing, every word capitalized, the
      words of the result are the capitalized words of the input, and the
      result differs from the space-join of the input's words in case only. */
  lemma CapWordsFacts(s: string)
    ensures SingleSpaced(CapWords(s))
    ensures Words(CapWords(s)) == CapitalizeAll(Words(s))
    ensures forall i :: 0 <= i < |Words(CapWords(s))| ==> IsCapitalized(Words(CapWords(s))[i])
    ensures CaseEquivalent(CapWords(s), Join(Words(s), ' '))
  {
    var words := Words(s);
    var caps := CapitalizeAll(words);
    WordsAreWords(s);
    forall i | 0 <= i < |words|
      ensures IsWord(caps[i]) && IsCapitalized(caps[i]) && CaseEquivalent(caps[i], words[i])
    {
      CapitalizeFacts(words[i]);
    }
    JoinWordsSingleSpaced(caps);
    WordsJoin(caps);
    JoinCaseEquivalent(caps, words, ' ');
  }

  /** Single-spaced text whose words are all capitalized is its own `capwords`. */
  lemma CapWordsOfCapitalized(s: string)
    requires SingleSpaced(s)
    requires forall i :: 0 <= i < |Words(s)| ==> IsCapitalized(Words(s)[i])
    ensures CapWords(s) == s
  {
    var words := Words(s);
    forall i | 0 <= i < |words|
      ensures Capitalize(words[i]) == words[i]
    {
      CapitalizedIsFixed(words[i]);
    }
    assert CapitalizeAll(words) == words;
    SingleSpacedIsJoin(s);
  }

  // ---------------------------------------------------------------------
  /** `capwords` of a `capwords` result gives it back. */
  lemma CapWordsIdempotent(s: string)
    ensures CapWords(CapWords(s)) == CapWords(s)
  {
    var caps := CapitalizeAll(Words(s));
    CapWordsFacts(s);
    forall i | 0 <= i < |caps|
      ensures Capitalize(caps[i]) == caps[i]
    {
      CapitalizeFacts(Words(s)[i]);
    }
    assert CapitalizeAll(caps) == caps;
  }

  // strip(chars)

  /** How many characters `drop` accepts at the front of s. */
  function LeadingCount(s: string, drop: char -> bool): (k: nat)
    ensures k <= |s|
    ensures forall i :: 0 <= i < k ==> drop(s[i])
    ensures k < |s| ==> !drop(s[k])
  {
    if |s| > 0 && drop(s[0]) then 1 + LeadingCount(s[1..], drop) else 0
  }

  /** How many characters `drop` accepts at the back of s. */
  function TrailingCount(s: string, drop: char -> bool): (k: nat)
    ensures k <= |s|
    ensures forall i :: |s| - k <= i < |s| ==> drop(s[i])
    ensures k < |s| ==> !drop(s[|s| - k - 1])
  {
    if |s| > 0 && drop(s[|s| - 1]) then 1 + TrailingCount(s[..|s| - 1], drop) else 0
  }

  function TrimStart(s: string, drop: char -> bool): string
  {
    s[LeadingCount(s, drop)..]
  }

  function TrimEnd(s: string, drop: char -> bool): string
  {
    s[..|s| - TrailingCount(s, drop)]
  }

  function Strip(s: string, drop: char -> bool): string
  {
    TrimEnd(TrimStart(s, drop), drop)
  }

  /** Text that starts and ends with kept characters is its own strip. */
  lemma StripUnpadded(s: string, drop: char -> bool)
    requires |s| > 0 ==> !drop(s[0]) && !drop(s[|s| - 1])
    ensures Strip(s, drop) == s
  {
    assert LeadingCount(s, drop) == 0;
    assert TrimStart(s, drop) == s;
    assert TrailingCount(s, drop) == 0;
  }

  /** Dropped characters after kept text are all that `strip` removes. */
  lemma StripPaddedEnd(s: string, pad: string, drop: char -> bool)
    requires |s| > 0 && !drop(s[0]) && !drop(s[|s| - 1])
    requires forall i :: 0 <= i < |pad| ==> drop(pad[i])
    ensures Strip(s + pad, drop) == s
  {
    assert (s + pad)[0] == s[0];
    assert LeadingCount(s + pad, drop) == 0;
    assert TrimStart(s + pad, drop) == s + pad;
    TrimEndSkipsSuffix(s, pad, drop);
    StripUnpadded(s, drop);
  }

  /** What `strip` keeps is a slice whose surroundings are all dropped characters. */
  lemma StripSlice(s: string, drop: char -> bool) returns (a: nat, b: nat)
    ensures a <= b <= |s| && Strip(s, drop) == s[a..b]
    ensures forall i :: 0 <= i < a ==> drop(s[i])
    ensures forall i :: b <= i < |s| ==> drop(s[i])
    ensures a < b ==> !drop(s[a]) && !drop(s[b - 1])
  {
    var st := TrimStart(s, drop);
    a := |s| - |st|;
    assert st == s[a..];
    var r := TrimEnd(st, drop);
    b := a + |r|;
    assert r == st[..|r|];
    assert s[a..][..|r|] == s[a..b];
    forall i | b <= i < |s|
      ensures drop(s[i])
    {
      assert s[i] == st[i - a];
    }
  }

  lemma {:induction false} TrimStartSkipsPrefix(a: string, s: string, drop: char -> bool)
    requires forall i :: 0 <= i < |a| ==> drop(a[i])
    ensures TrimStart(a + s, drop) == TrimStart(s, drop)
  {
    if |a| > 0 {
      TrimStartSkipsPrefix(a[1..], s, drop);
      assert (a + s)[1..] == a[1..] + s;
    } else {
      assert a + s == s;
    }
  }

  lemma {:induction false} TrimEndSkipsSuffix(s: string, b: string, drop: char -> bool)
    requires forall i :: 0 <= i < |b| ==> drop(b[i])
    ensures TrimEnd(s + b, drop) == TrimEnd(s, drop)
  {
    if |b| > 0 {
      TrimEndSkipsSuffix(s, b[..|b| - 1], drop);
      assert (s + b)[..|s + b| - 1] == s + b[..|b| - 1];
    } else {
      assert s + b == s;
    }
  }

  // ---------------------------------------------------------------------
  // int() of a run of decimal digits, and its inverse str() of a natural

  predicate AllDigits(s: string)
  {
    forall i :: 0 <= i < |s| ==> IsDigit(s[i])
  }

  function DigitValue(c: char): nat
    requires IsDigit(c)
  {
    c as int - '0' as int
  }

  function Decimal(s: string): nat
    requires AllDigits(s)
  {
    if |s| == 0 then 0 else 10 * Decimal(s[..|s| - 1]) + DigitValue(s[|s| - 1])
  }

  function DigitChar(d: nat): (c: char)
    requires d < 10
    ensures IsDigit(c) && DigitValue(c) == d
  {
    ('0' as int + d) as char
  }

  function ShowNat(n: nat): (s: string)
    ensures |s| > 0 && AllDigits(s)
  {
    if n < 10 then [DigitChar(n)] else ShowNat(n / 10) + [DigitChar(n % 10)]
  }

  /** Reading back the decimal text of a number gives the number. */
  lemma {:induction false} DecimalShowNat(n: nat)
    ensures Decimal(ShowNat(n)) == n
  {
    var s := ShowNat(n);
    if n >= 10 {
      DecimalShowNat(n / 10);
      assert s[..|s| - 1] == ShowNat(n / 10);
    }
  }

  /** Length of the run of digits at the front of s (greedy `\d+`). */
  function DigitRunLength(s: string): (k: nat)
    ensures k <= |s| && AllDigits(s[..k])
    ensures k < |s| ==> !IsDigit(s[k])
  {
    if |s| == 0 || !IsDigit(s[0]) then 0 else 1 + DigitRunLength(s[1..])
  }

  lemma DigitRunOfDigits(s: string)
    requires AllDigits(s)
    ensures DigitRunLength(s) == |s|
  {
  }
}
