/**
 The quality view of a guess and the legacy quality token built from it,
 the string later handed to the legacy quality parser.
 */
module GuessitQuality {
  import opened Text
  import opened Guess

  predicate IsScreener(g: Guess)
  {
    "Screener" in g.other
  }

  /** The screener flag reads the Screener tag and no other: adding a tag
      turns it on exactly when that tag is Screener, and no tags means no
      screener. */
  lemma ScreenerFlag(g: Guess, tag: string)
    ensures IsScreener(g.(other := g.other + {tag})) <==> IsScreener(g) || tag == "Screener"
    ensures IsScreener(g.(other := g.other - {tag})) <==> IsScreener(g) && tag != "Screener"
    ensures !IsScreener(Empty)
  {
  }

  /** A non-empty screen size always wins over the HR tag; without one, a
      resolution exists exactly when HR is tagged, and it is "HR". */
  function Resolution(g: Guess): (r: Option<string>)
    ensures Truthy(g.screenSize) ==> r == g.screenSize
    ensures !Truthy(g.screenSize) ==> (r.Some? <==> "HR" in g.other)
    ensures !Truthy(g.screenSize) && r.Some? ==> r == Some("HR")
    ensures r.Some? ==> Truthy(r)
  {
    if Truthy(g.screenSize) then g.screenSize
    else if "HR" in g.other then Some("HR")
    else None
  }

  /** `s.replace('-', '')`: every hyphen goes, every other character is
      kept as often as it occurs (its order is kept too, see
      `WithoutHyphensConcat`). */
  function WithoutHyphens(s: string): (r: string)
    ensures '-' !in r
    ensures forall c :: c != '-' ==> multiset(r)[c] == multiset(s)[c]
    ensures |r| <= |s|
    ensures '-' !in s ==> r == s
  {
    if |s| == 0 then ""
    else
      assert s == [s[0]] + s[1..];
      if s[0] == '-' then WithoutHyphens(s[1..])
      else [s[0]] + WithoutHyphens(s[1..])
  }

  /** The source term: present exactly for a non-empty format, and then
      the format's characters without its hyphens. */
  function SourceTerm(g: Guess): (r: Option<string>)
    ensures r.Some? <==> Truthy(g.format)
    ensures r.Some? ==> '-' !in r.value
    ensures r.Some? ==> forall c :: c != '-' ==> multiset(r.value)[c] == multiset(g.format.value)[c]
  {
    if Truthy(g.format) then Some(WithoutHyphens(g.format.value)) else None
  }

  /** Five-point-one channels with no named codec, or Dolby Digital, is written "dd5.1". */
  predicate IsDolbyDigital51(g: Guess)
  {
    (g.audioChannels == Some("5.1") && g.audioCodec.None?) || g.audioCodec == Some("DolbyDigital")
  }

  /** Dolby Digital is always "dd5.1"; without a codec the term is "dd5.1"
      for 5.1 channels and missing otherwise; any other codec passes through. */
  function AudioTerm(g: Guess): (r: Option<string>)
    ensures g.audioCodec == Some("DolbyDigital") ==> r == Some("dd5.1")
    ensures g.audioCodec.None? ==> r == (if g.audioChannels == Some("5.1") then Some("dd5.1") else None)
    ensures g.audioCodec.Some? && g.audioCodec != Some("DolbyDigital") ==> r == g.audioCodec
  {
    if IsDolbyDigital51(g) then Some("dd5.1") else g.audioCodec
  }

  /** Resolution, source, codec, audio: the fixed order of the token's terms. */
  function Terms(g: Guess): seq<Option<string>>
  {
    [Resolution(g), SourceTerm(g), g.videoCodec, AudioTerm(g)]
  }

  /** `filter(None, terms)`: the present, non-empty terms, in order. That
      every non-empty term is kept, in order, is `KeptEvery` and `KeptConcat`. */
  function Kept(terms: seq<Option<string>>): (r: seq<string>)
    ensures |r| <= |terms|
    ensures forall i :: 0 <= i < |r| ==> |r[i]| > 0
    ensures |r| == 0 <==> forall i :: 0 <= i < |terms| ==> !Truthy(terms[i])
  {
    if |terms| == 0 then []
    else if Truthy(terms[0]) then [terms[0].value] + Kept(terms[1..])
    else Kept(terms[1..])
  }

  /** The legacy quality token: the kept terms joined with single spaces. */
  function LegacyToken(g: Guess): (token: string)
    ensures token == "" <==> forall i :: 0 <= i < 4 ==> !Truthy(Terms(g)[i])
  {
    var kept := Kept(Terms(g));
    JoinIsEmpty(kept, ' ');
    Join(kept, ' ')
  }

  /** Splitting the token on spaces recovers exactly the kept terms, in the
      fixed order, when no term itself holds a space: no term is dropped,
      reordered or merged, and no empty term leaves a stray space. */
  lemma LegacyTokenSplits(g: Guess)
    requires forall i :: 0 <= i < 4 && Terms(g)[i].Some? ==> ' ' !in Terms(g)[i].value
    requires exists i :: 0 <= i < 4 && Truthy(Terms(g)[i])
    ensures SplitOn(LegacyToken(g), ' ') == Kept(Terms(g))
  {
    var terms := Terms(g);
    KeptHasNoSpace(terms);
    SplitJoin(Kept(terms), ' ');
  }

  lemma {:induction false} KeptHasNoSpace(terms: seq<Option<string>>)
    requires forall i :: 0 <= i < |terms| && terms[i].Some? ==> ' ' !in terms[i].value
    ensures forall i :: 0 <= i < |Kept(terms)| ==> ' ' !in Kept(terms)[i]
  {
    if |terms| > 0 {
      KeptHasNoSpace(terms[1..]);
    }
  }

  /** The filter works piece by piece, and a single term is kept exactly
      when it is non-empty: so it keeps every non-empty term, in order, and
      nothing else. */
  lemma KeptConcat(a: seq<Option<string>>, b: seq<Option<string>>)
    ensures Kept(a + b) == Kept(a) + Kept(b)
    ensures |a| == 1 ==> Kept(a) == (if Truthy(a[0]) then [a[0].value] else [])
  {
    KeptAppend(a, b);
    if |a| == 1 {
      assert Kept(a[1..]) == [];
    }
  }

  /** No non-empty term is lost. */
  lemma {:induction false} KeptEvery(terms: seq<Option<string>>)
    ensures forall i :: 0 <= i < |terms| && Truthy(terms[i]) ==> terms[i].value in Kept(terms)
  {
    if |terms| > 0 {
      KeptEvery(terms[1..]);
      assert forall i :: 1 <= i < |terms| ==> terms[i] == terms[1..][i - 1];
    }
  }

  lemma {:induction false} KeptAppend(a: seq<Option<string>>, b: seq<Option<string>>)
    ensures Kept(a + b) == Kept(a) + Kept(b)
    decreases |a|
  {
    if |a| > 0 {
      KeptAppend(a[1..], b);
      KeptStep(a[0], a[1..], b);
      assert [a[0]] + a[1..] == a;
    } else {
      assert a + b == b;
    }
  }

  lemma KeptStep(t: Option<string>, rest: seq<Option<string>>, b: seq<Option<string>>)
    requires Kept(rest + b) == Kept(rest) + Kept(b)
    ensures Kept([t] + rest + b) == Kept([t] + rest) + Kept(b)
  {
    var head: seq<string> := if Truthy(t) then [t.value] else [];
    calc {
      Kept([t] + rest + b);
      { Associative([t], rest, b); }
      Kept([t] + (rest + b));
      { KeptCons(t, rest + b); }
      head + (Kept(rest) + Kept(b));
      { Associative(head, Kept(rest), Kept(b)); }
      (head + Kept(rest)) + Kept(b);
      { KeptCons(t, rest); }
      Kept([t] + rest) + Kept(b);
    }
  }

  lemma Associative<T>(x: seq<T>, y: seq<T>, z: seq<T>)
    ensures x + (y + z) == (x + y) + z
  {
  }

  lemma KeptCons(t: Option<string>, rest: seq<Option<string>>)
    ensures Kept([t] + rest) == (if Truthy(t) then [t.value] else []) + Kept(rest)
  {
    assert ([t] + rest)[0] == t && ([t] + rest)[1..] == rest;
  }

  /** Examples: 1080p Blu-ray x264 without audio gives "1080p Bluray x264". */
  lemma LegacyTokenExample()
    ensures LegacyToken(Empty.(format := Some("Blu-ray"), videoCodec := Some("x264"), screenSize := Some("1080p")))
         == "1080p Bluray x264"
    ensures AudioTerm(Empty.(audioChannels := Some("5.1"))) == Some("dd5.1")
  {
    var g := Empty.(format := Some("Blu-ray"), videoCodec := Some("x264"), screenSize := Some("1080p"));
    BlurayWithoutHyphens();
    assert Terms(g) == [Some("1080p"), Some("Bluray"), Some("x264"), None];
    ExampleTermsKept();
    ExampleTermsJoined();
  }

  /** Removing hyphens works piece by piece. */
  lemma {:induction false} WithoutHyphensConcat(a: string, b: string)
    ensures WithoutHyphens(a + b) == WithoutHyphens(a) + WithoutHyphens(b)
    decreases |a|
  {
    if |a| == 0 {
      assert a + b == b;
    } else {
      assert (a + b)[0] == a[0];
      assert (a + b)[1..] == a[1..] + b;
      WithoutHyphensConcat(a[1..], b);
      if a[0] != '-' {
        var x, y := WithoutHyphens(a[1..]), WithoutHyphens(b);
        assert [a[0]] + (x + y) == ([a[0]] + x) + y;
      }
    }
  }

  lemma BlurayWithoutHyphens()
    ensures WithoutHyphens("Blu-ray") == "Bluray"
  {
    var a, b, c := "Blu", "-", "ray";
    assert a + (b + c) == "Blu-ray";
    assert a + c == "Bluray";
    assert WithoutHyphens(b + c) == c by {
      WithoutHyphensConcat(b, c);
      assert WithoutHyphens(b) == "";
    }
    WithoutHyphensConcat(a, b + c);
  }

  lemma ExampleTermsKept()
    ensures Kept([Some("1080p"), Some("Bluray"), Some("x264"), None]) == ["1080p", "Bluray", "x264"]
  {
    var terms := [Some("1080p"), Some("Bluray"), Some("x264"), None];
    assert Kept(terms[3..]) == [];
    assert Kept(terms[2..]) == ["x264"];
    assert Kept(terms[1..]) == ["Bluray", "x264"];
  }

  lemma ExampleTermsJoined()
    ensures Join(["1080p", "Bluray", "x264"], ' ') == "1080p Bluray x264"
  {
    assert Join(["x264"], ' ') == "x264";
    assert Join(["Bluray", "x264"], ' ') == "Bluray x264";
  }
}
