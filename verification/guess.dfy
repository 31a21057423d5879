/**
 The tokenizer's result: a bag of named attributes, each possibly missing.
 The model fixes the attributes the normalization layer reads and their
 value types.
 */
module Guess {

  datatype Option<T> = None | Some(value: T)

  /** A key whose mere presence matters: missing from the bag, or present
      with a value that may itself be None. */
  datatype Field<T> = Absent | Present(held: Option<T>)
  {
    /** `guess.get(key)`: None both when the key is missing and when it holds None. */
    function Get(): Option<T>
    {
      match this
      case Absent => None
      case Present(v) => v
    }
  }

  /** `regexpId` is either a list of matched groups or a single value. */
  datatype RegexpId = IdList(groups: seq<string>) | IdText(text: string)

  /** One tokenizer result. Dates are proleptic Gregorian day ordinals,
      as `date.toordinal()` gives them. `episodeRaw` is the matched text
      recorded in the metadata of `episodeNumber`. */
  datatype Guess = Guess(
    mediaType: Field<string>,
    title: Option<string>,
    series: Option<string>,
    season: Option<int>,
    episodeNumber: Option<int>,
    episodeRaw: Option<string>,
    episodeList: Option<seq<int>>,
    part: Field<int>,
    episodeDetails: Option<string>,
    date: Option<int>,
    year: Option<int>,
    country: Field<string>,
    releaseGroup: Option<string>,
    regexpId: Option<RegexpId>,
    version: Option<int>,
    properCount: Option<int>,
    other: set<string>,
    videoCodec: Option<string>,
    audioCodec: Option<string>,
    videoProfile: Option<string>,
    audioProfile: Option<string>,
    screenSize: Option<string>,
    audioChannels: Option<string>,
    format: Option<string>,
    source: Option<string>,
    subtitleLanguage: Option<seq<string>>,
    language: Option<seq<string>>
  )

  /** The tokenizer found nothing at all. */
  const Empty: Guess := Guess(
    Absent, None, None, None, None, None, None, Absent, None, None, None,
    Absent, None, None, None, None, {}, None, None, None, None, None, None,
    None, None, None, None)

  /** Python truthiness of an optional string: present and non-empty. */
  predicate Truthy(s: Option<string>)
  {
    s.Some? && |s.value| > 0
  }
}
