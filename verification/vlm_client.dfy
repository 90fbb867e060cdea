/** The value clean-up around the vision-language description call: the
    "unknown" classifier, the sentinel substitution applied after a
    description has been parsed, and the image `data:` URL. The model call
    itself and the JSON extraction are passed in as functions. */
module VlmClient {
  import opened Wrappers
  import opened Text
  import opened Schemas
  import Base64

  /** The sentinel written in place of an unresolved brand, model or year. */
  const Unknown: string := "不明"

  /** `_UNKNOWN_TOKENS`, already in case-folded form. */
  const UnknownTokens: set<string> := {"", "unknown", "n/a", "na", "none", "null", "不明", "不詳", "未記載"}

  /** `_is_unknown_text`: absent, blank, or a token of the set once stripped
      and case-folded. Since `""` is itself a token, the blank test only
      short-cuts the lookup. */
  function IsUnknownText(value: Option<string>): (r: bool)
    ensures value.None? ==> r
    ensures value.Some? ==> (r <==> Lower(Strip(value.value)) in UnknownTokens)
  {
    match value
    case None => true
    case Some(s) => Strip(s) == "" || Lower(Strip(s)) in UnknownTokens
  }

  /** Every token is written in stripped, case-folded form, so each one is
      matched: none of them is dead. */
  lemma EveryTokenIsUnknown()
    ensures forall t :: t in UnknownTokens ==> IsUnknownText(Some(t))
  {
    forall t | t in UnknownTokens
      ensures IsUnknownText(Some(t))
    {
      TokenIsUnknown(t);
    }
  }

  /** A string with no capital letters and no whitespace at either end that
      is a token is unknown. */
  lemma FoldedTokenIsUnknown(t: string)
    requires t in UnknownTokens && IsTrimmed(t)
    requires forall i :: 0 <= i < |t| ==> !('A' <= t[i] <= 'Z')
    ensures IsUnknownText(Some(t))
  {
    assert Lower(t) == t;
    TrimmedUnknownIsToken(t);
  }

  lemma TokenIsUnknown(t: string)
    requires t in UnknownTokens
    ensures IsUnknownText(Some(t))
  {
    if t == "" {
    } else if t == Unknown {
      SentinelIsUnknown();
    } else {
      assert |t| >= 2 && !IsWhitespace(t[0]) && !IsWhitespace(t[|t| - 1]);
      assert forall i :: 0 <= i < |t| ==> !('A' <= t[i] <= 'Z');
      FoldedTokenIsUnknown(t);
    }
  }

  /** Absent, empty and whitespace-only values are unknown. */
  lemma BlankIsUnknown(s: string)
    requires AllWhitespace(s)
    ensures IsUnknownText(None)
    ensures IsUnknownText(Some(s))
  {
  }

  /** Surrounding whitespace never changes the verdict. */
  lemma UnknownIgnoresPadding(w1: string, s: string, w2: string)
    requires AllWhitespace(w1) && AllWhitespace(w2)
    ensures IsUnknownText(Some(w1 + s + w2)) <==> IsUnknownText(Some(s))
  {
    StripIgnoresPadding(w1, s, w2);
  }

  /** Letter case never changes the verdict. */
  lemma UnknownIgnoresCase(s: string)
    ensures IsUnknownText(Some(Lower(s))) <==> IsUnknownText(Some(s))
  {
    LowerStripCommute(s);
    LowerIdempotent(Strip(s));
    var t := Strip(s);
    assert Lower(t) == "" <==> t == "";
  }

  /** For a value with no surrounding whitespace, unknown means exactly that
      its lower-case form is one of the tokens. */
  lemma TrimmedUnknownIsToken(s: string)
    requires IsTrimmed(s)
    ensures IsUnknownText(Some(s)) <==> Lower(s) in UnknownTokens
  {
    assert "" + s + "" == s;
    StripPadded("", s, "");
  }

  /** The sentinel is itself unknown, which makes normalisation idempotent. */
  lemma SentinelIsUnknown()
    ensures IsUnknownText(Some(Unknown))
  {
    var u := Unknown;
    assert |u| == 2 && !IsWhitespace(u[0]) && !IsWhitespace(u[1]);
    assert IsTrimmed(u);
    assert Lower(u)[0] == u[0] && Lower(u)[1] == u[1];
    assert Lower(u) == u;
    TrimmedUnknownIsToken(u);
  }

  /** `"N/A"` is unknown: case is ignored. */
  lemma NotApplicableIsUnknown()
    ensures IsUnknownText(Some("N/A"))
  {
    assert IsTrimmed("N/A");
    TrimmedUnknownIsToken("N/A");
    assert Lower("N/A") == "n/a";
  }

  /** `"  N/A "` is unknown: padding is ignored too. */
  lemma PaddedNotApplicableIsUnknown()
    ensures IsUnknownText(Some("  N/A "))
  {
    var w1, w2 := "  ", " ";
    assert AllWhitespace(w1) && AllWhitespace(w2);
    assert w1 + "N/A" + w2 == "  N/A ";
    UnknownIgnoresPadding(w1, "N/A", w2);
    NotApplicableIsUnknown();
  }

  /** `"Yamaha"` is a known value. */
  lemma BrandNameIsKnown()
    ensures !IsUnknownText(Some("Yamaha"))
  {
    assert IsTrimmed("Yamaha");
    TrimmedUnknownIsToken("Yamaha");
    assert Lower("Yamaha") == "yamaha";
  }

  /** Brand, model and year each hold the sentinel or a known value, and the year is present. */
  predicate Normalized(d: InstrumentDescription) {
    && (d.brand == Unknown || !IsUnknownText(Some(d.brand)))
    && (d.model == Unknown || !IsUnknownText(Some(d.model)))
    && d.year.Some?
    && (d.year.value == Unknown || !IsUnknownText(d.year))
  }

  function Resolve(value: string): string {
    if IsUnknownText(Some(value)) then Unknown else value
  }

  /** The substitution `parse_description` applies after validation: an
      unknown brand, model or year becomes the sentinel, a known one is kept
      exactly as it was (not stripped), and no other field is touched. */
  function Normalize(d: InstrumentDescription): (r: InstrumentDescription)
    ensures Normalized(r)
    ensures r.brand in {d.brand, Unknown} && r.model in {d.model, Unknown}
    ensures r.year == d.year || r.year == Some(Unknown)
    ensures !IsUnknownText(Some(d.brand)) ==> r.brand == d.brand
    ensures !IsUnknownText(Some(d.model)) ==> r.model == d.model
    ensures !IsUnknownText(d.year) ==> r.year == d.year
    ensures r.category == d.category && r.condition == d.condition && r.notes == d.notes
    ensures r.materials == d.materials && r.features == d.features
  {
    SentinelIsUnknown();
    d.(brand := Resolve(d.brand),
       model := Resolve(d.model),
       year := if IsUnknownText(d.year) then Some(Unknown) else d.year)
  }

  /** Normalising twice is normalising once. */
  lemma NormalizeIdempotent(d: InstrumentDescription)
    ensures Normalize(Normalize(d)) == Normalize(d)
  {
    NormalizedIsFixedPoint(Normalize(d));
  }

  /** The descriptions normalisation leaves alone are exactly the normalised ones. */
  lemma NormalizedIsFixedPoint(d: InstrumentDescription)
    ensures Normalize(d) == d <==> Normalized(d)
  {
    SentinelIsUnknown();
  }

  /** `" Yamaha "` is kept with its spaces. */
  lemma KnownValueKeptVerbatim(d: InstrumentDescription)
    requires d.brand == " Yamaha "
    ensures Normalize(d).brand == " Yamaha "
  {
    assert AllWhitespace(" ");
    assert " " + "Yamaha" + " " == " Yamaha ";
    UnknownIgnoresPadding(" ", "Yamaha", " ");
    BrandNameIsKnown();
  }

  /** The blank default description normalises to the sentinel in brand,
      model and year, and stays empty elsewhere. */
  lemma NormalizeDefault()
    ensures var d := Normalize(DefaultDescription());
            d.brand == Unknown && d.model == Unknown && d.year == Some(Unknown)
            && d.category == "" && d.condition == "" && d.notes == ""
            && d.materials == [] && d.features == []
  {
  }

  /** `extract_json_object` followed by `InstrumentDescription.model_validate`:
      the text the model answered with, to a description or an error message. */
  type DescriptionDecoder = string -> Result<InstrumentDescription, string>

  /** `parse_description`: decode and validate, then normalise. A decoding
      error is passed on unchanged. */
  function ParseDescription(outputText: string, decode: DescriptionDecoder): (r: Result<InstrumentDescription, string>)
    ensures decode(outputText).Failure? ==> r == Failure(decode(outputText).error)
    ensures decode(outputText).Success? ==> r.Success? && Normalized(r.value)
    ensures r.Success? ==> r.value == Normalize(decode(outputText).value)
  {
    match decode(outputText)
    case Success(d) => Success(Normalize(d))
    case Failure(e) => Failure(e)
  }

  const DataPrefix: string := "data:"
  const Base64Marker: string := ";base64,"

  /** `build_image_data_url`: a `data:` URL (RFC 2397) carrying the image
      bytes in Base64. The URL is the prefix, the media type, the marker and
      the payload, and the payload decodes back to the image bytes. */
  function BuildImageDataUrl(imageBytes: seq<Base64.byte>, mimeType: string): (url: string)
    ensures |url| == |DataPrefix| + |mimeType| + |Base64Marker| + 4 * ((|imageBytes| + 2) / 3)
    ensures url[..5] == DataPrefix
    ensures url[5..5 + |mimeType|] == mimeType
    ensures url[5 + |mimeType|..13 + |mimeType|] == Base64Marker
    ensures url[13 + |mimeType|..] == Base64.Encode(imageBytes)
    ensures Base64.Decode(url[13 + |mimeType|..]) == Some(imageBytes)
  {
    var payload := Base64.Encode(imageBytes);
    assert |DataPrefix| == 5 && |Base64Marker| == 8;
    FourParts(DataPrefix, mimeType, Base64Marker, payload);
    Base64.DecodeEncode(imageBytes);
    DataPrefix + mimeType + Base64Marker + payload
  }

  /** Where each of four concatenated strings sits in the result. */
  lemma FourParts(a: string, b: string, c: string, d: string)
    ensures var s := a + b + c + d;
            && |s| == |a| + |b| + |c| + |d|
            && s[..|a|] == a
            && s[|a|..|a| + |b|] == b
            && s[|a| + |b|..|a| + |b| + |c|] == c
            && s[|a| + |b| + |c|..] == d
  {
    var s := a + b + c + d;
    assert s == ((a + b) + c) + d;
    assert s[..|a| + |b| + |c|] == (a + b) + c;
    assert s[..|a| + |b|] == a + b;
  }
}
