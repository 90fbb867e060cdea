/** The single-page frontend: the editable description form, the text
    conversions between the list fields and their input boxes, and the two
    button handlers with the request to the backend passed in as a function. */
module App {
  import opened Wrappers
  import opened Text
  import opened Schemas
  import Base64

  /** `emptyDescription`: the form's starting value. */
  function EmptyDescription(): (d: InstrumentDescription)
    ensures IsBlank(d)
  {
    InstrumentDescription("", "", "", None, "", [], [], "")
  }

  /** The frontend's empty form is the backend's default description. */
  lemma EmptyDescriptionIsDefault()
    ensures EmptyDescription() == DefaultDescription()
  {
    BlankIsDefault(EmptyDescription());
  }

  // ---------------------------------------------------------------------------
  // Field updates

  /** The keys of `InstrumentDescription`. */
  datatype Field = Category | Brand | Model | Year | Condition | Materials | Features | Notes

  /** The value a field holds, tagged by its type. */
  datatype FieldValue = Plain(s: string) | MaybeText(o: Option<string>) | Items(xs: seq<string>)

  /** `description[key]`. The year is the one optional text, materials and
      features are the lists, and every other key holds text. */
  function Get(d: InstrumentDescription, f: Field): (v: FieldValue)
    ensures v.MaybeText? <==> f == Year
    ensures v.Items? <==> f == Materials || f == Features
  {
    match f
    case Category => Plain(d.category)
    case Brand => Plain(d.brand)
    case Model => Plain(d.model)
    case Year => MaybeText(d.year)
    case Condition => Plain(d.condition)
    case Materials => Items(d.materials)
    case Features => Items(d.features)
    case Notes => Plain(d.notes)
  }

  /** Two descriptions that agree on every field are the same description. */
  lemma FieldsDetermineDescription(a: InstrumentDescription, b: InstrumentDescription)
    requires forall f :: Get(a, f) == Get(b, f)
    ensures a == b
  {
    assert Get(a, Category) == Get(b, Category);
    assert Get(a, Brand) == Get(b, Brand);
    assert Get(a, Model) == Get(b, Model);
    assert Get(a, Year) == Get(b, Year);
    assert Get(a, Condition) == Get(b, Condition);
    assert Get(a, Materials) == Get(b, Materials);
    assert Get(a, Features) == Get(b, Features);
    assert Get(a, Notes) == Get(b, Notes);
  }

  /** One call of `updateField(key, value)`: the key and a value of that
      key's type, which the type parameter `K` ties together in the source. */
  datatype Edit =
    | SetCategory(s: string)
    | SetBrand(s: string)
    | SetModel(s: string)
    | SetYear(y: Option<string>)
    | SetCondition(s: string)
    | SetMaterials(xs: seq<string>)
    | SetFeatures(xs: seq<string>)
    | SetNotes(s: string)

  function FieldOf(e: Edit): Field {
    match e
    case SetCategory(_) => Category
    case SetBrand(_) => Brand
    case SetModel(_) => Model
    case SetYear(_) => Year
    case SetCondition(_) => Condition
    case SetMaterials(_) => Materials
    case SetFeatures(_) => Features
    case SetNotes(_) => Notes
  }

  function EditValue(e: Edit): FieldValue {
    match e
    case SetCategory(s) => Plain(s)
    case SetBrand(s) => Plain(s)
    case SetModel(s) => Plain(s)
    case SetYear(y) => MaybeText(y)
    case SetCondition(s) => Plain(s)
    case SetMaterials(xs) => Items(xs)
    case SetFeatures(xs) => Items(xs)
    case SetNotes(s) => Plain(s)
  }

  /** `updateField`: `{ ...prev, [key]: value }` — the edited field takes the
      new value and every other field keeps the old one. */
  function UpdateField(d: InstrumentDescription, e: Edit): (r: InstrumentDescription)
    ensures Get(r, FieldOf(e)) == EditValue(e)
    ensures forall f :: f != FieldOf(e) ==> Get(r, f) == Get(d, f)
  {
    match e
    case SetCategory(s) => d.(category := s)
    case SetBrand(s) => d.(brand := s)
    case SetModel(s) => d.(model := s)
    case SetYear(y) => d.(year := y)
    case SetCondition(s) => d.(condition := s)
    case SetMaterials(xs) => d.(materials := xs)
    case SetFeatures(xs) => d.(features := xs)
    case SetNotes(s) => d.(notes := s)
  }

  /** Writing a field's current value back changes nothing. */
  lemma UpdateWithCurrentValue(d: InstrumentDescription, e: Edit)
    requires EditValue(e) == Get(d, FieldOf(e))
    ensures UpdateField(d, e) == d
  {
    FieldsDetermineDescription(UpdateField(d, e), d);
  }

  /** Of two edits to the same field, the later one wins. */
  lemma LastEditWins(d: InstrumentDescription, e1: Edit, e2: Edit)
    requires FieldOf(e1) == FieldOf(e2)
    ensures UpdateField(UpdateField(d, e1), e2) == UpdateField(d, e2)
  {
    FieldsDetermineDescription(UpdateField(UpdateField(d, e1), e2), UpdateField(d, e2));
  }

  /** Edits to different fields can be applied in either order. */
  lemma EditsToDifferentFieldsCommute(d: InstrumentDescription, e1: Edit, e2: Edit)
    requires FieldOf(e1) != FieldOf(e2)
    ensures UpdateField(UpdateField(d, e1), e2) == UpdateField(UpdateField(d, e2), e1)
  {
    FieldsDetermineDescription(UpdateField(UpdateField(d, e1), e2), UpdateField(UpdateField(d, e2), e1));
  }

  // ---------------------------------------------------------------------------
  // The list fields and their input boxes

  /** `value.split(sep).map(trim).filter(Boolean)`: the items typed into a
      list field's box. Each item is non-empty, trimmed and free of the separator. */
  function ParseItems(value: string, sep: char): (r: seq<string>)
    ensures forall k :: 0 <= k < |r| ==> r[k] != "" && IsTrimmed(r[k])
    ensures forall k :: 0 <= k < |r| ==> sep !in r[k]
    ensures StrippedFrom(r, Split(value, sep))
    ensures forall i :: 0 <= i < |Split(value, sep)| && !AllWhitespace(Split(value, sep)[i]) ==>
              Strip(Split(value, sep)[i]) in r
    ensures |r| <= |Split(value, sep)|
  {
    CleanPiecesKeepAbsent(Split(value, sep), sep);
    CleanPieces(Split(value, sep))
  }

  /** The items of two texts joined by the separator are the first text's
      items followed by the second's: parsing keeps the typed order and every
      repeat. */
  lemma ParseItemsAppend(a: string, sep: char, b: string)
    ensures ParseItems(a + [sep] + b, sep) == ParseItems(a, sep) + ParseItems(b, sep)
  {
    SplitAppend(a, sep, b);
    CleanPiecesAppend(Split(a, sep), Split(b, sep));
  }

  /** A text without the separator gives one item, its trimmed form, unless
      it is blank. */
  lemma ParseItemsPiece(s: string, sep: char)
    requires sep !in s
    ensures ParseItems(s, sep) == if AllWhitespace(s) then [] else [Strip(s)]
  {
    SplitSeparatorFree(s, sep);
    assert [s][1..] == [];
  }

  /** The materials box: comma-separated. */
  function ParseMaterials(value: string): (r: seq<string>)
    ensures CleanItems(r, ',')
    ensures StrippedFrom(r, Split(value, ','))
    ensures forall i :: 0 <= i < |Split(value, ',')| && !AllWhitespace(Split(value, ',')[i]) ==>
              Strip(Split(value, ',')[i]) in r
    ensures |r| <= |Split(value, ',')|
  {
    ParseItems(value, ',')
  }

  /** The features box: one item per line. */
  function ParseFeatures(value: string): (r: seq<string>)
    ensures CleanItems(r, '\n')
    ensures StrippedFrom(r, Split(value, '\n'))
    ensures forall i :: 0 <= i < |Split(value, '\n')| && !AllWhitespace(Split(value, '\n')[i]) ==>
              Strip(Split(value, '\n')[i]) in r
    ensures |r| <= |Split(value, '\n')|
  {
    ParseItems(value, '\n')
  }

  /** `materials.join(", ")`. */
  function MaterialsText(xs: seq<string>): (r: string)
    ensures CleanItems(xs, ',') ==> ParseMaterials(r) == xs
  {
    assert CleanItems(xs, ',') ==> ParseMaterials(Join(xs, ", ")) == xs by {
      if CleanItems(xs, ',') {
        assert AllWhitespace(" ");
        assert [','] + " " == ", ";
        ParseJoin(xs, ',', " ");
      }
    }
    Join(xs, ", ")
  }

  /** `features.join("\n")`. */
  function FeaturesText(xs: seq<string>): (r: string)
    ensures CleanItems(xs, '\n') ==> ParseFeatures(r) == xs
  {
    assert CleanItems(xs, '\n') ==> ParseFeatures(Join(xs, "\n")) == xs by {
      if CleanItems(xs, '\n') {
        assert ['\n'] + "" == "\n";
        ParseJoin(xs, '\n', "");
      }
    }
    Join(xs, "\n")
  }

  /** Items the boxes can show and read back unchanged: non-empty, trimmed,
      and without the separator. */
  predicate CleanItems(xs: seq<string>, sep: char) {
    forall k :: 0 <= k < |xs| ==> xs[k] != "" && IsTrimmed(xs[k]) && sep !in xs[k]
  }

  /** A piece that is not blank contributes its stripped form first. */
  lemma CleanPiecesHead(piece: string, rest: seq<string>)
    requires Strip(piece) != ""
    ensures CleanPieces([piece] + rest) == [Strip(piece)] + CleanPieces(rest)
  {
    assert ([piece] + rest)[1..] == rest;
  }

  /** The first item, after the padding `w`, is read back as itself. */
  lemma PaddedItemReadBack(w: string, x: string, sep: char)
    requires AllWhitespace(w) && sep !in w
    requires x != "" && IsTrimmed(x) && sep !in x
    ensures sep !in w + x
    ensures Strip(w + x) == x
  {
    assert w + x + "" == w + x;
    StripPadded(w, x, "");
  }

  /** The last item. */
  lemma ParseJoinLast(w: string, x: string, sep: char)
    requires AllWhitespace(w) && sep !in w
    requires x != "" && IsTrimmed(x) && sep !in x
    ensures CleanPieces(Split(w + x, sep)) == [x]
  {
    PaddedItemReadBack(w, x, sep);
    SplitSeparatorFree(w + x, sep);
    CleanSinglePiece(w + x);
  }

  lemma CleanSinglePiece(piece: string)
    requires Strip(piece) != ""
    ensures CleanPieces([piece]) == [Strip(piece)]
  {
    assert [piece][1..] == [];
  }

  /** One item followed by the separator and the rest of the text. */
  lemma ParseJoinStep(w: string, x: string, sep: char, tail: string)
    requires AllWhitespace(w) && sep !in w
    requires x != "" && IsTrimmed(x) && sep !in x
    ensures CleanPieces(Split((w + x) + [sep] + tail, sep)) == [x] + CleanPieces(Split(tail, sep))
  {
    PaddedItemReadBack(w, x, sep);
    SplitAfterPiece(w + x, sep, tail);
    CleanPiecesHead(w + x, Split(tail, sep));
  }

  /** The joined text opens with the first item, then the separator. */
  lemma JoinUnfold(w: string, xs: seq<string>, sep: char, pad: string)
    requires |xs| >= 2
    ensures w + Join(xs, [sep] + pad) == (w + xs[0]) + [sep] + (pad + Join(xs[1..], [sep] + pad))
  {
  }

  /** Only padding is left: nothing is read. */
  lemma ParseJoinNone(w: string, sep: char)
    requires AllWhitespace(w) && sep !in w
    ensures CleanPieces(Split(w, sep)) == []
  {
    SplitSeparatorFree(w, sep);
    assert [w][1..] == [];
  }

  /** Clean items keep their cleanliness in every suffix. */
  lemma CleanItemsTail(xs: seq<string>, sep: char)
    requires |xs| > 0 && CleanItems(xs, sep)
    ensures CleanItems(xs[1..], sep)
    ensures xs[0] != "" && IsTrimmed(xs[0]) && sep !in xs[0]
  {
    assert forall k :: 1 <= k < |xs| ==> xs[1..][k - 1] == xs[k];
  }

  /** The join of a single item is that item. */
  lemma ParseJoinSingle(w: string, xs: seq<string>, sep: char, pad: string)
    requires |xs| == 1
    requires AllWhitespace(w) && sep !in w
    requires xs[0] != "" && IsTrimmed(xs[0]) && sep !in xs[0]
    ensures CleanPieces(Split(w + Join(xs, [sep] + pad), sep)) == xs
  {
    assert w + Join(xs, [sep] + pad) == w + xs[0];
    ParseJoinLast(w, xs[0], sep);
  }

  /** The first of several items is read back, then the rest as before. */
  lemma ParseJoinMore(w: string, xs: seq<string>, sep: char, pad: string)
    requires |xs| >= 2
    requires AllWhitespace(w) && sep !in w
    requires xs[0] != "" && IsTrimmed(xs[0]) && sep !in xs[0]
    requires CleanPieces(Split(pad + Join(xs[1..], [sep] + pad), sep)) == xs[1..]
    ensures CleanPieces(Split(w + Join(xs, [sep] + pad), sep)) == xs
  {
    var tail := pad + Join(xs[1..], [sep] + pad);
    var front := (w + xs[0]) + [sep] + tail;
    JoinUnfold(w, xs, sep, pad);
    assert w + Join(xs, [sep] + pad) == front;
    ParseJoinStep(w, xs[0], sep, tail);
    HeadAndTail(xs);
  }

  lemma HeadAndTail(xs: seq<string>)
    requires |xs| >= 1
    ensures [xs[0]] + xs[1..] == xs
  {
  }

  /** Whitespace before each item is trimmed away again; the invariant of the
      round trip below, with `w` the padding left over from the previous separator. */
  lemma {:induction false} ParseJoinPadded(w: string, xs: seq<string>, sep: char, pad: string)
    requires AllWhitespace(w) && sep !in w
    requires AllWhitespace(pad) && sep !in pad
    requires CleanItems(xs, sep)
    ensures CleanPieces(Split(w + Join(xs, [sep] + pad), sep)) == xs
    decreases |xs|
  {
    if |xs| == 0 {
      assert w + Join(xs, [sep] + pad) == w;
      ParseJoinNone(w, sep);
    } else {
      CleanItemsTail(xs, sep);
      if |xs| == 1 {
        ParseJoinSingle(w, xs, sep, pad);
      } else {
        ParseJoinPadded(pad, xs[1..], sep, pad);
        ParseJoinMore(w, xs, sep, pad);
      }
    }
  }

  /** Joining items with the separator and optional whitespace after it, then
      parsing, gives the items back. */
  lemma ParseJoin(xs: seq<string>, sep: char, pad: string)
    requires AllWhitespace(pad) && sep !in pad
    requires CleanItems(xs, sep)
    ensures ParseItems(Join(xs, [sep] + pad), sep) == xs
  {
    assert "" + Join(xs, [sep] + pad) == Join(xs, [sep] + pad);
    ParseJoinPadded("", xs, sep, pad);
  }

  /** Whatever is typed, what the box then shows reads back to the same list:
      after one edit the box is stable. */
  lemma MaterialsEditIsStable(value: string)
    ensures ParseMaterials(MaterialsText(ParseMaterials(value))) == ParseMaterials(value)
  {
  }

  lemma FeaturesEditIsStable(value: string)
    ensures ParseFeatures(FeaturesText(ParseFeatures(value))) == ParseFeatures(value)
  {
  }

  /** The boxes are controlled inputs that show the joined list, so text is
      not kept as typed. A separator typed after an item is dropped at once. */
  lemma TrailingSeparatorDropped(x: string, sep: char)
    requires x != "" && IsTrimmed(x) && sep !in x
    ensures ParseItems(x + [sep], sep) == [x]
  {
    assert ("" + x) + [sep] + "" == x + [sep];
    ParseJoinStep("", x, sep, "");
    ParseJoinNone("", sep);
  }

  /** Trailing whitespace typed after an item is dropped at once too. */
  lemma TrailingSpaceDropped(x: string, sep: char, w: string)
    requires x != "" && IsTrimmed(x) && sep !in x
    requires AllWhitespace(w) && sep !in w
    ensures ParseItems(x + w, sep) == [x]
  {
    assert sep !in x + w;
    SplitSeparatorFree(x + w, sep);
    assert "" + x + w == x + w;
    StripPadded("", x, w);
    CleanSinglePiece(x + w);
  }

  /** Typing `,` or a space after a material: on the next render the box
      shows the material alone, so a second material cannot be typed after
      a comma; it has to be pasted or typed before the comma. */
  lemma MaterialsBoxDropsTrailingComma(x: string)
    requires x != "" && IsTrimmed(x) && ',' !in x
    ensures MaterialsText(ParseMaterials(x + ",")) == x
    ensures MaterialsText(ParseMaterials(x + " ")) == x
  {
    assert x + "," == x + [','];
    TrailingSeparatorDropped(x, ',');
    assert AllWhitespace(" ");
    TrailingSpaceDropped(x, ',', " ");
  }

  /** Pressing Enter after a feature: on the next render the box shows the
      feature alone, so the new line is lost. */
  lemma FeaturesBoxDropsNewLine(x: string)
    requires x != "" && IsTrimmed(x) && '\n' !in x
    ensures FeaturesText(ParseFeatures(x + "\n")) == x
  {
    assert x + "\n" == x + ['\n'];
    TrailingSeparatorDropped(x, '\n');
  }

  /** `description.year ?? ""`: what the year box shows. The box is empty
      for no year and for the empty year alike, so a year survives being shown
      and read back exactly when it is not the empty string; null survives. */
  function YearText(year: Option<string>): (r: string)
    ensures r == "" <==> year.None? || year == Some("")
    ensures YearFromText(r) == year <==> year != Some("")
  {
    year.GetOr("")
  }

  /** `event.target.value || null`: an empty box means no year. */
  function YearFromText(value: string): (year: Option<string>)
    ensures year.None? <==> value == ""
  {
    if value == "" then None else Some(value)
  }

  /** Whatever is typed is shown back unchanged. */
  lemma YearTextRoundTrip(value: string)
    ensures YearText(YearFromText(value)) == value
  {
  }

  // ---------------------------------------------------------------------------
  // The handlers

  /** The selected image. */
  datatype ImageFile = ImageFile(mimeType: string, bytes: seq<Base64.byte>)

  datatype Status = Idle | Describing | Estimating

  /** The component's state hooks. */
  datatype UiState = UiState(
    file: Option<ImageFile>,
    description: InstrumentDescription,
    valuation: Option<ValuationResult>,
    status: Status,
    error: Option<string>)

  /** The first render. */
  function InitialState(): (st: UiState)
    ensures st.file.None? && IsBlank(st.description) && st.valuation.None?
    ensures st.status == Idle && st.error.None?
  {
    UiState(None, EmptyDescription(), None, Idle, None)
  }

  const NoFileMessage: string := "画像を選択してください。"
  const DescribeFailedMessage: string := "解析に失敗しました。"
  const EstimateFailedMessage: string := "見積もりに失敗しました。"

  /** What an awaited request settles to: the response, or the thrown value,
      which carries a message when it is an `Error`. */
  type Outcome<T> = Result<T, Option<string>>

  /** The message shown for a thrown value: its own when it is an `Error`, the
      fallback otherwise. */
  function ErrorMessage(thrown: Option<string>, fallback: string): (msg: string)
    ensures thrown.Some? ==> msg == thrown.value
    ensures thrown.None? ==> msg == fallback
  {
    thrown.GetOr(fallback)
  }

  /** The synchronous part of `handleDescribe` before the request: `false` when
      there is no file (the error is set and nothing else happens), otherwise
      the state while the request is pending. */
  function BeginDescribe(st: UiState): (r: (UiState, bool))
    ensures r.1 <==> st.file.Some?
    ensures !r.1 ==> r.0 == st.(error := Some(NoFileMessage))
    ensures r.1 ==> r.0.status == Describing && r.0.error.None? && r.0.valuation.None?
    ensures r.0.file == st.file && r.0.description == st.description
  {
    if st.file.None? then (st.(error := Some(NoFileMessage)), false)
    else (st.(status := Describing, error := None, valuation := None), true)
  }

  /** The rest of `handleDescribe` once the request settles. */
  function FinishDescribe(st: UiState, outcome: Outcome<InstrumentDescription>): (r: UiState)
    ensures r.status == Idle && r.file == st.file && r.valuation == st.valuation
    ensures outcome.Success? ==> r.description == outcome.value && r.error == st.error
    ensures outcome.Failure? ==> r.description == st.description
    ensures outcome.Failure? && outcome.error.Some? ==> r.error == outcome.error
    ensures outcome.Failure? && outcome.error.None? ==> r.error == Some(DescribeFailedMessage)
  {
    match outcome
    case Success(d) => st.(description := d, status := Idle)
    case Failure(thrown) => st.(error := Some(ErrorMessage(thrown, DescribeFailedMessage)), status := Idle)
  }

  /** `handleDescribe`, with `describeInstrument` as `describe`. */
  function HandleDescribe(st: UiState, describe: ImageFile -> Outcome<InstrumentDescription>): (r: UiState)
    ensures st.file.None? ==> r == st.(error := Some(NoFileMessage))
    ensures st.file.Some? ==> r.status == Idle && r.valuation.None? && r.file == st.file
    ensures st.file.Some? && describe(st.file.value).Success? ==>
              r.description == describe(st.file.value).value && r.error.None?
    ensures st.file.Some? && describe(st.file.value).Failure? ==>
              r.description == st.description && r.error.Some?
  {
    var (pending, started) := BeginDescribe(st);
    if started then FinishDescribe(pending, describe(st.file.value)) else pending
  }

  /** Without a file the request is never made: the result does not depend on it. */
  lemma NoFileNeverDescribes(st: UiState, d1: ImageFile -> Outcome<InstrumentDescription>,
                             d2: ImageFile -> Outcome<InstrumentDescription>)
    requires st.file.None?
    ensures HandleDescribe(st, d1) == HandleDescribe(st, d2)
    ensures HandleDescribe(st, d1).status == st.status
  {
  }

  /** The synchronous part of `handleEstimate`: no guard, and the previous
      valuation stays on screen while the request is pending. */
  function BeginEstimate(st: UiState): (r: UiState)
    ensures r.status == Estimating && r.error.None?
    ensures r.valuation == st.valuation && r.description == st.description && r.file == st.file
  {
    st.(status := Estimating, error := None)
  }

  /** The rest of `handleEstimate` once the request settles. */
  function FinishEstimate(st: UiState, outcome: Outcome<ValuationResult>): (r: UiState)
    ensures r.status == Idle && r.file == st.file && r.description == st.description
    ensures outcome.Success? ==> r.valuation == Some(outcome.value) && r.error == st.error
    ensures outcome.Failure? ==> r.valuation == st.valuation
    ensures outcome.Failure? && outcome.error.Some? ==> r.error == outcome.error
    ensures outcome.Failure? && outcome.error.None? ==> r.error == Some(EstimateFailedMessage)
  {
    match outcome
    case Success(v) => st.(valuation := Some(v), status := Idle)
    case Failure(thrown) => st.(error := Some(ErrorMessage(thrown, EstimateFailedMessage)), status := Idle)
  }

  /** `handleEstimate`, with `estimateValue` as `estimate`: the current
      description is sent whether or not a file is selected. */
  function HandleEstimate(st: UiState, estimate: InstrumentDescription -> Outcome<ValuationResult>): (r: UiState)
    ensures r.status == Idle && r.file == st.file && r.description == st.description
    ensures estimate(st.description).Success? ==>
              r.valuation == Some(estimate(st.description).value) && r.error.None?
    ensures estimate(st.description).Failure? ==> r.valuation == st.valuation && r.error.Some?
  {
    FinishEstimate(BeginEstimate(st), estimate(st.description))
  }

  /** No request is pending. */
  predicate Settled(st: UiState) {
    st.status == Idle
  }

  /** Started from a settled state, each handler, once its request has
      returned (or it stopped early), leaves the page settled again. */
  lemma HandlersKeepSettled(st: UiState, describe: ImageFile -> Outcome<InstrumentDescription>,
                            estimate: InstrumentDescription -> Outcome<ValuationResult>)
    requires Settled(st)
    ensures Settled(HandleDescribe(st, describe))
    ensures Settled(HandleEstimate(st, estimate))
  {
  }

  /** A successful description replaces the form and drops the valuation,
      so an estimate for the old form is never shown next to the new one. */
  lemma DescribeClearsStaleValuation(st: UiState, describe: ImageFile -> Outcome<InstrumentDescription>)
    requires st.file.Some?
    ensures HandleDescribe(st, describe).valuation.None?
  {
  }
}
