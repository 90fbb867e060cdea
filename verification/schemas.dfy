/** The two data contracts shared by the backend and the frontend: the
    structured instrument description and the valuation result. */
module Schemas {
  import opened Wrappers

  /** `InstrumentDescription`: every text field defaults to the empty string,
      `year` is optional and defaults to absent, the two lists default to empty. */
  datatype InstrumentDescription = InstrumentDescription(
    category: string,
    brand: string,
    model: string,
    year: Option<string>,
    condition: string,
    materials: seq<string>,
    features: seq<string>,
    notes: string)

  /** Every field holds its empty value. */
  predicate IsBlank(d: InstrumentDescription) {
    && d.category == "" && d.brand == "" && d.model == "" && d.condition == "" && d.notes == ""
    && d.year == None
    && d.materials == [] && d.features == []
  }

  /** The description pydantic builds when no field is given. */
  function DefaultDescription(): (d: InstrumentDescription)
    ensures IsBlank(d)
  {
    InstrumentDescription("", "", "", None, "", [], [], "")
  }

  /** The default is the only blank description. */
  lemma BlankIsDefault(d: InstrumentDescription)
    ensures IsBlank(d) <==> d == DefaultDescription()
  {
  }

  /** `ValuationResult`: a price in yen, a (low, high) pair of yen amounts,
      a confidence, a rationale and the evidence strings. The confidence is a
      float in the source and is carried here as a real without range checks. */
  datatype ValuationResult = ValuationResult(
    priceJpy: int,
    rangeJpy: (int, int),
    confidence: real,
    rationale: string,
    evidence: seq<string>)

  predicate PriceWithinRange(v: ValuationResult) {
    v.rangeJpy.0 <= v.priceJpy <= v.rangeJpy.1
  }

  /** The schema enforces no order between the price and its range: this
      value is a well-typed `ValuationResult` whose price lies outside its range. */
  function UnorderedValuation(): (v: ValuationResult)
    ensures !PriceWithinRange(v)
    ensures v.rangeJpy.0 > v.rangeJpy.1
  {
    ValuationResult(50000, (80000, 30000), 0.5, "", [])
  }
}
