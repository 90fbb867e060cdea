/** The document record the vector store holds (LangChain's `Document`):
    page text plus a metadata mapping whose values are JSON scalars, with
    Python's truthiness and `str()` on those scalars. */
module Documents {

  /** A metadata value. Seed records are flat JSON objects, so their values
      are JSON scalars; JSON numbers with a fraction are not modelled. */
  datatype Scalar = Null | Bool(b: bool) | Int(i: int) | Str(s: string)

  type Metadata = map<string, Scalar>

  datatype Document = Document(text: string, metadata: Metadata)

  /** Python truthiness of a scalar (`if value:`): exactly `None`, `False`,
      `0` and `""` are falsy. */
  function Truthy(v: Scalar): (r: bool)
    ensures !r <==> v in {Null, Bool(false), Int(0), Str("")}
  {
    match v
    case Null => false
    case Bool(b) => b
    case Int(i) => i != 0
    case Str(s) => s != ""
  }

  function DigitChar(d: int): char
    requires 0 <= d < 10
  {
    ('0' as int + d) as char
  }

  predicate IsDigit(c: char) {
    '0' <= c <= '9'
  }

  /** Decimal digits of a natural number, most significant first, without leading zeros. */
  function NatToDecimal(n: nat): (r: string)
    ensures |r| >= 1
    ensures forall i :: 0 <= i < |r| ==> IsDigit(r[i])
    ensures r[0] == '0' ==> n == 0
    decreases n
  {
    if n < 10 then [DigitChar(n)] else NatToDecimal(n / 10) + [DigitChar(n % 10)]
  }

  /** Python `str()` of an `int`. */
  function IntToDecimal(i: int): (r: string)
    ensures |r| >= 1
    ensures (r[0] == '-') <==> i < 0
  {
    if i < 0 then "-" + NatToDecimal(-i) else NatToDecimal(i)
  }

  /** The number a string of decimal digits denotes. */
  function DecimalValue(s: string): nat
    requires forall i :: 0 <= i < |s| ==> IsDigit(s[i])
    decreases |s|
  {
    if |s| == 0 then 0
    else
      assert IsDigit(s[|s| - 1]);
      DecimalValue(s[..|s| - 1]) * 10 + (s[|s| - 1] as int - '0' as int)
  }

  /** Reading the digits back gives the number: `str()` on integers loses nothing. */
  lemma {:induction false} NatToDecimalRoundTrip(n: nat)
    ensures DecimalValue(NatToDecimal(n)) == n
    decreases n
  {
    if n >= 10 {
      var s := NatToDecimal(n);
      NatToDecimalRoundTrip(n / 10);
      assert s[..|s| - 1] == NatToDecimal(n / 10);
    }
  }

  /** After the sign, a negative number prints as its magnitude. */
  lemma NegativeDigits(i: int)
    requires i < 0
    ensures IntToDecimal(i)[1..] == NatToDecimal(-i)
  {
    var d := NatToDecimal(-i);
    assert IntToDecimal(i) == "-" + d;
    assert ("-" + d)[1..] == d;
  }

  /** The digits of a non-negative number print without a sign. */
  lemma ValueOfPrinted(i: int) returns (n: nat)
    ensures n == if i < 0 then -i else i
    ensures DecimalValue(if i < 0 then IntToDecimal(i)[1..] else IntToDecimal(i)) == n
  {
    if i < 0 {
      n := -i;
      NegativeDigits(i);
    } else {
      n := i;
    }
    NatToDecimalRoundTrip(n);
  }

  /** Two different integers never print the same. */
  lemma IntToDecimalInjective(a: int, b: int)
    requires IntToDecimal(a) == IntToDecimal(b)
    ensures a == b
  {
    var m := ValueOfPrinted(a);
    var n := ValueOfPrinted(b);
  }

  /** Python `str()` of a scalar. A string is kept as it is; an integer
      prints as its decimal digits, with a minus sign exactly when negative. */
  function PyStr(v: Scalar): (r: string)
    ensures v.Str? ==> r == v.s
    ensures v.Int? ==> r != "" && (r[0] == '-' <==> v.i < 0)
    ensures v.Int? && v.i >= 0 ==> r == NatToDecimal(v.i) && DecimalValue(r) == v.i
    ensures v.Int? && v.i < 0 ==> r[1..] == NatToDecimal(-v.i) && DecimalValue(r[1..]) == -v.i
    ensures v.Null? ==> r == "None"
    ensures v.Bool? ==> r == (if v.b then "True" else "False")
  {
    match v
    case Null => "None"
    case Bool(b) => if b then "True" else "False"
    case Int(i) =>
      if i < 0 then
        NegativeDigits(i);
        NatToDecimalRoundTrip(-i);
        IntToDecimal(i)
      else
        NatToDecimalRoundTrip(i);
        IntToDecimal(i)
    case Str(s) => s
  }
}
