/** The records the store holds, as they arrive from the parsed JSON document,
    and the JavaScript truthiness tests the code applies to their optional
    fields. */
module Citations {
  import opened Wrappers
  import opened Text

  /** A finite decimal number `units / 10^scale`, standing for a JavaScript
      number read from JSON. */
  datatype Decimal = Decimal(units: int, scale: nat)

  /** `effectSize` as the record may hold it: the key missing (`undefined`),
      an explicit `null`, or a number. */
  datatype EffectSize = Undefined | Null | Number(value: Decimal)

  datatype Citation = Citation(
    id: string,
    title: string,
    authors: string,
    year: int,
    source: string,
    sourceType: string,
    domain: string,
    volume: Option<string>,
    issue: Option<string>,
    pages: Option<string>,
    doi: Option<string>,
    url: Option<string>,
    keywords: seq<string>,
    synthesis: string,
    studyType: string,
    effectSize: EffectSize,
    effectSizeType: Option<string>)

  datatype RiskFactor = RiskFactor(name: string, magnitude: Decimal, unit: string)

  /** The parsed document: its `citations`, `metadata`, `domainDescriptions`
      and `riskFactors` keys (a missing or null object key is `None`). */
  datatype Dataset = Dataset(
    citations: seq<Citation>,
    metadata: Option<map<string, string>>,
    domainDescriptions: Option<map<string, string>>,
    riskFactors: seq<RiskFactor>)

  const Journal := "journal"

  /** `if (field)` on an optional string: present and not empty. */
  predicate Truthy(field: Option<string>) {
    field.Some? && field.value != ""
  }

  /** `if (citation.effectSize)`: a number other than zero. */
  predicate EffectSizeTruthy(e: EffectSize) {
    e.Number? && e.value.units != 0
  }

  /** `citation.effectSize !== null`: `undefined` passes this test. */
  predicate EffectSizeNotNull(e: EffectSize) {
    !e.Null?
  }

  /** `field || ''` on an optional string. */
  function OrEmpty(field: Option<string>): (r: string)
    ensures Truthy(field) ==> r == field.value
    ensures !Truthy(field) ==> r == ""
  {
    if Truthy(field) then field.value else ""
  }

  lemma TruthyEffectSizeIsNotNull(e: EffectSize)
    ensures EffectSizeTruthy(e) ==> EffectSizeNotNull(e)
  {
  }

  // ---------------------------------------------------------------------
  // Rendering a number as `${x}` does
  // ---------------------------------------------------------------------

  /** The number with trailing zeros of its fraction removed. */
  function Normalize(d: Decimal): (r: Decimal)
    ensures r.scale <= d.scale
    ensures r.scale > 0 ==> r.units % 10 != 0
    decreases d.scale
  {
    if d.scale > 0 && d.units % 10 == 0 then Normalize(Decimal(d.units / 10, d.scale - 1)) else d
  }

  /** `m` with its `k` lowest digits dropped. */
  function DropDigits(m: nat, k: nat): nat {
    if k == 0 then m else DropDigits(m / 10, k - 1)
  }

  /** The `k` lowest digits of `m`, leading zeros included. */
  function LowDigits(m: nat, k: nat): (r: string)
    ensures |r| == k
  {
    if k == 0 then "" else LowDigits(m / 10, k - 1) + [DigitChar(m % 10)]
  }

  /** The text of the number as `${x}` gives it: sign, integer digits and,
      when the number is not whole, a point and the fraction digits without
      trailing zeros. */
  function DecimalToString(d: Decimal): (r: string)
    ensures |r| >= 1
  {
    var n := Normalize(d);
    var magnitude: nat := if n.units < 0 then -n.units else n.units;
    var sign := if n.units < 0 then "-" else "";
    var whole := NatToString(DropDigits(magnitude, n.scale));
    if n.scale == 0 then sign + whole
    else sign + whole + "." + LowDigits(magnitude, n.scale)
  }

  lemma DecimalExamples()
    ensures DecimalToString(Decimal(5, 1)) == "0.5"
    ensures DecimalToString(Decimal(50, 2)) == "0.5"
    ensures DecimalToString(Decimal(-125, 2)) == "-1.25"
    ensures DecimalToString(Decimal(2, 0)) == "2"
  {
    assert Normalize(Decimal(50, 2)) == Decimal(5, 1);
    assert Normalize(Decimal(-125, 2)) == Decimal(-125, 2);
    assert DropDigits(125, 2) == 1;
    assert LowDigits(125, 2) == "25" by {
      assert LowDigits(12, 1) == "2";
    }
  }
}
