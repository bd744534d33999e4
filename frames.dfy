/** Cell values, tabular batches and the host language's value conversions.

    A cell is missing (Python `None`, pandas NaN), a piece of text or a number.
    Numbers are reals: floating-point rounding and NaN as a number are not
    part of this model. Parsing text as a number and rendering a number as
    text are the host language's and the data-frame library's business; they
    are parameters here, so every property proved holds for any parser and
    any renderer. */
module Frames {
  import opened Wrappers
  import opened Dicts

  datatype Value = Missing | Str(s: string) | Num(n: real)

  /** A batch: columns in order, each a name and one value per row. */
  datatype Frame = Frame(columns: Dict<seq<Value>>, height: nat)

  ghost predicate WellFormed(df: Frame)
  {
    && UniqueKeys(df.columns)
    && forall c :: 0 <= c < |df.columns| ==> |df.columns[c].1| == df.height
  }

  datatype Conversions = Conversions(
    parseFloat: string -> Option<real>,  // Python float(text); None where it raises
    parseInt: string -> Option<int>,     // Python int(text); None where it raises
    toNumeric: string -> Option<real>,   // pandas to_numeric on one text cell
    render: real -> string)              // str(number), f"{number}"

  /** Text pandas gives a missing cell when a column is cast to text. */
  const MissingText := "nan"

  /** `astype(str)` on one cell. */
  function CellText(conv: Conversions, v: Value): string
  {
    match v
    case Missing => MissingText
    case Str(s) => s
    case Num(n) => conv.render(n)
  }

  /** `pd.to_numeric(errors='coerce')` on one cell: what does not parse
      becomes missing. */
  function ToNumeric(conv: Conversions, v: Value): (r: Value)
    ensures r.Missing? || r.Num?
    ensures v.Num? || v.Missing? ==> r == v
    ensures v.Str? ==> (r.Num? <==> conv.toNumeric(v.s).Some?)
    ensures v.Str? && r.Num? ==> r.n == conv.toNumeric(v.s).value
  {
    match v
    case Missing => Missing
    case Num(n) => Num(n)
    case Str(s) => if conv.toNumeric(s).Some? then Num(conv.toNumeric(s).value) else Missing
  }
}
