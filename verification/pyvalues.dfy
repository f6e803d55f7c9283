/** The dynamically typed values found in a specimen record (a Python `dict`
    or a pandas row) and the Python conversions the rules apply to them:
    `float()`, `int()` and `str(...).lower()`. A conversion that raises is
    `None`. */
module PyValues {
  import opened Wrappers
  import Text
  import Numeric

  /** A cell of a record. `NaN` is pandas' missing-value marker; `Nothing` is
      Python's `None`. Numbers are exact reals: Python `int` and `float`
      cells are both `Num`. */
  datatype Value = Num(x: real) | Str(s: string) | Bool(b: bool) | NaN | Nothing

  /** A specimen record: field name to value. */
  type Record = map<string, Value>

  /** `record.get(field, default)`. */
  function Get(r: Record, field: string, default: Value): (v: Value)
    ensures field in r ==> v == r[field]
    ensures field !in r ==> v == default
  {
    if field in r then r[field] else default
  }

  /** The result of a successful `float()`: a finite number or NaN. */
  datatype Float = Finite(x: real) | NotANumber

  /** Python's `float(v)`; `None` when it raises (on `None`, or on a string
      that is not a decimal literal). */
  function ToFloat(v: Value): (r: Option<Float>)
    ensures v.Num? ==> r == Some(Finite(v.x))
    ensures v.Nothing? ==> r.None?
    ensures v.NaN? ==> r == Some(NotANumber)
    ensures v.Str? && r.Some? && r.value.Finite? ==> Text.ParseReal(v.s) == Some(r.value.x)
  {
    match v
    case Num(x) => Some(Finite(x))
    case Bool(b) => Some(Finite(if b then 1.0 else 0.0))
    case NaN => Some(NotANumber)
    case Nothing => None
    case Str(s) =>
      if Text.Lower(Text.Strip(s)) == "nan" then Some(NotANumber)
      else match Text.ParseReal(s)
        case Some(x) => Some(Finite(x))
        case None => None
  }

  /** `float("")` raises: the empty string is neither "nan" nor a literal. */
  lemma EmptyStringNoFloat()
    ensures ToFloat(Str("")).None?
  {
    assert Text.Strip("") == [];
    assert Text.Lower([]) == [];
    Text.ParseRealEmpty();
  }

  /** Python's `int(v)`: truncation of a number, parsing of a string; `None`
      when it raises (on `None`, NaN, or a string that is not an integer
      literal). */
  function ToInt(v: Value): (r: Option<int>)
    ensures v.Num? ==> r == Some(Numeric.Trunc(v.x))
    ensures v.Str? ==> r == Text.ParseInt(v.s)
    ensures v.NaN? || v.Nothing? ==> r.None?
  {
    match v
    case Num(x) => Some(Numeric.Trunc(x))
    case Bool(b) => Some(if b then 1 else 0)
    case NaN => None
    case Nothing => None
    case Str(s) => Text.ParseInt(s)
  }

  /** `str(v).lower()` for the non-numeric values. Numbers render with at
      least one digit, which is all the rules need to know about them, so
      their text is left unmodelled (`None`). */
  function LowerText(v: Value): (r: Option<string>)
    ensures v.Str? ==> r == Some(Text.Lower(v.s))
    ensures r.None? <==> v.Num?
  {
    match v
    case Str(s) => Some(Text.Lower(s))
    case Bool(b) => Some(if b then "true" else "false")
    case NaN => Some("nan")
    case Nothing => Some("none")
    case Num(_) => None
  }

  /** `str(v).lower() == lit` for a literal without digits: a rendered
      number contains a digit and so never equals it. */
  predicate LowerEquals(v: Value, lit: string) {
    match LowerText(v)
    case Some(t) => t == lit
    case None => false
  }
}
