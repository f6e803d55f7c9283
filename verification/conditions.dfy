/** The conditions a porcelain-crab rule tests on a specimen record, and the
    tolerance test `chequear_rango` behind the morphometric ones. A condition
    evaluates to `Some(b)`, or to `None` when the Python lambda raises. */
module Conditions {
  import opened Wrappers
  import opened PyValues
  import Text

  /** `chequear_rango(valor, objetivo, tolerancia)`: both values are converted
      with `float()`; a failed conversion gives `false` instead of raising,
      and a NaN compares false. */
  function ChequearRango(valor: Value, objetivo: Value, tolerancia: real): (r: bool)
    ensures r ==> ToFloat(valor).Some? && ToFloat(objetivo).Some?
    ensures ToFloat(valor) == Some(NotANumber) || ToFloat(objetivo) == Some(NotANumber) ==> !r
  {
    match (ToFloat(valor), ToFloat(objetivo))
    case (Some(Finite(v)), Some(Finite(o))) => InBand(v, o, tolerancia)
    case _ => false
  }

  /** `o * (1 - t) <= v <= o * (1 + t)`, both ends inclusive. */
  predicate InBand(v: real, o: real, t: real) {
    o * (1.0 - t) <= v <= o * (1.0 + t)
  }

  /** The tolerance band in the usual case: a non-negative target and a
      tolerance of at most 100 % give the interval centred on the target with
      half-width `o * t`. */
  lemma InBandInterval(v: real, o: real, t: real)
    requires o >= 0.0 && 0.0 <= t <= 1.0
    ensures InBand(v, o, t) <==> o - o * t <= v <= o + o * t
    ensures InBand(o, o, t)
  {
  }

  /** For a positive target and a tolerance below 100 %, only a positive
      measurement can be in range; in particular a missing one (read as 0)
      never is. */
  lemma InBandPositive(valor: Value, o: real, t: real)
    requires o > 0.0 && t < 1.0
    requires ChequearRango(valor, Num(o), t)
    ensures ToFloat(valor).Some? && ToFloat(valor).value.Finite? && ToFloat(valor).value.x > 0.0
  {
    var f := ToFloat(valor);
    assert f.Some? && f.value.Finite?;
    var v := f.value.x;
    assert InBand(v, o, t);
    ScaleMonotone(o, 0.0, 1.0 - t);
  }

  /** Scaling by a non-negative factor keeps the order. */
  lemma ScaleMonotone(o: real, a: real, b: real)
    requires o >= 0.0 && a <= b
    ensures o * a <= o * b
    ensures o > 0.0 && a < b ==> o * a < o * b
  {
    var d := b - a;
    assert o * b == o * a + o * d;
    assert o * d >= 0.0;
  }

  /** Widening the tolerance never rejects a value that was accepted. */
  lemma InBandWider(v: real, o: real, t1: real, t2: real)
    requires o >= 0.0 && t1 <= t2
    requires InBand(v, o, t1)
    ensures InBand(v, o, t2)
  {
    ScaleMonotone(o, 1.0 - t2, 1.0 - t1);
    ScaleMonotone(o, 1.0 + t1, 1.0 + t2);
  }

  /** The tolerance used when `chequear_rango` is called with two arguments. */
  const DefaultTolerance: real := 0.12

  /** One condition of a rule, as the lambdas of the rule sets write them. */
  datatype Condition =
    | InRange(field: string, target: real, tol: real)  // chequear_rango(r.get(field, 0), target, tol)
    | StrEq(field: string, lit: string)                // str(r.get(field, '')).lower() == lit
    | IntEq(field: string, k: int)                     // int(r.get(field, 0)) == k
    | FloatGt(field: string, bound: real)              // float(r.get(field, 0)) > bound

  /** The value a condition reads from a record: the field if present, else
      the default the lambda passes to `get`. */
  function Read(c: Condition, r: Record): (v: Value)
    ensures c.field in r ==> v == r[c.field]
    ensures c.field !in r && c.StrEq? ==> v == Str("")
    ensures c.field !in r && !c.StrEq? ==> v == Num(0.0)
  {
    Get(r, c.field, if c.StrEq? then Str("") else Num(0.0))
  }

  /** Evaluation of a condition; `None` stands for a raised exception. */
  function Eval(c: Condition, r: Record): (res: Option<bool>)
    ensures c.InRange? || c.StrEq? ==> res.Some?
    ensures c.IntEq? ==> (res.None? <==> ToInt(Read(c, r)).None?)
    ensures c.FloatGt? ==> (res.None? <==> ToFloat(Read(c, r)).None?)
  {
    var v := Read(c, r);
    match c
    case InRange(_, target, tol) => Some(ChequearRango(v, Num(target), tol))
    case StrEq(_, lit) => Some(LowerEquals(v, lit))
    case IntEq(_, k) =>
      (match ToInt(v)
       case Some(n) => Some(n == k)
       case None => None)
    case FloatGt(_, bound) =>
      (match ToFloat(v)
       case Some(Finite(x)) => Some(x > bound)
       case Some(NotANumber) => Some(false)
       case None => None)
  }

  /** The condition holds: it evaluated without raising, to true. */
  predicate Holds(c: Condition, r: Record) {
    Eval(c, r) == Some(true)
  }

  /** A range condition with a positive target and a tolerance below 100 %
      does not hold when its field is missing. */
  lemma MissingMeasurementFails(c: Condition, r: Record)
    requires c.InRange? && c.target > 0.0 && c.tol < 1.0
    requires c.field !in r
    ensures Eval(c, r) == Some(false)
  {
    if Holds(c, r) {
      InBandPositive(Num(0.0), c.target, c.tol);
      assert false;
    }
  }

  /** A string condition against a non-empty literal does not hold when its
      field is missing (the field reads as `''`). */
  lemma MissingTextFails(c: Condition, r: Record)
    requires c.StrEq? && c.lit != ""
    requires c.field !in r
    ensures Eval(c, r) == Some(false)
  {
  }

  /** String conditions ignore the letter case of the record's text. */
  lemma StrEqCaseInsensitive(c: Condition, r: Record, s: string)
    requires c.StrEq? && c.field in r && r[c.field] == Str(s)
    ensures Holds(c, r) <==> Text.Lower(s) == c.lit
    ensures Holds(c, r[c.field := Str(Text.Upper(s))]) <==> Holds(c, r)
  {
    Text.LowerOfUpper(s);
  }
}
