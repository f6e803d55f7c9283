/** The preprocessing that produces the fields the porcelain-crab rules read:
    `calcular_ratios` (the two morphometric ratios, in a Spanish and an
    English copy) and the feature preparation `preparar_caracteristicas` /
    `preparar_features` (defaults and 0/1 encodings). A pandas data frame is a
    set of column names and a sequence of row records; a call that raises is
    `None`. Nothing is mutated: every operation returns a new frame. */
module Preprocess {
  import opened Wrappers
  import opened PyValues
  import opened Conditions
  import Numeric
  import Text

  /** A data frame: its columns and its rows. A cell a row lacks reads as NaN,
      as a missing cell of a pandas frame does. */
  datatype Frame = Frame(columns: set<string>, rows: seq<Record>)

  function Cell(row: Record, col: string): (v: Value)
    ensures col in row ==> v == row[col]
    ensures col !in row ==> v == NaN
  {
    if col in row then row[col] else NaN
  }

  /** `pd.to_numeric(v, errors='coerce')` followed by `fillna(0)`: a number
      stays, a numeric string is parsed, and anything unparsable or missing
      becomes 0. */
  function ToNumeric(v: Value): (x: real)
    ensures v.Num? ==> x == v.x
    ensures v.NaN? || v.Nothing? ==> x == 0.0
    ensures ToFloat(v).None? || ToFloat(v) == Some(NotANumber) ==> x == 0.0
    ensures v.Str? && x != 0.0 ==> ToFloat(v) == Some(Finite(x))
  {
    match ToFloat(v)
    case Some(Finite(x)) => x
    case _ => 0.0
  }

  /** The zero-guarded quotient of the ratio lambdas. */
  function Ratio(num: real, den: real): (q: real)
    ensures den > 0.0 ==> q * den == num
    ensures den <= 0.0 ==> q == 0.0
  {
    if den > 0.0 then num / den else 0.0
  }

  // ---------------------------------------------------------------------------
  // calcular_ratios

  /** The four length columns and the two ratio columns of one copy of
      `calcular_ratios`. */
  datatype RatioColumns = RatioColumns(
    carapace: string, rostro: string, chela: string, width: string,
    rostroRatio: string, chelaRatio: string)
  {
    /** The six names are pairwise different. */
    predicate Distinct() {
      && carapace != rostro && carapace != chela && carapace != width
      && carapace != rostroRatio && carapace != chelaRatio
      && rostro != chela && rostro != width && rostro != rostroRatio && rostro != chelaRatio
      && chela != width && chela != rostroRatio && chela != chelaRatio
      && width != rostroRatio && width != chelaRatio
      && rostroRatio != chelaRatio
    }

    function Lengths(): set<string> {
      {carapace, rostro, chela, width}
    }

    function Outputs(): set<string> {
      {carapace, rostro, chela, width, rostroRatio, chelaRatio}
    }
  }

  /** The column names of `datos/preprocesar.py`. */
  const Spanish := RatioColumns("longitud_caparazon_mm", "longitud_rostro_mm",
    "longitud_quela_mm", "ancho_quela_mm", "ratio_rostro", "ratio_quela")

  /** The column names of `data/preprocess.py`. */
  const English := RatioColumns("carapace_length_mm", "rostro_length_mm",
    "chela_length_mm", "chela_width_mm", "rostro_ratio", "chela_ratio")

  /** One row after `calcular_ratios`: the four lengths coerced to numbers and
      the two ratios added. */
  function RatioRow(c: RatioColumns, row: Record): Record {
    var car := ToNumeric(Cell(row, c.carapace));
    var ros := ToNumeric(Cell(row, c.rostro));
    var che := ToNumeric(Cell(row, c.chela));
    var wid := ToNumeric(Cell(row, c.width));
    row[c.carapace := Num(car)][c.rostro := Num(ros)][c.chela := Num(che)][c.width := Num(wid)]
       [c.rostroRatio := Num(Ratio(ros, car))][c.chelaRatio := Num(Ratio(che, wid))]
  }

  /** What `calcular_ratios` promises of one output row: the lengths are
      numbers (0 where the input was not), each ratio is the zero-guarded
      quotient of its two coerced lengths, and every other field is kept. */
  predicate RatioRowSpec(c: RatioColumns, before: Record, after: Record) {
    var car := ToNumeric(Cell(before, c.carapace));
    var ros := ToNumeric(Cell(before, c.rostro));
    var che := ToNumeric(Cell(before, c.chela));
    var wid := ToNumeric(Cell(before, c.width));
    && after.Keys == before.Keys + c.Outputs()
    && after[c.carapace] == Num(car) && after[c.rostro] == Num(ros)
    && after[c.chela] == Num(che) && after[c.width] == Num(wid)
    && after[c.rostroRatio] == Num(Ratio(ros, car))
    && after[c.chelaRatio] == Num(Ratio(che, wid))
    && (forall k | k in before && k !in c.Outputs() :: after[k] == before[k])
  }

  lemma RatioRowMeets(c: RatioColumns, row: Record)
    requires c.Distinct()
    ensures RatioRowSpec(c, row, RatioRow(c, row))
  {
  }

  function RatioRows(c: RatioColumns, rows: seq<Record>): (out: seq<Record>)
    ensures |out| == |rows|
    ensures forall i | 0 <= i < |rows| :: out[i] == RatioRow(c, rows[i])
  {
    if rows == [] then [] else [RatioRow(c, rows[0])] + RatioRows(c, rows[1..])
  }

  /** `calcular_ratios` over the columns `c`. When one of the four length
      columns is absent, `df.get` yields the scalar 0, which has no `fillna`,
      and the call raises. */
  function WithRatios(c: RatioColumns, f: Frame): (out: Option<Frame>)
    requires c.Distinct()
    ensures out.None? <==> !(c.Lengths() <= f.columns)
    ensures out.Some? ==> out.value.columns == f.columns + c.Outputs()
    ensures out.Some? ==> |out.value.rows| == |f.rows|
    ensures out.Some? ==> forall i | 0 <= i < |f.rows| :: RatioRowSpec(c, f.rows[i], out.value.rows[i])
  {
    if c.Lengths() <= f.columns then
      var rows := RatioRows(c, f.rows);
      assert forall i | 0 <= i < |f.rows| :: RatioRowSpec(c, f.rows[i], rows[i]) by {
        forall i | 0 <= i < |f.rows| ensures RatioRowSpec(c, f.rows[i], rows[i]) {
          RatioRowMeets(c, f.rows[i]);
        }
      }
      Some(Frame(f.columns + c.Outputs(), rows))
    else None
  }

  lemma SpanishDistinct()
    ensures Spanish.Distinct()
  {
  }

  lemma EnglishDistinct()
    ensures English.Distinct()
  {
  }

  /** `calcular_ratios` of `datos/preprocesar.py`. */
  function CalcularRatios(f: Frame): (out: Option<Frame>)
    ensures out.None? <==> !(Spanish.Lengths() <= f.columns)
    ensures out.Some? ==> |out.value.rows| == |f.rows|
    ensures out.Some? ==> forall i | 0 <= i < |f.rows| :: RatioRowSpec(Spanish, f.rows[i], out.value.rows[i])
  {
    SpanishDistinct();
    WithRatios(Spanish, f)
  }

  /** `calcular_ratios` of `data/preprocess.py`. */
  function CalculateRatios(f: Frame): (out: Option<Frame>)
    ensures out.None? <==> !(English.Lengths() <= f.columns)
    ensures out.Some? ==> |out.value.rows| == |f.rows|
    ensures out.Some? ==> forall i | 0 <= i < |f.rows| :: RatioRowSpec(English, f.rows[i], out.value.rows[i])
  {
    EnglishDistinct();
    WithRatios(English, f)
  }

  /** Running the ratio step on its own output changes nothing: the lengths
      are already numbers and the ratios are recomputed from them. */
  lemma WithRatiosIdempotent(c: RatioColumns, f: Frame)
    requires c.Distinct() && WithRatios(c, f).Some?
    ensures WithRatios(c, WithRatios(c, f).value) == WithRatios(c, f)
  {
    var g := WithRatios(c, f).value;
    assert g == Frame(f.columns + c.Outputs(), RatioRows(c, f.rows));
    var h := WithRatios(c, g).value;
    assert h == Frame(g.columns + c.Outputs(), RatioRows(c, g.rows));
    assert h.columns == g.columns;
    forall i | 0 <= i < |g.rows| ensures h.rows[i] == g.rows[i] {
      RatioRowOfRatioRow(c, f.rows[i]);
    }
    assert h.rows == g.rows;
  }

  lemma RatioRowOfRatioRow(c: RatioColumns, row: Record)
    requires c.Distinct()
    ensures RatioRow(c, RatioRow(c, row)) == RatioRow(c, row)
  {
    var once := RatioRow(c, row);
    RatioRowMeets(c, row);
    RatioRowFixed(c, once);
  }

  /** A row whose lengths are numbers and whose ratios are already the
      quotients of those numbers is left as it is. */
  lemma RatioRowFixed(c: RatioColumns, row: Record)
    requires c.Outputs() <= row.Keys
    requires row[c.carapace].Num? && row[c.rostro].Num? && row[c.chela].Num? && row[c.width].Num?
    requires row[c.rostroRatio] == Num(Ratio(row[c.rostro].x, row[c.carapace].x))
    requires row[c.chelaRatio] == Num(Ratio(row[c.chela].x, row[c.width].x))
    ensures RatioRow(c, row) == row
  {
    NumericCell(row, c.carapace, row[c.carapace].x);
    NumericCell(row, c.rostro, row[c.rostro].x);
    NumericCell(row, c.chela, row[c.chela].x);
    NumericCell(row, c.width, row[c.width].x);
    UpdateSame(row, c.carapace);
    UpdateSame(row, c.rostro);
    UpdateSame(row, c.chela);
    UpdateSame(row, c.width);
    UpdateSame(row, c.rostroRatio);
    UpdateSame(row, c.chelaRatio);
  }

  /** Writing back a key's own value leaves a map unchanged. */
  lemma UpdateSame<K, V>(m: map<K, V>, k: K)
    requires k in m
    ensures m[k := m[k]] == m
  {
  }

  lemma NumericCell(row: Record, k: string, x: real)
    requires k in row && row[k] == Num(x)
    ensures ToNumeric(Cell(row, k)) == x
  {
  }

  /** The one-row example of `calcular_ratios`: lengths 10, 3, 12 and 4 give
      a rostro ratio of 0.3 and a chela ratio of 3.0, in both copies. */
  lemma DocExample()
    ensures var row := map[Spanish.carapace := Num(10.0), Spanish.rostro := Num(3.0),
                           Spanish.chela := Num(12.0), Spanish.width := Num(4.0)];
      var out := CalcularRatios(Frame(Spanish.Lengths(), [row]));
      out.Some? && out.value.rows[0][Spanish.rostroRatio] == Num(0.3)
      && out.value.rows[0][Spanish.chelaRatio] == Num(3.0)
    ensures var row := map[English.carapace := Num(10.0), English.rostro := Num(3.0),
                           English.chela := Num(12.0), English.width := Num(4.0)];
      var out := CalculateRatios(Frame(English.Lengths(), [row]));
      out.Some? && out.value.rows[0][English.rostroRatio] == Num(0.3)
      && out.value.rows[0][English.chelaRatio] == Num(3.0)
  {
    SpanishDistinct();
    EnglishDistinct();
    RatioExample(Spanish);
    RatioExample(English);
  }

  /** The example row under any distinct column names. */
  lemma RatioExample(c: RatioColumns)
    requires c.Distinct()
    ensures var row := map[c.carapace := Num(10.0), c.rostro := Num(3.0),
                           c.chela := Num(12.0), c.width := Num(4.0)];
      var out := WithRatios(c, Frame(c.Lengths(), [row]));
      out.Some? && out.value.rows[0][c.rostroRatio] == Num(0.3)
      && out.value.rows[0][c.chelaRatio] == Num(3.0)
  {
    var row := map[c.carapace := Num(10.0), c.rostro := Num(3.0), c.chela := Num(12.0), c.width := Num(4.0)];
    var out := WithRatios(c, Frame(c.Lengths(), [row]));
    assert RatioRowSpec(c, row, out.value.rows[0]);
    NumericCell(row, c.carapace, 10.0);
    NumericCell(row, c.rostro, 3.0);
    NumericCell(row, c.chela, 12.0);
    NumericCell(row, c.width, 4.0);
  }

  // ---------------------------------------------------------------------------
  // preparar_caracteristicas / preparar_features

  /** The two binary, two categorical and two ratio columns of one copy of
      the feature preparation. */
  datatype FeatureColumns = FeatureColumns(
    binary1: string, binary2: string, category1: string, category2: string,
    ratio1: string, ratio2: string)
  {
    /** The six names are pairwise different. */
    predicate Distinct() {
      && binary1 != binary2 && binary1 != category1 && binary1 != category2
      && binary1 != ratio1 && binary1 != ratio2
      && binary2 != category1 && binary2 != category2 && binary2 != ratio1 && binary2 != ratio2
      && category1 != category2 && category1 != ratio1 && category1 != ratio2
      && category2 != ratio1 && category2 != ratio2
      && ratio1 != ratio2
    }

    /** The columns that must already exist: `df.get` with a scalar default
        has no `fillna`. */
    function Required(): set<string> {
      {category1, category2, ratio1, ratio2}
    }

    function Outputs(): set<string> {
      {binary1, binary2, category1, category2, ratio1, ratio2}
    }
  }

  /** The columns of `caracteristicas/ingenieria.py`. */
  const Caracteristicas := FeatureColumns("pleon_plegado", "presencia_setas",
    "ornamentacion_caparazon", "forma_quela", "ratio_rostro", "ratio_quela")

  /** The columns of `features/engineering.py`. */
  const Features := FeatureColumns("pleon_folded", "setae_presence",
    "carapace_ornamentation", "chela_shape", "rostro_ratio", "chela_ratio")

  /** `fillna(default)` on one cell. */
  function FillNa(v: Value, default: Value): (r: Value)
    ensures v.NaN? || v.Nothing? ==> r == default
    ensures !v.NaN? && !v.Nothing? ==> r == v
  {
    if v.NaN? || v.Nothing? then default else v
  }

  /** `fillna(0).astype(int)` on one cell of a present binary column, or the
      constant 0 of an absent one; `None` when `int()` raises. */
  function BinaryCell(present: bool, v: Value): (n: Option<int>)
    ensures !present ==> n == Some(0)
    ensures present && (v.NaN? || v.Nothing?) ==> n == Some(0)
    ensures present && !v.NaN? && !v.Nothing? ==> n == ToInt(v)
  {
    if present then ToInt(FillNa(v, Num(0.0))) else Some(0)
  }

  /** One row after preparation, or `None` when a binary cell does not convert. */
  function PrepareRow(c: FeatureColumns, cols: set<string>, row: Record): Option<Record> {
    var b1 := BinaryCell(c.binary1 in cols, Cell(row, c.binary1));
    var b2 := BinaryCell(c.binary2 in cols, Cell(row, c.binary2));
    if b1.None? || b2.None? then None
    else Some(row[c.binary1 := Num(b1.value as real)][c.binary2 := Num(b2.value as real)]
                 [c.category1 := FillNa(Cell(row, c.category1), Str("unknown"))]
                 [c.category2 := FillNa(Cell(row, c.category2), Str("unknown"))]
                 [c.ratio1 := FillNa(Cell(row, c.ratio1), Num(0.0))]
                 [c.ratio2 := FillNa(Cell(row, c.ratio2), Num(0.0))])
  }

  /** A binary cell `int()` cannot convert. */
  predicate BinaryFails(c: FeatureColumns, cols: set<string>, row: Record) {
    BinaryCell(c.binary1 in cols, Cell(row, c.binary1)).None?
    || BinaryCell(c.binary2 in cols, Cell(row, c.binary2)).None?
  }

  /** `out` is the whole number a binary cell converts to. */
  predicate WholeOf(present: bool, v: Value, out: Value) {
    match BinaryCell(present, v)
    case Some(n) => out == Num(n as real)
    case None => false
  }

  /** The six prepared fields of an output row: binary cells hold the whole
      numbers they convert to, categories and ratios lose their missing values
      to `'unknown'` and 0. */
  predicate PreparedFields(c: FeatureColumns, cols: set<string>, before: Record, after: Record) {
    && c.Outputs() <= after.Keys
    && WholeOf(c.binary1 in cols, Cell(before, c.binary1), after[c.binary1])
    && WholeOf(c.binary2 in cols, Cell(before, c.binary2), after[c.binary2])
    && after[c.category1] == FillNa(Cell(before, c.category1), Str("unknown"))
    && after[c.category2] == FillNa(Cell(before, c.category2), Str("unknown"))
    && after[c.ratio1] == FillNa(Cell(before, c.ratio1), Num(0.0))
    && after[c.ratio2] == FillNa(Cell(before, c.ratio2), Num(0.0))
  }

  /** What preparation promises of one output row: the prepared fields, and
      every other field kept. */
  predicate PreparedRowSpec(c: FeatureColumns, cols: set<string>, before: Record, after: Record) {
    && after.Keys == before.Keys + c.Outputs()
    && PreparedFields(c, cols, before, after)
    && (forall k | k in before && k !in c.Outputs() :: after[k] == before[k])
  }

  lemma PrepareRowMeets(c: FeatureColumns, cols: set<string>, row: Record)
    requires c.Distinct()
    ensures PrepareRow(c, cols, row).None? <==> BinaryFails(c, cols, row)
    ensures PrepareRow(c, cols, row).Some? ==> PreparedRowSpec(c, cols, row, PrepareRow(c, cols, row).value)
  {
  }

  function PrepareRows(c: FeatureColumns, cols: set<string>, rows: seq<Record>): (out: Option<seq<Record>>)
    ensures out.Some? ==> |out.value| == |rows|
    ensures out.Some? ==> forall i | 0 <= i < |rows| :: Some(out.value[i]) == PrepareRow(c, cols, rows[i])
    ensures out.None? <==> exists i | 0 <= i < |rows| :: PrepareRow(c, cols, rows[i]).None?
  {
    if rows == [] then Some([])
    else
      match (PrepareRow(c, cols, rows[0]), PrepareRows(c, cols, rows[1..]))
      case (Some(r), Some(rest)) =>
        assert forall i | 1 <= i < |rows| :: rows[i] == rows[1..][i - 1];
        Some([r] + rest)
      case (None, _) => None
      case (_, None) =>
        var i :| 0 <= i < |rows[1..]| && PrepareRow(c, cols, rows[1..][i]).None?;
        assert PrepareRow(c, cols, rows[i + 1]).None?;
        None
  }

  /** The shared preparation of both copies: binary columns defaulted and
      made whole, categories and ratios stripped of missing values. */
  function Prepare(c: FeatureColumns, f: Frame): (out: Option<Frame>)
    requires c.Distinct()
    ensures out.None? <==> !(c.Required() <= f.columns)
                           || exists i | 0 <= i < |f.rows| :: BinaryFails(c, f.columns, f.rows[i])
    ensures out.Some? ==> out.value.columns == f.columns + c.Outputs()
    ensures out.Some? ==> |out.value.rows| == |f.rows|
    ensures out.Some? ==> forall i | 0 <= i < |f.rows| ::
      PreparedRowSpec(c, f.columns, f.rows[i], out.value.rows[i])
  {
    if !(c.Required() <= f.columns) then None
    else
      match PrepareRows(c, f.columns, f.rows)
      case None =>
        var i :| 0 <= i < |f.rows| && PrepareRow(c, f.columns, f.rows[i]).None?;
        PrepareRowMeets(c, f.columns, f.rows[i]);
        None
      case Some(rows) =>
        assert forall i | 0 <= i < |f.rows| :: !BinaryFails(c, f.columns, f.rows[i])
                 && PreparedRowSpec(c, f.columns, f.rows[i], rows[i]) by {
          forall i | 0 <= i < |f.rows|
            ensures !BinaryFails(c, f.columns, f.rows[i]) && PreparedRowSpec(c, f.columns, f.rows[i], rows[i])
          {
            PrepareRowMeets(c, f.columns, f.rows[i]);
          }
        }
        Some(Frame(f.columns + c.Outputs(), rows))
  }

  lemma CaracteristicasDistinct()
    ensures Caracteristicas.Distinct()
  {
  }

  lemma FeaturesDistinct()
    ensures Features.Distinct()
  {
  }

  /** `preparar_features` of `features/engineering.py`. */
  function PrepararFeatures(f: Frame): (out: Option<Frame>)
    ensures out.None? <==> !(Features.Required() <= f.columns)
                           || exists i | 0 <= i < |f.rows| :: BinaryFails(Features, f.columns, f.rows[i])
    ensures out.Some? ==> |out.value.rows| == |f.rows|
    ensures out.Some? ==> forall i | 0 <= i < |f.rows| ::
      PreparedRowSpec(Features, f.columns, f.rows[i], out.value.rows[i])
  {
    FeaturesDistinct();
    Prepare(Features, f)
  }

  /** Preparing a prepared frame again changes nothing: binary cells are
      already whole numbers and nothing is missing any more. */
  lemma PrepareIdempotent(c: FeatureColumns, f: Frame)
    requires c.Distinct() && Prepare(c, f).Some?
    ensures Prepare(c, Prepare(c, f).value) == Prepare(c, f)
  {
    var g := Prepare(c, f).value;
    assert c.Required() <= g.columns;
    forall i | 0 <= i < |g.rows| ensures PrepareRow(c, g.columns, g.rows[i]) == Some(g.rows[i]) {
      PrepareRowAgain(c, f.columns, g.columns, f.rows[i], g.rows[i]);
    }
    assert PrepareRows(c, g.columns, g.rows) == Some(g.rows) by {
      PrepareRowsFixed(c, g.columns, g.rows);
    }
  }

  lemma PrepareRowsFixed(c: FeatureColumns, cols: set<string>, rows: seq<Record>)
    requires forall i | 0 <= i < |rows| :: PrepareRow(c, cols, rows[i]) == Some(rows[i])
    ensures PrepareRows(c, cols, rows) == Some(rows)
  {
    var out := PrepareRows(c, cols, rows);
    assert out.Some?;
    assert forall i | 0 <= i < |rows| :: out.value[i] == rows[i];
    assert out.value == rows;
  }

  lemma PrepareRowAgain(c: FeatureColumns, cols: set<string>, cols': set<string>, before: Record, once: Record)
    requires c.Distinct() && c.Outputs() <= cols'
    requires PreparedRowSpec(c, cols, before, once)
    ensures PrepareRow(c, cols', once) == Some(once)
  {
    WholeAgain(c.binary1 in cols, Cell(before, c.binary1), once[c.binary1]);
    WholeAgain(c.binary2 in cols, Cell(before, c.binary2), once[c.binary2]);
    assert FillNa(once[c.category1], Str("unknown")) == once[c.category1];
    assert FillNa(once[c.category2], Str("unknown")) == once[c.category2];
    assert FillNa(once[c.ratio1], Num(0.0)) == once[c.ratio1];
    assert FillNa(once[c.ratio2], Num(0.0)) == once[c.ratio2];
    UpdateSame(once, c.binary1);
    UpdateSame(once, c.binary2);
    UpdateSame(once, c.category1);
    UpdateSame(once, c.category2);
    UpdateSame(once, c.ratio1);
    UpdateSame(once, c.ratio2);
  }

  /** A whole number converts to itself. */
  lemma WholeAgain(present: bool, v: Value, out: Value)
    requires WholeOf(present, v, out)
    ensures BinaryCell(true, out) == Some(out.x.Floor) && out == Num(out.x.Floor as real)
  {
    var n := BinaryCell(present, v).value;
    assert out == Num(n as real);
    assert (n as real).Floor == n;
    Numeric.TruncWhole(n);
  }

  /** A missing value of a present binary column reads as 0, and 0 and 1
      convert to themselves: a frame of 0/1 flags keeps its flags. */
  lemma BinaryFlags(v: Value)
    ensures BinaryCell(true, NaN) == Some(0) && BinaryCell(true, Nothing) == Some(0)
    ensures BinaryCell(true, Num(0.0)) == Some(0) && BinaryCell(true, Num(1.0)) == Some(1)
    ensures BinaryCell(true, Bool(true)) == Some(1)
    ensures BinaryCell(true, Str("")) == None
  {
    assert Text.ParseInt("") == None;
  }

  /** The two encoded columns of `preparar_caracteristicas`. */
  const OrnNumeric := "orn_numeric"
  const FormaNumeric := "forma_numeric"

  /** `1 if str(x).lower() == lit else 0`. */
  function Encode(v: Value, lit: string): (n: real)
    ensures n == 1.0 <==> LowerEquals(v, lit)
    ensures n == 0.0 <==> !LowerEquals(v, lit)
  {
    if LowerEquals(v, lit) then 1.0 else 0.0
  }

  function EncodeRow(row: Record): Record {
    row[OrnNumeric := Num(Encode(Cell(row, Caracteristicas.category1), "rugosa"))]
       [FormaNumeric := Num(Encode(Cell(row, Caracteristicas.category2), "delgada"))]
  }

  function EncodeRows(rows: seq<Record>): (out: seq<Record>)
    ensures |out| == |rows|
    ensures forall i | 0 <= i < |rows| :: out[i] == EncodeRow(rows[i])
  {
    if rows == [] then [] else [EncodeRow(rows[0])] + EncodeRows(rows[1..])
  }

  /** What `preparar_caracteristicas` promises of one output row: the
      prepared fields as in `preparar_features`, `orn_numeric` = 1 exactly for
      a rugose carapace and `forma_numeric` = 1 exactly for a slender chela
      (judged on the cleaned category text, 0 otherwise), and every other field
      kept. */
  predicate EncodedRowSpec(cols: set<string>, before: Record, after: Record) {
    var c := Caracteristicas;
    && after.Keys == before.Keys + c.Outputs() + {OrnNumeric, FormaNumeric}
    && PreparedFields(c, cols, before, after)
    && (after[OrnNumeric] == Num(1.0) <==> LowerEquals(after[c.category1], "rugosa"))
    && (after[OrnNumeric] == Num(0.0) <==> !LowerEquals(after[c.category1], "rugosa"))
    && (after[FormaNumeric] == Num(1.0) <==> LowerEquals(after[c.category2], "delgada"))
    && (after[FormaNumeric] == Num(0.0) <==> !LowerEquals(after[c.category2], "delgada"))
    && (forall k | k in before && k !in c.Outputs() && k != OrnNumeric && k != FormaNumeric ::
          after[k] == before[k])
  }

  /** `preparar_caracteristicas` of `caracteristicas/ingenieria.py`: the
      shared preparation plus the two 0/1 encodings (rugose carapace, slender
      chela). */
  function PrepararCaracteristicas(f: Frame): (out: Option<Frame>)
    ensures out.None? <==> !(Caracteristicas.Required() <= f.columns)
                           || exists i | 0 <= i < |f.rows| :: BinaryFails(Caracteristicas, f.columns, f.rows[i])
    ensures out.Some? ==> |out.value.rows| == |f.rows|
    ensures out.Some? ==> out.value.columns == f.columns + Caracteristicas.Outputs() + {OrnNumeric, FormaNumeric}
    ensures out.Some? ==> forall i | 0 <= i < |f.rows| :: EncodedRowSpec(f.columns, f.rows[i], out.value.rows[i])
  {
    CaracteristicasDistinct();
    match Prepare(Caracteristicas, f)
    case None => None
    case Some(g) =>
      var rows := EncodeRows(g.rows);
      assert forall i | 0 <= i < |f.rows| :: EncodedRowSpec(f.columns, f.rows[i], rows[i]) by {
        forall i | 0 <= i < |f.rows| ensures EncodedRowSpec(f.columns, f.rows[i], rows[i]) {
          EncodeRowMeets(f.columns, f.rows[i], g.rows[i]);
        }
      }
      Some(Frame(g.columns + {OrnNumeric, FormaNumeric}, rows))
  }

  lemma EncodeRowMeets(cols: set<string>, before: Record, mid: Record)
    requires PreparedRowSpec(Caracteristicas, cols, before, mid)
    ensures EncodedRowSpec(cols, before, EncodeRow(mid))
  {
    var c := Caracteristicas;
    CaracteristicasDistinct();
    assert OrnNumeric !in c.Outputs() && FormaNumeric !in c.Outputs();
    var after := EncodeRow(mid);
    assert after[c.category1] == mid[c.category1] && after[c.category2] == mid[c.category2];
    assert after[c.binary1] == mid[c.binary1] && after[c.binary2] == mid[c.binary2];
    assert after[c.ratio1] == mid[c.ratio1] && after[c.ratio2] == mid[c.ratio2];
  }

  /** After `preparar_caracteristicas` the setae condition of the rules can
      no longer raise: the flag is a whole number in every row. */
  lemma PreparedSetasNeverRaise(f: Frame, i: nat, k: int)
    requires PrepararCaracteristicas(f).Some? && i < |f.rows|
    ensures Eval(IntEq(Caracteristicas.binary2, k), PrepararCaracteristicas(f).value.rows[i]).Some?
  {
    var row := PrepararCaracteristicas(f).value.rows[i];
    var c := Caracteristicas;
    assert WholeOf(c.binary2 in f.columns, Cell(f.rows[i], c.binary2), row[c.binary2]);
  }

  /** `orn_numeric` is 1 exactly when the rules' rugose-carapace condition
      holds of the prepared row. */
  lemma EncodedOrnamentMatchesRule(f: Frame, i: nat)
    requires PrepararCaracteristicas(f).Some? && i < |f.rows|
    ensures var row := PrepararCaracteristicas(f).value.rows[i];
      row[OrnNumeric] == Num(1.0) <==> Holds(StrEq(Caracteristicas.category1, "rugosa"), row)
  {
  }

  /** A missing ornamentation or chela shape becomes `'unknown'` and encodes
      as 0. */
  lemma MissingCategoryEncodesZero(f: Frame, i: nat)
    requires PrepararCaracteristicas(f).Some? && i < |f.rows|
    requires Cell(f.rows[i], Caracteristicas.category1).NaN?
    ensures PrepararCaracteristicas(f).value.rows[i][OrnNumeric] == Num(0.0)
    ensures PrepararCaracteristicas(f).value.rows[i][Caracteristicas.category1] == Str("unknown")
  {
    var row := PrepararCaracteristicas(f).value.rows[i];
    assert row[Caracteristicas.category1] == Str("unknown");
    assert Text.Lower("unknown") != "rugosa" by {
      assert Text.Lower("unknown")[0] == 'u';
    }
  }
}
