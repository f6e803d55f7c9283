/** The two rule sets of the porcelain-crab identifier as fixtures: the eleven
    Venezuelan species of `reglas.py` and the two sketch rules of `rules.py`. */
module RuleSets {
  import opened Wrappers
  import opened PyValues
  import opened Conditions
  import opened RuleEngine
  import Text
  import Sorting

  // ---------------------------------------------------------------------------
  // reglas.py

  /** The three morphometric range tests every rule of `reglas.py` starts with. */
  function Morphometry(rostro: real, quela: real, caparazon: real): seq<Condition> {
    [ InRange("ratio_rostro", rostro, DefaultTolerance),
      InRange("ratio_quela", quela, DefaultTolerance),
      InRange("longitud_caparazon_mm", caparazon, DefaultTolerance) ]
  }

  const Lisa := StrEq("ornamentacion_caparazon", "lisa")
  const Rugosa := StrEq("ornamentacion_caparazon", "rugosa")
  const Robusta := StrEq("forma_quela", "robusta")
  const Delgada := StrEq("forma_quela", "delgada")
  const Setosa := IntEq("presencia_setas", 1)

  function Regla(id: string, species: string, conds: seq<Condition>, just: string,
                 threshold: real, info: string, link: string): Rule {
    Rule(id, species, conds, just, Some(threshold), Some(info), Some(link))
  }

  const WormsPrefix := "https://www.marinespecies.org/aphia.php?p=taxdetails&id="

  /** `reglas_iniciales()` of `reglas.py`, in its order, with the file's
      justifications and species information. */
  function ReglasIniciales(): (rules: seq<Rule>)
    ensures |rules| == 11
  {
    Reglas(Justificaciones, Informacion)
  }

  /** The rules of `reglas.py` given their descriptive texts: `just[k]` and
      `info[k]` are the justification and the species information of the
      `k`-th rule. Every fact about ids, species, conditions and thresholds
      below holds whatever those texts are. */
  function Reglas(just: seq<string>, info: seq<string>): (rules: seq<Rule>)
    requires |just| == 11 && |info| == 11
    ensures |rules| == 11
  {
    [ Regla("R_PIS_BRA", Especies[0],
            Morphometry(0.26, 2.25, 3.8) + [Lisa, Robusta],
            just[0], 0.8, info[0],
            WormsPrefix + "425845"),
      Regla("R_POR_SAY", Especies[1],
            Morphometry(0.25, 3.0, 12.0) + [Lisa, Delgada],
            just[1], 0.8, info[1],
            WormsPrefix + "421869"),
      Regla("R_MEG_ROS", Especies[2],
            Morphometry(0.30, 2.2, 5.0) + [Rugosa, Setosa],
            just[2], 0.8, info[2],
            WormsPrefix + "421868"),
      Regla("R_MEG_POE", Especies[3],
            Morphometry(0.27, 2.0, 6.5) + [Rugosa, Robusta, Setosa],
            just[3], 0.8, info[3],
            WormsPrefix + "421864"),
      Regla("R_PET_MAR", Especies[4],
            Morphometry(0.23, 3.0, 15.0) + [Lisa],
            just[4], 0.75, info[4],
            WormsPrefix + "421877"),
      Regla("R_PET_GAL", Especies[5],
            Morphometry(0.25, 2.8, 12.0) + [Rugosa],
            just[5], 0.75, info[5],
            WormsPrefix + "421873"),
      Regla("R_PET_ARM", Especies[6],
            Morphometry(0.25, 3.3, 8.0) + [Rugosa, Delgada],
            just[6], 0.8, info[6],
            WormsPrefix + "421870"),
      Regla("R_PET_TON", Especies[7],
            Morphometry(0.26, 2.75, 4.5) + [Lisa],
            just[7], 0.75, info[7],
            WormsPrefix + "431835"),
      Regla("R_PET_TRI", Especies[8],
            Morphometry(0.25, 3.0, 8.0) + [Lisa],
            just[8], 0.75, info[8],
            WormsPrefix + "493150"),
      Regla("R_PET_JUG", Especies[9],
            Morphometry(0.23, 2.5, 2.1) + [Lisa],
            just[9], 0.75, info[9],
            WormsPrefix + "421876"),
      Regla("R_PET_POL", Especies[10],
            Morphometry(0.21, 2.66, 7.0) + [Lisa],
            just[10], 0.75, info[10],
            WormsPrefix + "421881")
    ]
  }

  /** The species of each rule of `reglas.py`, in rule order. */
  const Especies: seq<string> := [
    "Pisidia brasiliensis",
    "Porcellana sayana",
    "Megalobrachium roseum",
    "Megalobrachium poeyi",
    "Petrolisthes marginatus",
    "Petrolisthes galathinus",
    "Petrolisthes armatus",
    "Petrolisthes tonsorius",
    "Petrolisthes tridentatus",
    "Petrolisthes jugosus",
    "Petrolisthes politus"]

  /** The justification of each rule of `reglas.py`, in rule order. */
  const Justificaciones := [
    "Tamaño pequeño ~3-4mm, rostro corto, caparazón liso.",
    "Rojizo con manchas, rostro triangular, quelas delgadas.",
    "Caparazón rugoso, quelas espinosas y setosas.",
    "Quelas grandes, aplanadas y setosas.",
    "Especie grande, caparazón liso.",
    "Morfológicamente complejo, caparazón rugoso.",
    "Cangrejo verde, crestas en caparazón, quelas delgadas.",
    "Intermareal, pequeño, caparazón liso.",
    "Aguas someras, frente tridentada inferida.",
    "Muy pequeño, rojo y blanco, bentónico.",
    "Cangrejo porcelana espalda roja (redback)."]

  /** The detailed information of each species, shown with a verified
      hypothesis, in rule order. */
  const Informacion := [
    "Habita en aguas someras (0-100m) en ambientes marinos y salobres.",
    "Conocida como cangrejo porcelana manchado, suele vivir de forma comensal con cangrejos ermitaños.",
    "Originalmente descrita como Porcellana rosea; habita en ambientes marinos y salobres.",
    "Conocido como cangrejo porcelana de pinzas peludas. Único miembro de su género en ambos lados del istmo de Panamá.",
    "Especie marina de gran tamaño común en el Caribe y las costas de Venezuela.",
    "Se encuentra frecuentemente asociado a esponjas de barril en arrecifes costeros del Atlántico Occidental.",
    "Habitante común de manglares y zonas intermareales. Se alimenta filtrando plancton con sus piezas bucales.",
    "Habita bajo rocas intermareales en áreas con fuerte movimiento de agua.",
    "Presente en diversos ambientes marinos y estuarinos de aguas someras.",
    "Pequeño cangrejo de coloración roja y blanca que habita en fondos rocosos hasta los 190m.",
    "Conocido como cangrejo porcelana de espalda roja por su llamativa coloración dorsal."]

  /** Rules of four conditions need 75 %, rules of five or six need 80 %. */
  lemma ThresholdsBySize(just: seq<string>, info: seq<string>)
    requires |just| == 11 && |info| == 11
    ensures forall i | 0 <= i < 11 ::
      var rule := Reglas(just, info)[i];
      && 4 <= |rule.conditions| <= 6
      && (|rule.conditions| == 4 ==> Threshold(rule) == 0.75)
      && (|rule.conditions| >= 5 ==> Threshold(rule) == 0.8)
  {
  }

  /** The fewest conditions that must hold for acceptance. */
  function MinMatches(n: nat): nat {
    if n == 4 then 3 else if n == 5 then 4 else 5
  }

  /** Acceptance by a rule of `reglas.py` needs at least 3 of 4, 4 of 5 or
      5 of 6 conditions, and that many always suffice. */
  lemma AcceptanceNeeds(just: seq<string>, info: seq<string>, i: nat, r: Record)
    requires |just| == 11 && |info| == 11
    requires i < 11
    ensures var rule := Reglas(just, info)[i];
      Accepted(rule, r) <==> MatchCount(rule.conditions, r) >= MinMatches(|rule.conditions|)
  {
    ThresholdsBySize(just, info);
    SizedAcceptance(Reglas(just, info)[i], r);
  }

  /** The acceptance count of any rule sized and thresholded like those of
      `reglas.py`. */
  lemma SizedAcceptance(rule: Rule, r: Record)
    requires 4 <= |rule.conditions| <= 6
    requires |rule.conditions| == 4 ==> Threshold(rule) == 0.75
    requires |rule.conditions| >= 5 ==> Threshold(rule) == 0.8
    ensures Accepted(rule, r) <==> MatchCount(rule.conditions, r) >= MinMatches(|rule.conditions|)
  {
    var n := |rule.conditions|;
    var m := MatchCount(rule.conditions, r);
    var s := Score(rule, r);
    ScoreScales(rule, r);
    if n == 4 {
      AtLeast(s, m, 4, 0.75, 3);
    } else if n == 5 {
      AtLeast(s, m, 5, 0.8, 4);
    } else {
      AtLeast(s, m, 6, 0.8, 5);
    }
  }

  /** `m / n >= t` for whole `m` iff `m >= k`, where `k` is the least whole
      number at or above `t * n`. */
  lemma AtLeast(s: real, m: nat, n: nat, t: real, k: nat)
    requires n > 0 && s == m as real / n as real
    requires (k - 1) as real < t * n as real <= k as real
    ensures s >= t <==> m >= k
  {
    var N := n as real;
    assert s * N == m as real;
    if s >= t {
      MulNonNegative(s - t, N);
      assert m as real - t * N == (s - t) * N;
    } else {
      MulPositive(t - s, N);
      assert t * N - m as real == (t - s) * N;
    }
  }

  lemma MulNonNegative(a: real, b: real)
    requires a >= 0.0 && b > 0.0
    ensures a * b >= 0.0
  {
  }

  lemma MulPositive(a: real, b: real)
    requires a > 0.0 && b > 0.0
    ensures a * b > 0.0
  {
  }

  /** Every range target of `reglas.py` is positive and uses the default
      tolerance, so a specimen lacking a measurement never satisfies the range
      condition on it. */
  lemma RangeTargetsPositive(just: seq<string>, info: seq<string>, i: nat, j: nat, r: Record)
    requires |just| == 11 && |info| == 11
    requires i < 11 && j < |Reglas(just, info)[i].conditions|
    requires Reglas(just, info)[i].conditions[j].InRange?
    requires Reglas(just, info)[i].conditions[j].field !in r
    ensures Reglas(just, info)[i].conditions[j].target > 0.0
    ensures !Holds(Reglas(just, info)[i].conditions[j], r)
  {
    var c := Reglas(just, info)[i].conditions[j];
    assert c.target > 0.0 && c.tol == DefaultTolerance;
    MissingMeasurementFails(c, r);
  }

  /** The rule species without surrounding whitespace: normalising one is just
      lower-casing it. */
  lemma SpeciesUnpadded(just: seq<string>, info: seq<string>, i: nat)
    requires |just| == 11 && |info| == 11
    requires i < 11
    ensures Normalize(Reglas(just, info)[i].species) == Text.Lower(Reglas(just, info)[i].species)
  {
    SpeciesOf(just, info, i);
    NameFingerprint(i);
    Unpadded(Especies[i]);
  }

  /** The species of the `i`-th rule is the `i`-th name of the list. */
  lemma SpeciesOf(just: seq<string>, info: seq<string>, i: nat)
    requires |just| == 11 && |info| == 11
    requires i < 11
    ensures Reglas(just, info)[i].species == Especies[i]
  {
  }

  /** A name that starts and ends with a letter normalises to its lower
      case. */
  lemma Unpadded(s: string)
    requires |s| > 0 && 'A' <= s[0] <= 'Z' && 'a' <= s[|s| - 1] <= 'z'
    ensures Normalize(s) == Text.Lower(s)
  {
    assert !Text.IsSpace(s[0]) && !Text.IsSpace(s[|s| - 1]);
    assert Text.StripLeft(s) == s;
    assert Text.StripRight(s) == s;
    assert Text.Strip(s) == s;
  }

  /** Rule ids are pairwise distinct. */
  lemma IdsDistinct(just: seq<string>, info: seq<string>)
    requires |just| == 11 && |info| == 11
    ensures forall i, j | 0 <= i < j < 11 :: Reglas(just, info)[i].id != Reglas(just, info)[j].id
  {
  }

  /** The species names are pairwise distinct even after normalisation;
      lookup by species is therefore unambiguous. */
  lemma ReglasInicialesDistinct(just: seq<string>, info: seq<string>)
    requires |just| == 11 && |info| == 11
    ensures DistinctSpecies(Reglas(just, info))
  {
    forall i, j | 0 <= i < j < 11
      ensures Normalize(Reglas(just, info)[i].species) != Normalize(Reglas(just, info)[j].species)
    {
      SpeciesPairDistinct(just, info, i, j);
    }
  }

  lemma SpeciesPairDistinct(just: seq<string>, info: seq<string>, i: nat, j: nat)
    requires |just| == 11 && |info| == 11
    requires i < j < 11
    ensures Normalize(Reglas(just, info)[i].species) != Normalize(Reglas(just, info)[j].species)
  {
    var a, b := Reglas(just, info)[i].species, Reglas(just, info)[j].species;
    SpeciesFingerprint(just, info, i);
    SpeciesFingerprint(just, info, j);
    PairByFingerprint(a, b, i, j);
  }

  /** Two unpadded names with the fingerprints of two different rules
      normalise differently. */
  lemma PairByFingerprint(a: string, b: string, i: nat, j: nat)
    requires i < j < 11
    requires |a| == NameLengths[i] && |b| == NameLengths[j]
    requires a[13] == NameLetters[i] && b[13] == NameLetters[j]
    requires Normalize(a) == Text.Lower(a) && Normalize(b) == Text.Lower(b)
    ensures Normalize(a) != Normalize(b)
  {
    FingerprintsDistinct();
    DistinctByFingerprint(a, b);
  }

  /** Unpadded names that differ in length or in their lower-cased fourteenth
      letter normalise differently. */
  lemma DistinctByFingerprint(a: string, b: string)
    requires |a| > 13 && |b| > 13
    requires Normalize(a) == Text.Lower(a) && Normalize(b) == Text.Lower(b)
    requires |a| != |b| || Text.LowerChar(a[13]) != Text.LowerChar(b[13])
    ensures Normalize(a) != Normalize(b)
  {
    assert Text.Lower(a)[13] == Text.LowerChar(a[13]);
    assert Text.Lower(b)[13] == Text.LowerChar(b[13]);
  }

  lemma FingerprintsDistinct()
    ensures forall i, j | 0 <= i < j < 11 :: NameLengths[i] != NameLengths[j] || NameLetters[i] != NameLetters[j]
    ensures forall i | 0 <= i < 11 :: 'a' <= NameLetters[i] <= 'z'
  {
  }

  /** The length of every species name and its fourteenth letter, always a
      small letter: no two names share both. */
  const NameLengths: seq<nat> := [20, 17, 21, 20, 23, 23, 20, 22, 24, 20, 20]
  const NameLetters: seq<char> := "lymmmgattjp"

  lemma SpeciesFingerprint(just: seq<string>, info: seq<string>, i: nat)
    requires |just| == 11 && |info| == 11
    requires i < 11
    ensures |Reglas(just, info)[i].species| == NameLengths[i]
    ensures Reglas(just, info)[i].species[13] == NameLetters[i]
    ensures Normalize(Reglas(just, info)[i].species) == Text.Lower(Reglas(just, info)[i].species)
  {
    SpeciesOf(just, info, i);
    NameFingerprint(i);
    Unpadded(Especies[i]);
  }

  /** Each name's length, fourteenth letter, and its capital first and small
      last letter. */
  lemma NameFingerprint(i: nat)
    requires i < 11
    ensures |Especies[i]| == NameLengths[i] && NameLengths[i] > 13
    ensures Especies[i][13] == NameLetters[i]
    ensures 'A' <= Especies[i][0] <= 'Z' && 'a' <= Especies[i][|Especies[i]| - 1] <= 'z'
  {
  }

  /** On the fixture rules, verifying a species succeeds iff forward chaining
      lists that species' candidate. */
  lemma FixtureChainingAgrees(just: seq<string>, info: seq<string>, i: nat, r: Record)
    requires |just| == 11 && |info| == 11
    requires i < 11
    ensures VerificarEspecie(r, Reglas(just, info)[i].species, Reglas(just, info)).verificada
        <==> CandidateOf(Reglas(just, info)[i], r) in EvaluarReglas(r, Reglas(just, info))
  {
    ReglasInicialesDistinct(just, info);
    BackwardMatchesForward(r, Reglas(just, info), i);
  }

  /** `obtener_especies_disponibles()`: the non-empty species names of the
      rules, deduplicated and sorted. */
  function ObtenerEspeciesDisponibles(rules: seq<Rule>): (names: seq<string>)
    ensures Sorting.StrictlyAscending(names)
    ensures forall n :: n in names <==> n != "" && exists i | 0 <= i < |rules| :: rules[i].species == n
  {
    var present := NonEmptySpecies(rules);
    var names := Sorting.SortedSet(present);
    assert forall n :: n in names <==> n in Sorting.Elems(names);
    assert forall n :: n in present <==> n in Sorting.Elems(present);
    names
  }

  function NonEmptySpecies(rules: seq<Rule>): (names: seq<string>)
    ensures forall n :: n in names <==> n != "" && exists i | 0 <= i < |rules| :: rules[i].species == n
  {
    if rules == [] then []
    else
      var rest := NonEmptySpecies(rules[1..]);
      assert forall i | 1 <= i < |rules| :: rules[i] == rules[1..][i - 1];
      (if rules[0].species != "" then [rules[0].species] else []) + rest
  }

  // ---------------------------------------------------------------------------
  // rules.py

  /** `regla_porcellana_A()`. */
  const PorcellanaA := Rule("R_PORC_A", "Porcellana sp. A",
    [ FloatGt("rostro_ratio", 0.30),
      StrEq("chela_shape", "slender"),
      IntEq("pleon_folded", 1) ],
    "Rostro relativamente largo, quelas delgadas y pleon plegado.", Some(0.66), None, None)

  /** `regla_petrolisthes_B()`. */
  const PetrolisthesB := Rule("R_PETR_B", "Petrolisthes sp. B",
    [ StrEq("carapace_ornamentation", "smooth"),
      StrEq("chela_shape", "robust"),
      IntEq("rostro_spines_count", 0) ],
    "Caparazón liso, quelas robustas y rostro sin espinas.", Some(0.66), None, None)

  /** `reglas_iniciales()` of `rules.py`. */
  const SketchRules := [PorcellanaA, PetrolisthesB]

  /** With three conditions and threshold 0.66, two matches are accepted and
      one is not. */
  lemma SketchAcceptance(i: nat, r: Record)
    requires i < 2
    ensures Accepted(SketchRules[i], r) <==> MatchCount(SketchRules[i].conditions, r) >= 2
  {
    var rule := SketchRules[i];
    var s := Score(rule, r);
    ScoreScales(rule, r);
    AtLeast(s, MatchCount(rule.conditions, r), 3, 0.66, 2);
  }

  /** The ratio test of Porcellana A is strict: exactly 0.30 fails and
      anything above passes. */
  lemma RostroRatioStrict(x: real)
    ensures Holds(PorcellanaA.conditions[0], map["rostro_ratio" := Num(x)]) <==> x > 0.30
  {
  }

  /** A ratio that is not a number makes the condition raise, which the engine
      counts as unmatched. */
  lemma RostroRatioText()
    ensures Eval(PorcellanaA.conditions[0], map["rostro_ratio" := Str("")]).None?
  {
    assert PorcellanaA.conditions[0] == FloatGt("rostro_ratio", 0.30);
    EmptyTextRaises(FloatGt("rostro_ratio", 0.30), map["rostro_ratio" := Str("")]);
  }

  /** A float test on a field holding the empty string raises. */
  lemma EmptyTextRaises(c: Condition, r: Record)
    requires c.FloatGt? && c.field in r && r[c.field] == Str("")
    ensures Eval(c, r).None?
  {
    assert Read(c, r) == Str("");
    PyValues.EmptyStringNoFloat();
  }

  /** No record has a chela both slender and robust. */
  lemma ChelaExclusive(r: Record)
    ensures !(Holds(PorcellanaA.conditions[1], r) && Holds(PetrolisthesB.conditions[1], r))
  {
  }

  /** An empty record scores 0/3 for Porcellana A and 1/3 for Petrolisthes B
      (a missing spine count reads as 0), so neither rule is a candidate. */
  lemma EmptyRecord()
    ensures MatchCount(PorcellanaA.conditions, map[]) == 0
    ensures MatchCount(PetrolisthesB.conditions, map[]) == 1
    ensures EvaluarReglas(map[], SketchRules) == []
  {
    var e: Record := map[];
    assert !Holds(PorcellanaA.conditions[0], e);
    assert !Holds(PorcellanaA.conditions[1], e);
    assert !Holds(PorcellanaA.conditions[2], e);
    assert !Holds(PetrolisthesB.conditions[0], e);
    assert !Holds(PetrolisthesB.conditions[1], e);
    assert Holds(PetrolisthesB.conditions[2], e);
    SketchAcceptance(0, e);
    SketchAcceptance(1, e);
    assert Candidates(e, SketchRules) == [];
  }
}
