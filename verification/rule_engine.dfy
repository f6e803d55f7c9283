/** The porcelain-crab rule engine (`grupo4/src/motor_reglas/motor.py`):
    forward chaining scores every rule against a record and keeps the rules
    that reach their threshold; backward chaining looks up the rule of one
    hypothesised species and reports whether the record supports it. */
module RuleEngine {
  import opened Wrappers
  import opened PyValues
  import opened Conditions
  import Text
  import Numeric
  import Sorting
  import Counting

  /** A rule record. `threshold` is absent when the rule dictionary has no
      `'threshold'` key; `info` and `link` are the optional
      `'info_detallada'` and `'link_especie'` keys. */
  datatype Rule = Rule(
    id: string,
    species: string,
    conditions: seq<Condition>,
    justification: string,
    threshold: Option<real>,
    info: Option<string>,
    link: Option<string>)

  /** The acceptance threshold: `regla.get('threshold', 0.6)`. */
  function Threshold(rule: Rule): (t: real)
    ensures rule.threshold.None? ==> t == 0.6
    ensures rule.threshold.Some? ==> t == rule.threshold.value
  {
    rule.threshold.GetOr(0.6)
  }

  // ---------------------------------------------------------------------------
  // Scoring

  /** The number of conditions that hold; a raising condition is skipped. */
  function MatchCount(cs: seq<Condition>, r: Record): (n: nat)
    ensures n <= |cs|
  {
    if cs == [] then 0 else (if Holds(cs[0], r) then 1 else 0) + MatchCount(cs[1..], r)
  }

  /** The positions of the conditions that hold. */
  function MatchedPositions(cs: seq<Condition>, r: Record): set<nat> {
    Counting.Where(cs, (c: Condition) => Holds(c, r))
  }

  /** The match count is the number of positions whose condition holds. */
  lemma {:induction false} MatchCountIsCardinality(cs: seq<Condition>, r: Record)
    ensures MatchCount(cs, r) == |MatchedPositions(cs, r)|
    decreases |cs|
  {
    if cs != [] {
      MatchCountIsCardinality(cs[1..], r);
      Counting.WhereCons(cs, (c: Condition) => Holds(c, r));
    }
  }

  lemma {:induction false} MatchCountAppend(a: seq<Condition>, b: seq<Condition>, r: Record)
    ensures MatchCount(a + b, r) == MatchCount(a, r) + MatchCount(b, r)
    decreases |a|
  {
    if a == [] {
      assert a + b == b;
    } else {
      assert (a + b)[0] == a[0];
      assert (a + b)[1..] == a[1..] + b;
      MatchCountAppend(a[1..], b, r);
    }
  }

  /** A condition that raises counts as unmatched and does not stop the
      evaluation of the others: the count is as if it were not there. */
  lemma RaisingConditionSkipped(a: seq<Condition>, c: Condition, b: seq<Condition>, r: Record)
    requires Eval(c, r).None?
    ensures MatchCount(a + [c] + b, r) == MatchCount(a + b, r)
  {
    MatchCountAppend(a + [c], b, r);
    MatchCountAppend(a, [c], r);
    MatchCountAppend(a, b, r);
  }

  /** `match / len(condiciones) if condiciones else 0`. */
  function Score(rule: Rule, r: Record): (s: real)
    ensures 0.0 <= s <= 1.0
    ensures rule.conditions == [] ==> s == 0.0
  {
    FractionOf(MatchCount(rule.conditions, r), |rule.conditions|)
  }

  /** A rule with conditions scores the share of them that hold. */
  lemma ScoreScales(rule: Rule, r: Record)
    requires rule.conditions != []
    ensures Score(rule, r) == MatchCount(rule.conditions, r) as real / |rule.conditions| as real
  {
  }

  /** `m / n if n else 0` for a count `m` out of `n`. */
  function FractionOf(m: nat, n: nat): (q: real)
    requires m <= n
    ensures 0.0 <= q <= 1.0
    ensures n == 0 ==> q == 0.0
    ensures n > 0 ==> q * n as real == m as real
  {
    if n == 0 then 0.0
    else
      Numeric.Fraction(m, n);
      m as real / n as real
  }

  /** The rule reaches its threshold; equality is enough. */
  predicate Accepted(rule: Rule, r: Record) {
    Score(rule, r) >= Threshold(rule)
  }

  // ---------------------------------------------------------------------------
  // Forward chaining

  /** One entry of the result of `evaluar_reglas`. */
  datatype Candidate = Candidate(
    ruleId: string,
    species: string,
    score: real,
    matched: nat,
    justification: string,
    info: Option<string>,
    link: Option<string>)

  /** The candidate a rule contributes: its score rounded to two decimals,
      the raw match count and the rule's descriptive fields. */
  function CandidateOf(rule: Rule, r: Record): (c: Candidate)
    ensures c.ruleId == rule.id && c.species == rule.species
    ensures c.justification == rule.justification && c.info == rule.info && c.link == rule.link
    ensures c.matched == MatchCount(rule.conditions, r) && c.matched <= |rule.conditions|
    ensures c.score == Numeric.Round2(Score(rule, r)) && 0.0 <= c.score <= 1.0
  {
    Numeric.Round2Bounds(Score(rule, r));
    Candidate(rule.id, rule.species, Numeric.Round2(Score(rule, r)),
              MatchCount(rule.conditions, r), rule.justification, rule.info, rule.link)
  }

  /** The candidates in rule-list order, before sorting. */
  function Candidates(r: Record, rules: seq<Rule>): (cs: seq<Candidate>)
    ensures |cs| <= |rules|
  {
    if rules == [] then []
    else (if Accepted(rules[0], r) then [CandidateOf(rules[0], r)] else [])
         + Candidates(r, rules[1..])
  }

  function CandidateScore(c: Candidate): real {
    c.score
  }

  /** `evaluar_reglas(record, reglas)`: the candidates stably sorted by
      rounded score, highest first. */
  function EvaluarReglas(r: Record, rules: seq<Rule>): (cs: seq<Candidate>)
    ensures |cs| <= |rules|
  {
    Sorting.SortDesc(Candidates(r, rules), CandidateScore)
  }

  lemma {:induction false} CandidatesMembers(r: Record, rules: seq<Rule>, c: Candidate)
    ensures c in Candidates(r, rules)
        <==> exists i | 0 <= i < |rules| :: Accepted(rules[i], r) && c == CandidateOf(rules[i], r)
    decreases |rules|
  {
    if rules != [] {
      CandidatesMembers(r, rules[1..], c);
      if c in Candidates(r, rules[1..]) {
        var i :| 0 <= i < |rules[1..]| && Accepted(rules[1..][i], r) && c == CandidateOf(rules[1..][i], r);
        assert rules[i + 1] == rules[1..][i];
      }
      if exists i | 0 <= i < |rules| :: Accepted(rules[i], r) && c == CandidateOf(rules[i], r) {
        var i :| 0 <= i < |rules| && Accepted(rules[i], r) && c == CandidateOf(rules[i], r);
        if i > 0 {
          assert rules[1..][i - 1] == rules[i];
        }
      }
    }
  }

  /** A candidate is in the result iff some rule reaches its threshold and
      contributes exactly that candidate. */
  lemma EvaluarReglasMembers(r: Record, rules: seq<Rule>, c: Candidate)
    ensures c in EvaluarReglas(r, rules)
        <==> exists i | 0 <= i < |rules| :: Accepted(rules[i], r) && c == CandidateOf(rules[i], r)
  {
    Sorting.SortDescPermutes(Candidates(r, rules), CandidateScore);
    assert c in EvaluarReglas(r, rules) <==> c in multiset(EvaluarReglas(r, rules));
    CandidatesMembers(r, rules, c);
  }

  /** The result is ordered by rounded score, highest first, and candidates
      with equal rounded scores keep the order of their rules. */
  lemma EvaluarReglasOrdered(r: Record, rules: seq<Rule>, k: real)
    ensures Sorting.SortedDesc(EvaluarReglas(r, rules), CandidateScore)
    ensures Sorting.WithKey(EvaluarReglas(r, rules), CandidateScore, k)
         == Sorting.WithKey(Candidates(r, rules), CandidateScore, k)
  {
    Sorting.SortDescSorted(Candidates(r, rules), CandidateScore);
    Sorting.SortDescStable(Candidates(r, rules), CandidateScore, k);
  }

  /** Every rule contributes at most once: the result is as long as the number
      of accepted rules. */
  lemma CandidatesCount(r: Record, rules: seq<Rule>)
    ensures |EvaluarReglas(r, rules)| == |AcceptedPositions(r, rules)|
  {
    Sorting.SortDescPermutes(Candidates(r, rules), CandidateScore);
    assert |EvaluarReglas(r, rules)| == |multiset(Candidates(r, rules))|;
    AcceptedCount(r, rules);
  }

  /** The positions of the rules that reach their threshold. */
  function AcceptedPositions(r: Record, rules: seq<Rule>): set<nat> {
    Counting.Where(rules, (rule: Rule) => Accepted(rule, r))
  }

  lemma {:induction false} AcceptedCount(r: Record, rules: seq<Rule>)
    ensures |Candidates(r, rules)| == |AcceptedPositions(r, rules)|
    decreases |rules|
  {
    if rules != [] {
      AcceptedCount(r, rules[1..]);
      Counting.WhereCons(rules, (rule: Rule) => Accepted(rule, r));
    }
  }

  // ---------------------------------------------------------------------------
  // Backward chaining

  /** `especie.strip().lower()`. */
  function Normalize(name: string): string {
    Text.Lower(Text.Strip(name))
  }

  /** The normalised species names of the rules, in order. */
  function SpeciesKeys(rules: seq<Rule>): (keys: seq<string>)
    ensures |keys| == |rules|
    ensures forall j | 0 <= j < |rules| :: keys[j] == Normalize(rules[j].species)
  {
    if rules == [] then [] else [Normalize(rules[0].species)] + SpeciesKeys(rules[1..])
  }

  /** The first position at or after `k` holding `key`. */
  function IndexFrom(key: string, keys: seq<string>, k: nat): (i: Option<nat>)
    requires k <= |keys|
    ensures i.Some? ==> k <= i.value < |keys| && keys[i.value] == key
    ensures i.Some? ==> forall j | k <= j < i.value :: keys[j] != key
    ensures i.None? ==> forall j | k <= j < |keys| :: keys[j] != key
    decreases |keys| - k
  {
    if k == |keys| then None
    else if keys[k] == key then Some(k)
    else IndexFrom(key, keys, k + 1)
  }

  /** `buscar_regla_por_especie`: the index of the first rule whose
      normalised species equals the normalised name. */
  function FindRule(name: string, rules: seq<Rule>): (i: Option<nat>)
    ensures i.Some? ==> i.value < |rules| && Normalize(rules[i.value].species) == Normalize(name)
    ensures i.Some? ==> forall j | 0 <= j < i.value :: Normalize(rules[j].species) != Normalize(name)
    ensures i.None? ==> forall j | 0 <= j < |rules| :: Normalize(rules[j].species) != Normalize(name)
  {
    IndexFrom(Normalize(name), SpeciesKeys(rules), 0)
  }

  /** Lookup ignores letter case: an upper-cased name finds the same rule. */
  lemma FindRuleIgnoresCase(name: string, rules: seq<Rule>)
    ensures FindRule(Text.Upper(name), rules) == FindRule(name, rules)
  {
    UpperCommutesStrip(name);
    Text.LowerOfUpper(Text.Strip(name));
    assert Normalize(Text.Upper(name)) == Normalize(name);
    FindRuleByNormalForm(Text.Upper(name), name, rules);
  }

  /** Lookup ignores surrounding whitespace. */
  lemma FindRuleIgnoresPadding(pre: string, name: string, post: string, rules: seq<Rule>)
    requires Text.AllSpace(pre) && Text.AllSpace(post)
    ensures FindRule(pre + name + post, rules) == FindRule(name, rules)
  {
    Text.StripPadding(pre, name, post);
    FindRuleByNormalForm(pre + name + post, name, rules);
  }

  lemma FindRuleByNormalForm(a: string, b: string, rules: seq<Rule>)
    requires Normalize(a) == Normalize(b)
    ensures FindRule(a, rules) == FindRule(b, rules)
  {
  }

  lemma UpperCommutesStrip(s: string)
    ensures Text.Strip(Text.Upper(s)) == Text.Upper(Text.Strip(s))
  {
    Text.StripUpper(s);
  }

  /** The record `verificar_especie` returns. `rule` is `regla_detalle`,
      present only when a rule was found. */
  datatype Verdict = Verdict(
    especie: string,
    verificada: bool,
    score: real,
    totales: nat,
    cumplidas: nat,
    faltantes: nat,
    justification: string,
    mensaje: string,
    encontrada: bool,
    rule: Option<Rule>)

  const TruePrefix: string := "La hipótesis es VERDADERA: \""
  const FalsePrefix: string := "La hipótesis es FALSA: \""

  /** The part of the message after the quoted name: the threshold
      comparison in percent and the condition counts. */
  function MessageTail(verified: bool, score: real, threshold: real, matched: nat, total: nat): (t: string)
    ensures |t| > 0 && t[0] == '"'
    ensures Text.Contains(t, "threshold")
  {
    var lead := if verified then "\" cumple el " else "\" NO cumple el ";
    var rel := if verified then " >= " else " < ";
    var counts :=
      if verified then
        Text.IntToString(matched) + " de " + Text.IntToString(total) + " condiciones satisfechas."
      else
        "Solo " + Text.IntToString(matched) + " de " + Text.IntToString(total)
        + " condiciones satisfechas, faltan " + Text.IntToString(total - matched) + ".";
    var after := " (" + Numeric.Percent(score) + rel + Numeric.Percent(threshold) + "). " + counts;
    Text.ContainsMiddle(lead, "threshold", after);
    lead + "threshold" + after
  }

  /** The explanatory message for a found rule. */
  function Message(name: string, verified: bool, score: real, threshold: real,
                   matched: nat, total: nat): (m: string)
    ensures verified ==> Text.StartsWith(m, TruePrefix)
    ensures !verified ==> Text.StartsWith(m, FalsePrefix)
    ensures Text.Contains(m, "\"" + name + "\"") && Text.Contains(m, "threshold")
  {
    var pre := if verified then TruePrefix else FalsePrefix;
    var rest := MessageTail(verified, score, threshold, matched, total);
    MessageFacts(pre, name, rest);
    pre + name + rest
  }

  lemma MessageFacts(pre: string, name: string, rest: string)
    requires |pre| > 0 && pre[|pre| - 1] == '"'
    requires |rest| > 0 && rest[0] == '"' && Text.Contains(rest, "threshold")
    ensures Text.StartsWith(pre + name + rest, pre)
    ensures Text.Contains(pre + name + rest, "\"" + name + "\"")
    ensures Text.Contains(pre + name + rest, "threshold")
  {
    var m := pre + name + rest;
    assert m[..|pre|] == pre;
    var i := |pre| - 1;
    assert m[i..i + |name| + 2] == "\"" + name + "\"";
    assert Text.ContainsAt(m, "\"" + name + "\"", i);
    var j :| 0 <= j <= |rest| - 9 && Text.ContainsAt(rest, "threshold", j);
    var o := |pre| + |name| + j;
    assert m[o..o + 9] == rest[j..j + 9];
    assert Text.ContainsAt(m, "threshold", o);
  }

  /** `verificar_especie(record, especie_objetivo, reglas)`. */
  function VerificarEspecie(r: Record, name: string, rules: seq<Rule>): (v: Verdict)
    ensures v.especie == name
    ensures v.encontrada <==> FindRule(name, rules).Some?
    ensures !v.encontrada ==>
      && !v.verificada && v.score == 0.0 && v.totales == 0 && v.cumplidas == 0
      && v.faltantes == 0 && v.justification == "" && v.rule.None?
      && v.mensaje == "No existe una regla definida para \"" + name + "\"."
    ensures v.encontrada ==>
      var rule := rules[FindRule(name, rules).value];
      && v.rule == Some(rule)
      && v.cumplidas + v.faltantes == v.totales == |rule.conditions|
      && v.cumplidas == MatchCount(rule.conditions, r)
      && v.score == Score(rule, r)
      && (v.verificada <==> Accepted(rule, r))
      && v.justification == rule.justification
      && Text.StartsWith(v.mensaje, if v.verificada then TruePrefix else FalsePrefix)
      && Text.Contains(v.mensaje, "\"" + name + "\"")
      && Text.Contains(v.mensaje, "threshold")
  {
    match FindRule(name, rules)
    case None =>
      Verdict(name, false, 0.0, 0, 0, 0, "",
              "No existe una regla definida para \"" + name + "\".", false, None)
    case Some(i) =>
      var rule := rules[i];
      var total := |rule.conditions|;
      var matched := MatchCount(rule.conditions, r);
      var score := Score(rule, r);
      var ok := score >= Threshold(rule);
      Verdict(name, ok, score, total, matched, total - matched, rule.justification,
              Message(name, ok, score, Threshold(rule), matched, total), true, Some(rule))
  }

  /** Species names that differ after normalisation. */
  predicate DistinctSpecies(rules: seq<Rule>) {
    forall i, j | 0 <= i < j < |rules| :: Normalize(rules[i].species) != Normalize(rules[j].species)
  }

  /** Backward and forward chaining agree: verifying a rule's own species
      succeeds iff that rule's candidate appears in `evaluar_reglas`. */
  lemma BackwardMatchesForward(r: Record, rules: seq<Rule>, i: nat)
    requires i < |rules| && DistinctSpecies(rules)
    ensures VerificarEspecie(r, rules[i].species, rules).verificada
        <==> CandidateOf(rules[i], r) in EvaluarReglas(r, rules)
  {
    var found := FindRule(rules[i].species, rules);
    assert found == Some(i);
    EvaluarReglasMembers(r, rules, CandidateOf(rules[i], r));
    if CandidateOf(rules[i], r) in EvaluarReglas(r, rules) {
      var j :| 0 <= j < |rules| && Accepted(rules[j], r) && CandidateOf(rules[i], r) == CandidateOf(rules[j], r);
      assert rules[j].species == rules[i].species;
      assert j == i;
    }
  }
}
