/** The earlier copy of forward chaining (`grupo4/src/rules_engine/engine.py`):
    the same scoring and ordering, with candidates that carry no detailed
    information or link. */
module LegacyEngine {
  import opened PyValues
  import opened RuleEngine
  import Numeric
  import Sorting

  /** A candidate of the earlier engine: rule id, species, rounded score,
      match count and justification. */
  datatype BasicCandidate = BasicCandidate(
    ruleId: string,
    species: string,
    score: real,
    matched: nat,
    justification: string)

  /** The candidate the earlier engine builds for an accepted rule. */
  function BasicCandidateOf(rule: Rule, r: Record): (c: BasicCandidate)
    ensures c.ruleId == rule.id && c.species == rule.species && c.justification == rule.justification
    ensures c.matched == MatchCount(rule.conditions, r)
    ensures c.score == Numeric.Round2(Score(rule, r))
  {
    BasicCandidate(rule.id, rule.species, Numeric.Round2(Score(rule, r)),
                   MatchCount(rule.conditions, r), rule.justification)
  }

  function BasicCandidates(r: Record, rules: seq<Rule>): (cs: seq<BasicCandidate>)
    ensures |cs| <= |rules|
  {
    if rules == [] then []
    else (if Accepted(rules[0], r) then [BasicCandidateOf(rules[0], r)] else [])
         + BasicCandidates(r, rules[1..])
  }

  function BasicScore(c: BasicCandidate): real {
    c.score
  }

  /** `evaluar_reglas` of the earlier engine. */
  function EvaluarReglasBasic(r: Record, rules: seq<Rule>): (cs: seq<BasicCandidate>)
    ensures |cs| <= |rules|
  {
    Sorting.SortDesc(BasicCandidates(r, rules), BasicScore)
  }

  /** The fields the two engines share. */
  function Project(c: Candidate): BasicCandidate {
    BasicCandidate(c.ruleId, c.species, c.score, c.matched, c.justification)
  }

  lemma {:induction false} BasicCandidatesProject(r: Record, rules: seq<Rule>)
    ensures BasicCandidates(r, rules) == Sorting.MapSeq(Candidates(r, rules), Project)
    decreases |rules|
  {
    if rules != [] {
      BasicCandidatesProject(r, rules[1..]);
      var head := if Accepted(rules[0], r) then [CandidateOf(rules[0], r)] else [];
      MapSeqAppend(head, Candidates(r, rules[1..]));
    }
  }

  lemma MapSeqAppend(a: seq<Candidate>, b: seq<Candidate>)
    ensures Sorting.MapSeq(a + b, Project) == Sorting.MapSeq(a, Project) + Sorting.MapSeq(b, Project)
  {
  }

  /** On every record and rule list the earlier engine returns the same
      candidates, in the same order, as the current one, field for field on
      the fields they share. */
  lemma EnginesAgree(r: Record, rules: seq<Rule>)
    ensures EvaluarReglasBasic(r, rules) == Sorting.MapSeq(EvaluarReglas(r, rules), Project)
  {
    BasicCandidatesProject(r, rules);
    Sorting.SortDescMap(Candidates(r, rules), CandidateScore, Project, BasicScore);
  }
}
