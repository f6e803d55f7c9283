/** The weighted trait matcher of the desktop identifier (`ExpertEngine`):
    every stored species is a rule with a list of trait phrases; the user's
    traits are compared with each rule by exact, partial and thesaurus
    matches, heavier traits count more, and the species with a positive score
    are ranked by the share of the user's traits they explain. The database
    read is a parameter (the species rows), and decoding a stored JSON list is
    a parameter too (its result, when it succeeds). */
module ExpertEngine {
  import opened Wrappers
  import Text
  import Numeric
  import Sorting
  import Sequences

  // ---------------------------------------------------------------------------
  // Trait lists

  /** A trait phrase as the matcher wants it: a non-empty lower-case word
      without whitespace or commas. */
  predicate Clean(f: string) {
    Text.IsWord(f) && Text.Lower(f) == f && ',' !in f
  }

  /** A species as the engine loads it. */
  datatype Rule = Rule(genus: string, species: string, commonName: string, features: seq<string>)

  /** The stored trait text of a species: the decoded JSON list when the text
      is one (`decoded`), otherwise the text lowered, with commas turned into
      spaces, split on whitespace. */
  function StoredFeatures(text: string, decoded: Option<seq<string>>): (fs: seq<string>)
    ensures decoded.Some? ==> fs == decoded.value
    ensures decoded.None? ==> forall k | 0 <= k < |fs| :: Clean(fs[k])
    ensures decoded.None? ==> Text.Splits(Text.ReplaceChar(Text.Lower(text), ',', ' '), fs)
    ensures decoded.None? ==> Text.Concat(fs) == Text.RemoveSpaces(Text.ReplaceChar(Text.Lower(text), ',', ' '))
  {
    if decoded.Some? then decoded.value
    else
      var plain := Text.ReplaceChar(Text.Lower(text), ',', ' ');
      SplitIsClean(plain);
      Text.WordsSplits(plain);
      Text.WordsKeepEveryOtherChar(plain);
      Text.Words(plain)
  }

  /** A character that lower-casing leaves alone and that is not a comma. */
  predicate Plain(c: char) {
    c != ',' && Text.LowerChar(c) == c
  }

  /** The words of a lowered text without commas are clean. */
  lemma SplitIsClean(s: string)
    requires forall i | 0 <= i < |s| :: Plain(s[i])
    ensures forall k | 0 <= k < |Text.Words(s)| :: Clean(Text.Words(s)[k])
  {
    var ws := Text.Words(s);
    Text.WordsKeepCharProperty(s, Plain);
    forall k | 0 <= k < |ws| ensures Clean(ws[k]) {
      PlainWordClean(ws[k]);
    }
  }

  /** A word of plain characters is clean. */
  lemma PlainWordClean(w: string)
    requires Text.IsWord(w) && forall j | 0 <= j < |w| :: Plain(w[j])
    ensures Clean(w)
  {
    assert Text.Lower(w) == w;
  }

  /** The rule's traits as compared: each stripped and lowered. */
  function RuleFeatures(fs: seq<string>): (rfs: seq<string>)
    ensures |rfs| == |fs|
    ensures forall i | 0 <= i < |fs| :: rfs[i] == Text.Lower(Text.Strip(fs[i]))
  {
    seq(|fs|, i requires 0 <= i < |fs| => Text.Lower(Text.Strip(fs[i])))
  }

  // ---------------------------------------------------------------------------
  // The user's traits

  /** The user's input: a typed text or a list of selected traits. */
  datatype Query = Typed(text: string) | Selected(items: seq<string>)

  /** The selector value that means "not observed". */
  const NotObserved := "no observado"

  /** `[f.strip().lower() for f in ws if f.strip()]`. */
  function LowerStripped(ws: seq<string>): seq<string>
    decreases |ws|
  {
    if ws == [] then []
    else (if Text.Strip(ws[0]) != "" then [Text.Lower(Text.Strip(ws[0]))] else []) + LowerStripped(ws[1..])
  }

  /** Whether a selected trait, lowered, is an observation. */
  predicate IsObservation(item: string) {
    Text.Lower(item) != NotObserved
  }

  /** `[f.lower() for f in items if f.lower() != "no observado"]`. */
  function Observed(items: seq<string>): (fs: seq<string>)
    ensures |fs| <= |items|
    ensures forall x :: x in fs <==> x != NotObserved && exists i | 0 <= i < |items| :: Text.Lower(items[i]) == x
    ensures Sequences.Comprehension(fs, items, IsObservation, Text.Lower)
    decreases |items|
  {
    if items == [] then
      Sequences.ComprehensionNil(IsObservation, Text.Lower);
      []
    else
      var rest := Observed(items[1..]);
      assert forall i | 1 <= i < |items| :: items[i] == items[1..][i - 1];
      Sequences.ComprehensionStep(items, IsObservation, Text.Lower, rest);
      (if IsObservation(items[0]) then [Text.Lower(items[0])] else []) + rest
  }

  /** Every word lowered. */
  function LowerEach(ws: seq<string>): (ls: seq<string>)
    ensures |ls| == |ws|
    ensures forall k | 0 <= k < |ws| :: ls[k] == Text.Lower(ws[k])
  {
    seq(|ws|, k requires 0 <= k < |ws| => Text.Lower(ws[k]))
  }

  /** `fs` are the whitespace-separated words of `s`, lowered. */
  ghost predicate LoweredWords(fs: seq<string>, s: string) {
    exists ws | Text.Splits(s, ws) :: fs == LowerEach(ws)
  }

  /** The cleaned trait list the matcher works on: for a typed text, its
      whitespace-separated words (commas counting as spaces), lowered. */
  function Normalise(q: Query): (fs: seq<string>)
    ensures q.Typed? ==> forall k | 0 <= k < |fs| :: Clean(fs[k])
    ensures q.Typed? ==> LoweredWords(fs, Text.ReplaceChar(q.text, ',', ' '))
    ensures q.Typed? ==> Text.Concat(fs) == Text.Lower(Text.RemoveSpaces(Text.ReplaceChar(q.text, ',', ' ')))
    ensures q.Selected? ==> fs == Observed(q.items)
  {
    match q
    case Typed(text) =>
      var plain := Text.ReplaceChar(text, ',', ' ');
      Text.WordsKeepCharProperty(plain, c => c != ',');
      LowerWords(Text.Words(plain));
      Text.WordsKeepEveryOtherChar(plain);
      Text.WordsSplits(plain);
      StripWords(Text.Words(plain));
      LowerStripped(Text.Words(plain))
    case Selected(items) => Observed(items)
  }

  /** On words, the strip-and-filter step only lowers. */
  lemma {:induction false} StripWords(ws: seq<string>)
    requires forall k | 0 <= k < |ws| :: Text.IsWord(ws[k])
    ensures LowerStripped(ws) == LowerEach(ws)
    decreases |ws|
  {
    if ws != [] {
      assert Text.Strip(ws[0]) == ws[0];
      StripWords(ws[1..]);
      assert LowerEach(ws) == [Text.Lower(ws[0])] + LowerEach(ws[1..]);
    }
  }

  /** A typed text's trait list is determined by how the text splits: for
      any words the text (commas as spaces) splits into, the list is those
      words lowered. */
  lemma NormaliseIsSplit(text: string, ws: seq<string>)
    requires Text.Splits(Text.ReplaceChar(text, ',', ' '), ws)
    ensures Normalise(Typed(text)) == LowerEach(ws)
  {
    var plain := Text.ReplaceChar(text, ',', ' ');
    var found :| Text.Splits(plain, found) && Normalise(Typed(text)) == LowerEach(found);
    Text.SplitsUnique(plain, ws, found);
  }

  /** On words, the strip-and-filter step keeps every word and only lowers it. */
  lemma {:induction false} LowerWords(ws: seq<string>)
    requires forall k | 0 <= k < |ws| :: Text.IsWord(ws[k])
    requires forall k, j | 0 <= k < |ws| && 0 <= j < |ws[k]| :: ws[k][j] != ','
    ensures forall k | 0 <= k < |LowerStripped(ws)| :: Clean(LowerStripped(ws)[k])
    ensures Text.Concat(LowerStripped(ws)) == Text.Lower(Text.Concat(ws))
    decreases |ws|
  {
    if ws != [] {
      var w := ws[0];
      assert Text.Strip(w) == w;
      var f := Text.Lower(w);
      Text.LowerIdempotent(w);
      assert forall j | 0 <= j < |f| :: f[j] == Text.LowerChar(w[j]);
      assert Clean(f);
      LowerWords(ws[1..]);
      assert LowerStripped(ws) == [f] + LowerStripped(ws[1..]);
      Text.LowerAppend(w, Text.Concat(ws[1..]));
    }
  }

  // ---------------------------------------------------------------------------
  // Matching one user trait against one rule

  /** Synonyms consulted when a trait has no exact or partial match. */
  const Thesaurus: map<string, seq<string>> := map[
    "subcilindrico" := ["ovalado", "cilindrico", "alargado"],
    "ovalado" := ["subcilindrico", "redondeado", "elipsoide"],
    "liso" := ["suave", "sin rugosidad"],
    "rugoso" := ["granulado", "estriado", "asperos", "rugosa"]]

  /** Traits of high taxonomic value weigh 1.5, the others 1. */
  function Weight(u: string): real {
    if Text.Contains(u, "rugoso") || Text.Contains(u, "falcado") || Text.Contains(u, "estriado") then 1.5 else 1.0
  }

  /** One trait is a substring of the other. */
  predicate Related(u: string, r: string) {
    Text.Contains(r, u) || Text.Contains(u, r)
  }

  /** The partial-match loop: it stops at the first related rule trait. */
  function AnyRelated(u: string, rfs: seq<string>): (b: bool)
    ensures b <==> exists i | 0 <= i < |rfs| :: Related(u, rfs[i])
    decreases |rfs|
  {
    if rfs == [] then false
    else
      assert forall i | 1 <= i < |rfs| :: rfs[i] == rfs[1..][i - 1];
      Related(u, rfs[0]) || AnyRelated(u, rfs[1..])
  }

  /** `any(syn in r_f for r_f in rule_features)`. */
  function Mentioned(syn: string, rfs: seq<string>): (b: bool)
    ensures b <==> exists i | 0 <= i < |rfs| :: Text.Contains(rfs[i], syn)
    decreases |rfs|
  {
    if rfs == [] then false
    else
      assert forall i | 1 <= i < |rfs| :: rfs[i] == rfs[1..][i - 1];
      Text.Contains(rfs[0], syn) || Mentioned(syn, rfs[1..])
  }

  /** The synonym loop: it stops at the first synonym some rule trait holds. */
  function SynonymFound(syns: seq<string>, rfs: seq<string>): (b: bool)
    ensures b <==> exists j | 0 <= j < |syns| :: Mentioned(syns[j], rfs)
    decreases |syns|
  {
    if syns == [] then false
    else
      assert forall j | 1 <= j < |syns| :: syns[j] == syns[1..][j - 1];
      Mentioned(syns[0], rfs) || SynonymFound(syns[1..], rfs)
  }

  /** Some rule trait is related to `u`. */
  predicate Partial(u: string, rfs: seq<string>) {
    exists i | 0 <= i < |rfs| :: Related(u, rfs[i])
  }

  /** `u` has a synonym that some rule trait contains. */
  predicate BySynonym(u: string, rfs: seq<string>) {
    u in Thesaurus && exists j | 0 <= j < |Thesaurus[u]| :: Mentioned(Thesaurus[u][j], rfs)
  }

  /** What one user trait adds to a rule's score: its weight for an exact or
      partial match, 70% of it for a thesaurus match, nothing otherwise. */
  function Contribution(u: string, rfs: seq<string>): (c: real)
    ensures Partial(u, rfs) ==> c == Weight(u)
    ensures !Partial(u, rfs) && BySynonym(u, rfs) ==> c == Weight(u) * 0.7
    ensures !Partial(u, rfs) && !BySynonym(u, rfs) ==> c == 0.0
  {
    var w := Weight(u);
    if u in rfs then
      var i :| 0 <= i < |rfs| && rfs[i] == u;
      Text.ContainsSelf(u);
      assert Related(u, rfs[i]);
      w
    else if AnyRelated(u, rfs) then w
    else if u in Thesaurus && SynonymFound(Thesaurus[u], rfs) then w * 0.7
    else 0.0
  }

  /** A trait supports a rule when it contributes to its score. */
  predicate Supports(u: string, rfs: seq<string>) {
    Partial(u, rfs) || BySynonym(u, rfs)
  }

  /** A trait contributes something exactly when it supports the rule, and
      never more than 1.5. */
  lemma ContributionRange(u: string, rfs: seq<string>)
    ensures 0.0 <= Contribution(u, rfs) <= 1.5
    ensures Contribution(u, rfs) > 0.0 <==> Supports(u, rfs)
  {
  }

  /** The rule's score: the contributions of all the user's traits. */
  function Score(us: seq<string>, rfs: seq<string>): (s: real)
    ensures 0.0 <= s <= 1.5 * |us| as real
    ensures s > 0.0 <==> exists i | 0 <= i < |us| :: Supports(us[i], rfs)
    decreases |us|
  {
    if us == [] then 0.0
    else
      ContributionRange(us[0], rfs);
      assert forall i | 1 <= i < |us| :: us[i] == us[1..][i - 1];
      Contribution(us[0], rfs) + Score(us[1..], rfs)
  }

  /** When every trait finds a partial match the score reaches the number of
      traits. */
  lemma {:induction false} ScoreOfPartials(us: seq<string>, rfs: seq<string>)
    requires forall i | 0 <= i < |us| :: Partial(us[i], rfs)
    ensures Score(us, rfs) >= |us| as real
    decreases |us|
  {
    if us != [] {
      ScoreOfPartials(us[1..], rfs);
    }
  }

  // ---------------------------------------------------------------------------
  // Probability and ranking

  /** `round(min(score / n * 100, 100), 2)`. */
  function Probability(score: real, n: nat): (p: real)
    requires n > 0 && score >= 0.0
    ensures 0.0 <= p <= 100.0
    ensures score >= n as real ==> p == 100.0
    ensures score / n as real * 100.0 >= 1.0 / 100.0 ==> p > 0.0
  {
    var share := score / n as real;
    assert share * n as real == score;
    assert share >= 0.0;
    assert score >= n as real ==> share >= 1.0;
    var raw := share * 100.0;
    var capped := if raw < 100.0 then raw else 100.0;
    Numeric.Round2Monotone(0.0, capped);
    Numeric.Round2Monotone(capped, 100.0);
    Numeric.Round2OfHundredths(0);
    Numeric.Round2OfHundredths(10000);
    Numeric.Round2(capped)
  }

  /** A reported species. */
  datatype Match = Match(genus: string, species: string, commonName: string, probability: real)

  function ProbabilityOf(m: Match): real {
    m.probability
  }

  /** The report line of a rule for the user's traits. */
  function MatchOf(rule: Rule, us: seq<string>): Match
    requires us != []
  {
    var s := Score(us, RuleFeatures(rule.features));
    Match(rule.genus, rule.species, rule.commonName, Probability(s, |us|))
  }

  /** A rule is reported when it scores above zero. */
  predicate Reported(rule: Rule, us: seq<string>) {
    Score(us, RuleFeatures(rule.features)) > 0.0
  }

  /** The report lines of the positively scored rules, in rule order. */
  function Candidates(rules: seq<Rule>, us: seq<string>): (ms: seq<Match>)
    requires us != []
    ensures |ms| <= |rules|
    ensures forall m :: m in ms <==> exists i | 0 <= i < |rules| :: Reported(rules[i], us) && m == MatchOf(rules[i], us)
    ensures Sequences.Comprehension(ms, rules, rule => Reported(rule, us), rule => MatchOf(rule, us))
    decreases |rules|
  {
    if rules == [] then
      Sequences.ComprehensionNil(rule => Reported(rule, us), rule => MatchOf(rule, us));
      []
    else
      var rest := Candidates(rules[1..], us);
      assert forall i | 1 <= i < |rules| :: rules[i] == rules[1..][i - 1];
      Sequences.ComprehensionStep(rules, rule => Reported(rule, us), rule => MatchOf(rule, us), rest);
      (if Reported(rules[0], us) then [MatchOf(rules[0], us)] else []) + rest
  }

  /** `identify_by_features`: nothing for an empty trait list, otherwise the
      candidates sorted by probability, highest first, ties in rule order. */
  function Identify(rules: seq<Rule>, q: Query): (r: seq<Match>)
    ensures Normalise(q) == [] ==> r == []
    ensures Sorting.SortedDesc(r, ProbabilityOf)
  {
    var us := Normalise(q);
    if us == [] then []
    else
      Sorting.SortDescSorted(Candidates(rules, us), ProbabilityOf);
      Sorting.SortDesc(Candidates(rules, us), ProbabilityOf)
  }

  /** The ranking only reorders the candidates. */
  lemma IdentifyPermutes(rules: seq<Rule>, q: Query)
    requires Normalise(q) != []
    ensures multiset(Identify(rules, q)) == multiset(Candidates(rules, Normalise(q)))
  {
    var c := Candidates(rules, Normalise(q));
    assert Identify(rules, q) == Sorting.SortDesc(c, ProbabilityOf);
    Sorting.SortDescPermutes(c, ProbabilityOf);
  }

  /** The ranking reports exactly the positively scored species, each once
      per rule. */
  lemma IdentifyReports(rules: seq<Rule>, q: Query)
    requires Normalise(q) != []
    ensures forall m :: m in Identify(rules, q) <==>
      exists i | 0 <= i < |rules| :: Reported(rules[i], Normalise(q)) && m == MatchOf(rules[i], Normalise(q))
  {
    var us := Normalise(q);
    assert Identify(rules, q) == Sorting.SortDesc(Candidates(rules, us), ProbabilityOf);
    RankedReports(rules, us);
  }

  /** Ranking the candidates for a trait list reports exactly the positively
      scored rules. */
  lemma RankedReports(rules: seq<Rule>, us: seq<string>)
    requires us != []
    ensures forall m :: m in Sorting.SortDesc(Candidates(rules, us), ProbabilityOf) <==>
      exists i | 0 <= i < |rules| :: Reported(rules[i], us) && m == MatchOf(rules[i], us)
  {
    var c := Candidates(rules, us);
    var r := Sorting.SortDesc(c, ProbabilityOf);
    Sorting.SortDescPermutes(c, ProbabilityOf);
    SameElements(r, c);
    forall m ensures m in r <==> exists i | 0 <= i < |rules| :: Reported(rules[i], us) && m == MatchOf(rules[i], us) {
      assert m in r <==> m in c;
    }
  }

  /** Every reported probability lies in [0, 100]. */
  lemma IdentifyProbabilities(rules: seq<Rule>, q: Query)
    requires Normalise(q) != []
    ensures forall m | m in Identify(rules, q) :: 0.0 <= m.probability <= 100.0
  {
    var us := Normalise(q);
    IdentifyReports(rules, q);
    forall m | m in Identify(rules, q) ensures 0.0 <= m.probability <= 100.0 {
      var i :| 0 <= i < |rules| && Reported(rules[i], us) && m == MatchOf(rules[i], us);
    }
  }

  lemma SameElements<T>(a: seq<T>, b: seq<T>)
    requires multiset(a) == multiset(b)
    ensures forall x :: x in a <==> x in b
  {
    forall x ensures x in a <==> x in b {
      assert x in a <==> x in multiset(a);
      assert x in b <==> x in multiset(b);
    }
  }

  /** Species with the same probability keep the order of the rules. */
  lemma IdentifyStable(rules: seq<Rule>, q: Query, k: real)
    requires Normalise(q) != []
    ensures Sorting.WithKey(Identify(rules, q), ProbabilityOf, k)
      == Sorting.WithKey(Candidates(rules, Normalise(q)), ProbabilityOf, k)
  {
    Sorting.SortDescStable(Candidates(rules, Normalise(q)), ProbabilityOf, k);
  }

  // ---------------------------------------------------------------------------
  // Consequences

  /** A rule holding a blank trait (possible in a decoded JSON list) is
      related to every user trait, since the empty string is a substring of
      any string, so it is reported with probability 100 for every query. */
  lemma BlankTraitMatchesAll(rule: Rule, us: seq<string>, b: nat)
    requires us != [] && b < |rule.features| && Text.Strip(rule.features[b]) == ""
    ensures Reported(rule, us)
    ensures MatchOf(rule, us).probability == 100.0
  {
    var rfs := RuleFeatures(rule.features);
    assert rfs[b] == Text.Lower("") == "";
    forall i | 0 <= i < |us| ensures Partial(us[i], rfs) {
      Text.ContainsSelf(us[i]);
      assert Related(us[i], rfs[b]);
    }
    ScoreOfPartials(us, rfs);
  }

  /** A direct match implies a partial one: the exact-membership test never
      gives a trait anything the partial loop would not. */
  lemma ExactIsPartial(u: string, rfs: seq<string>)
    requires u in rfs
    ensures Partial(u, rfs)
  {
    var i :| 0 <= i < |rfs| && rfs[i] == u;
    Text.ContainsSelf(u);
    assert Related(u, rfs[i]);
  }

  /** "ovalado" against a rule listing only "subcilindrico" scores through
      the thesaurus: 70% of weight 1. */
  lemma ThesaurusExample()
    ensures Contribution("ovalado", ["subcilindrico"]) == 0.7
  {
    var rfs := ["subcilindrico"];
    assert !Text.Contains("subcilindrico", "ovalado") by { Text.MissingChar("subcilindrico", "ovalado", 'v'); }
    assert !Related("ovalado", rfs[0]);
    assert !Partial("ovalado", rfs);
    Text.ContainsSelf("subcilindrico");
    assert Mentioned(Thesaurus["ovalado"][0], rfs);
    assert !Text.Contains("ovalado", "rugoso") by { Text.MissingChar("ovalado", "rugoso", 'r'); }
    assert !Text.Contains("ovalado", "falcado") by { Text.MissingChar("ovalado", "falcado", 'f'); }
    assert Weight("ovalado") == 1.0;
  }

  /** A heavy trait matched through the thesaurus: "rugoso" against a rule
      listing only "granulado" adds 0.7 × 1.5. */
  lemma HeavyThesaurusExample()
    ensures Contribution("rugoso", ["granulado"]) == 1.05
  {
    var rfs := ["granulado"];
    assert !Text.Contains("granulado", "rugoso") by { Text.MissingChar("granulado", "rugoso", 's'); }
    assert !Text.Contains("rugoso", "granulado");
    assert !Related("rugoso", rfs[0]);
    assert !Partial("rugoso", rfs);
    Text.ContainsSelf("granulado");
    assert Mentioned(Thesaurus["rugoso"][0], rfs);
    Text.ContainsSelf("rugoso");
    assert Weight("rugoso") == 1.5;
  }
}
