/** The identification screen of the squat-lobster identifier
    (`IdentifySpeciesFrame`): a walk through the dichotomous key of
    `KeyGraph` during which every answer at a node of `NODE_TRAIT_MAP` credits
    one point to each species whose recorded trait agrees with it. The
    session keeps the answers given, the running scores and what the screen
    shows; the widgets themselves are not modelled. */
module KeyScoring {
  import opened Wrappers
  import KeyGraph
  import Text
  import Numeric
  import Sorting
  import Sequences

  // ---------------------------------------------------------------------------
  // Species and traits

  /** An entry of `NODE_TRAIT_MAP`: the `species` column a node asks about
      and the value that column holds for a species when the answer is SÍ,
      and when it is NO. */
  datatype Trait = Trait(column: string, yes: int, no: int)

  /** `NODE_TRAIT_MAP.get(node)`. */
  function NodeTrait(node: nat): Option<Trait> {
    match node
    case 1 => Some(Trait("carapace_lines", 1, 0))
    case 2 => Some(Trait("posterior_spines", 1, 0))
    case 6 => Some(Trait("ocular_peduncle_spines", 1, 0))
    case 7 => Some(Trait("ocular_peduncle_spines", 1, 0))
    case 11 => Some(Trait("cardiac_spines", 1, 0))
    case 13 => Some(Trait("carapace_lines", 0, 1))
    case _ => None
  }

  /** A row of `species` as `_load_species` keeps it: its id, its name and
      the trait columns that are not `NULL`, as integers. */
  datatype Species = Species(id: nat, name: string, traits: map<string, int>)

  /** Whether the answer `yes` at `node` credits `sp`: the node is mapped and
      the species' trait is recorded with the expected value. */
  predicate Credits(sp: Species, node: nat, yes: bool) {
    match NodeTrait(node)
    case None => false
    case Some(t) => t.column in sp.traits && sp.traits[t.column] == (if yes then t.yes else t.no)
  }

  /** `_apply_scoring(node, yes, revert)`: `delta` is 1 for an answer and -1
      for its revert. */
  function ApplyScoring(catalog: seq<Species>, scores: seq<int>, node: nat, yes: bool, delta: int): (r: seq<int>)
    requires |scores| == |catalog|
    ensures |r| == |catalog|
    ensures NodeTrait(node).None? ==> r == scores
    ensures forall k | 0 <= k < |catalog| ::
      r[k] - scores[k] == if Credits(catalog[k], node, yes) then delta else 0
  {
    seq(|catalog|, k requires 0 <= k < |catalog| =>
      if Credits(catalog[k], node, yes) then scores[k] + delta else scores[k])
  }

  /** Applying an answer and then reverting it restores every score. */
  lemma ApplyRevert(catalog: seq<Species>, scores: seq<int>, node: nat, yes: bool)
    requires |scores| == |catalog|
    ensures ApplyScoring(catalog, ApplyScoring(catalog, scores, node, yes, 1), node, yes, -1) == scores
  {
  }

  // ---------------------------------------------------------------------------
  // Answers

  /** `is_yes`: the upper-cased option text starts with "SÍ" or with "SI". */
  predicate IsYes(answer: string) {
    Text.StartsWith(Text.Upper(answer), "SÍ") || Text.StartsWith(Text.Upper(answer), "SI")
  }

  /** `IsYes` reads only the first two characters. */
  lemma IsYesByPrefix(answer: string)
    ensures IsYes(answer) <==>
      |answer| >= 2 && Text.UpperChar(answer[0]) == 'S'
      && (Text.UpperChar(answer[1]) == 'Í' || Text.UpperChar(answer[1]) == 'I')
  {
    if |answer| >= 2 {
      assert Text.Upper(answer)[..2] == [Text.UpperChar(answer[0]), Text.UpperChar(answer[1])];
    }
  }

  /** The prefix test also takes a label that starts with "Sin" for a SÍ. */
  lemma SinCountsAsYes()
    ensures IsYes("Sin espinas")
  {
    IsYesByPrefix("Sin espinas");
  }

  /** Every node of `NODE_TRAIT_MAP` is a node of the key with two options,
      the first read as SÍ and the second as NO. */
  lemma TraitNodesAnswerable(n: nat)
    requires NodeTrait(n).Some?
    ensures KeyGraph.IsNode(n) && |KeyGraph.OptionsOf(n)| == 2
    ensures IsYes(KeyGraph.OptionsOf(n)[0].text) && !IsYes(KeyGraph.OptionsOf(n)[1].text)
  {
    var opts := KeyGraph.OptionsOf(n);
    IsYesByPrefix(opts[0].text);
    IsYesByPrefix(opts[1].text);
  }

  /** An entry of `history`: the node answered, the option text chosen and
      whether it was read as SÍ (the question text is display only). */
  datatype Step = Step(node: nat, answer: string, yes: bool)

  /** What the left panel shows: a node's question and options, or the
      species `show_result` presents. */
  datatype Screen = Question(node: nat) | Identified(species: nat)

  /** The state of the identification screen. `scores[k]` is the score of
      `catalog[k]`; `catalog` is in load order (`ORDER BY genus, name`). */
  datatype Session = Session(catalog: seq<Species>, scores: seq<int>, history: seq<Step>, screen: Screen)

  /** Python's truthiness of a nullable id column. */
  predicate Truthy(id: Option<nat>) {
    id.Some? && id.value != 0
  }

  /** Where choosing `o` at `node` leads: the species it names, else the
      next node, else (a key that is incomplete there) the same node. */
  function Outcome(node: nat, o: KeyGraph.KeyOption): Screen {
    if Truthy(o.species) then Identified(o.species.value)
    else if Truthy(o.next) then Question(o.next.value)
    else Question(node)
  }

  /** `handle_option`: pressing option button `pick` of the node on screen.
      The answer is recorded and scored before the screen moves on. With no
      such button (on a result screen, or past the node's options) nothing
      happens. */
  function Choose(s: Session, pick: nat): (r: Session)
    requires |s.scores| == |s.catalog|
    ensures |r.scores| == |r.catalog| && r.catalog == s.catalog
    ensures r == s <==> !(s.screen.Question? && pick < |KeyGraph.OptionsOf(s.screen.node)|)
    ensures r != s ==> |r.history| == |s.history| + 1 && r.history[..|s.history|] == s.history
  {
    if !s.screen.Question? || pick >= |KeyGraph.OptionsOf(s.screen.node)| then s
    else
      var node := s.screen.node;
      var o := KeyGraph.OptionsOf(node)[pick];
      var yes := IsYes(o.text);
      var r := Session(s.catalog, ApplyScoring(s.catalog, s.scores, node, yes, 1),
                       s.history + [Step(node, o.text, yes)], Outcome(node, o));
      assert r.history[..|s.history|] == s.history;
      assert |r.history| != |s.history|;
      r
  }

  /** `go_back` as written: pops and reverts the last answer, then shows the
      node of the answer now last in the history (node 1 when none is
      left) — the node before the one whose answer was undone. On a result
      screen `load_node` fails at its first widget call, because
      `show_result` destroyed the option frame it clears: the answer is
      undone but the result stays on screen. */
  function GoBackAsWritten(s: Session): (r: Session)
    requires |s.scores| == |s.catalog|
    ensures |r.scores| == |r.catalog| && r.catalog == s.catalog
    ensures s.history == [] ==> r == s
    ensures s.history != [] ==> r.history == s.history[..|s.history| - 1]
    ensures s.screen.Identified? ==> r.screen == s.screen
  {
    if s.history == [] then s
    else
      var last := s.history[|s.history| - 1];
      var h := s.history[..|s.history| - 1];
      Session(s.catalog, ApplyScoring(s.catalog, s.scores, last.node, last.yes, -1), h,
              if s.screen.Identified? then s.screen else Question(if h != [] then h[|h| - 1].node else 1))
  }

  /** `go_back` with the screen returned to the node whose answer was
      undone, so that answering it again replaces the undone answer. On a
      result screen the answer is undone and the result stays, as in
      `GoBackAsWritten`. */
  function GoBack(s: Session): (r: Session)
    requires |s.scores| == |s.catalog|
    ensures |r.scores| == |r.catalog| && r.catalog == s.catalog
    ensures s.history == [] ==> r == s
    ensures s.history != [] ==> r.history == s.history[..|s.history| - 1]
    ensures s.history != [] && s.screen.Question? ==> r.screen == Question(s.history[|s.history| - 1].node)
    ensures s.screen.Identified? ==> r.screen == s.screen
  {
    if s.history == [] then s
    else
      var last := s.history[|s.history| - 1];
      Session(s.catalog, ApplyScoring(s.catalog, s.scores, last.node, last.yes, -1),
              s.history[..|s.history| - 1], if s.screen.Identified? then s.screen else Question(last.node))
  }

  /** The session the screen opens with (and `reset` returns to): node 1, no
      answers, every score 0. */
  function Start(catalog: seq<Species>): (s: Session)
    ensures Valid(s)
    ensures s.history == [] && s.screen == Question(1)
    ensures |s.scores| == |catalog| && forall k | 0 <= k < |catalog| :: s.scores[k] == 0
  {
    Session(catalog, seq(|catalog|, k => 0), [], Question(1))
  }

  /** `reset`: clears the answers and zeroes the scores of the species loaded
      when the screen opened. */
  function Reset(s: Session): (r: Session)
    ensures Valid(r) && r.catalog == s.catalog && r.history == [] && r.screen == Question(1)
  {
    Start(s.catalog)
  }

  // ---------------------------------------------------------------------------
  // The session invariant

  /** The first option of `opts` labelled `answer`: the option a recorded
      answer stands for. */
  function Lead(opts: seq<KeyGraph.KeyOption>, answer: string): (r: Option<KeyGraph.KeyOption>)
    ensures r.Some? ==> r.value in opts && r.value.text == answer
    ensures r.None? ==> forall o | o in opts :: o.text != answer
  {
    if opts == [] then None
    else if opts[0].text == answer then Some(opts[0])
    else Lead(opts[1..], answer)
  }

  /** Where a recorded answer leads. */
  function Next(step: Step): Screen {
    match Lead(KeyGraph.OptionsOf(step.node), step.answer)
    case Some(o) => Outcome(step.node, o)
    case None => Question(step.node)
  }

  /** A recorded answer is an option of its node, read as SÍ or NO by
      `IsYes`. */
  predicate Recorded(step: Step) {
    Lead(KeyGraph.OptionsOf(step.node), step.answer).Some? && step.yes == IsYes(step.answer)
  }

  /** `next` was answered at the node `prev` led to. */
  predicate Linked(prev: Step, next: Step) {
    Next(prev) == Question(next.node)
  }

  /** `history` is a walk through the key from node 1. */
  predicate Walked(history: seq<Step>) {
    (forall i | 0 <= i < |history| :: Recorded(history[i]))
    && (history != [] ==> history[0].node == 1)
    && (forall i | 0 < i < |history| :: Linked(history[i - 1], history[i]))
  }

  /** What the screen shows after the answers of `history`. */
  function Landing(history: seq<Step>): Screen {
    if history == [] then Question(1) else Next(history[|history| - 1])
  }

  /** The number of answers of `history` that credit `sp`. */
  function Tally(sp: Species, history: seq<Step>): (n: nat)
    ensures n <= |history|
    decreases |history|
  {
    if history == [] then 0
    else
      var last := history[|history| - 1];
      Tally(sp, history[..|history| - 1]) + (if Credits(sp, last.node, last.yes) then 1 else 0)
  }

  /** The answers and scores agree: each score counts the answers that
      credit the species, and the answers walk the key from node 1. */
  predicate Consistent(s: Session) {
    |s.scores| == |s.catalog|
    && (forall k | 0 <= k < |s.catalog| :: s.scores[k] == Tally(s.catalog[k], s.history))
    && Walked(s.history)
  }

  /** A consistent session whose screen shows where its answers lead. */
  predicate Valid(s: Session) {
    Consistent(s) && s.screen == Landing(s.history)
  }

  /** What the screen can come to: consistent answers and scores, and a
      question on screen only where the answers lead. A result may stay on
      screen after its answers were undone. */
  predicate Sound(s: Session) {
    Consistent(s) && (s.screen.Question? ==> s.screen == Landing(s.history))
  }

  /** In a consistent session every score lies between 0 and the number of
      answers given. */
  lemma ScoresBounded(s: Session, k: nat)
    requires Valid(s) && k < |s.catalog|
    ensures 0 <= s.scores[k] <= |s.history|
  {
  }

  /** The options of a node have distinct first characters, so an answer
      text names one option. */
  lemma LeadOfOption(n: nat, pick: nat)
    requires pick < |KeyGraph.OptionsOf(n)|
    ensures Lead(KeyGraph.OptionsOf(n), KeyGraph.OptionsOf(n)[pick].text) == Some(KeyGraph.OptionsOf(n)[pick])
  {
    var opts := KeyGraph.OptionsOf(n);
    KeyGraph.FirstCharsDistinct(n);
    LeadUnique(opts, pick);
  }

  lemma {:induction false} LeadUnique(opts: seq<KeyGraph.KeyOption>, pick: nat)
    requires pick < |opts|
    requires forall i, j | 0 <= i < j < |opts| :: opts[i].text != [] && opts[j].text != [] && opts[i].text[0] != opts[j].text[0]
    ensures Lead(opts, opts[pick].text) == Some(opts[pick])
    decreases |opts|
  {
    if pick > 0 {
      assert opts[0].text != [] && opts[pick].text != [] && opts[0].text[0] != opts[pick].text[0];
      LeadUnique(opts[1..], pick - 1);
    }
  }

  /** Counting the answers of a longer history. */
  lemma TallyAppend(sp: Species, history: seq<Step>, step: Step)
    ensures Tally(sp, history + [step]) == Tally(sp, history) + if Credits(sp, step.node, step.yes) then 1 else 0
  {
    assert (history + [step])[..|history|] == history;
  }

  /** An answer given where the history leads extends the walk. */
  lemma WalkedAppend(history: seq<Step>, step: Step)
    requires Walked(history) && Landing(history) == Question(step.node) && Recorded(step)
    ensures Walked(history + [step])
  {
    var h := history + [step];
    forall i | 0 <= i < |h| ensures Recorded(h[i]) {
      if i < |history| {
        assert h[i] == history[i];
      }
    }
    forall i | 0 < i < |h| ensures Linked(h[i - 1], h[i]) {
      assert h[i - 1] == if i < |history| then history[i - 1] else history[|history| - 1];
      if i < |history| {
        assert h[i] == history[i];
      }
    }
  }

  /** Dropping the last answer leaves a walk, and the dropped answer was
      given where the rest leads. */
  lemma WalkedPrefix(history: seq<Step>)
    requires Walked(history) && history != []
    ensures Walked(history[..|history| - 1])
    ensures Landing(history[..|history| - 1]) == Question(history[|history| - 1].node)
  {
    var n := |history|;
    var h := history[..n - 1];
    forall i | 0 <= i < |h| ensures Recorded(h[i]) {
      assert h[i] == history[i];
    }
    forall i | 0 < i < |h| ensures Linked(h[i - 1], h[i]) {
      assert h[i - 1] == history[i - 1] && h[i] == history[i];
    }
    if n > 1 {
      assert h[n - 2] == history[n - 2];
      assert Linked(history[n - 2], history[n - 1]);
    }
  }

  /** Answering keeps a session consistent. */
  lemma ChoosePreservesValid(s: Session, pick: nat)
    requires Valid(s)
    ensures Valid(Choose(s, pick))
  {
    if s.screen.Question? && pick < |KeyGraph.OptionsOf(s.screen.node)| {
      var node := s.screen.node;
      var o := KeyGraph.OptionsOf(node)[pick];
      var step := Step(node, o.text, IsYes(o.text));
      var r := Choose(s, pick);
      assert r.history == s.history + [step];
      LeadOfOption(node, pick);
      assert Recorded(step);
      WalkedAppend(s.history, step);
      forall k | 0 <= k < |r.catalog|
        ensures r.scores[k] == Tally(r.catalog[k], r.history)
      {
        TallyAppend(s.catalog[k], s.history, step);
      }
      assert Next(step) == Outcome(node, o);
    }
  }

  /** Going back keeps the answers and scores consistent. From a question
      the screen follows them back; from a result the result stays, and
      the screen no longer shows where the remaining answers lead. */
  lemma GoBackPreservesValid(s: Session)
    requires Valid(s)
    ensures Consistent(GoBack(s))
    ensures s.screen.Question? ==> Valid(GoBack(s))
    ensures s.screen.Identified? ==> GoBack(s).screen == s.screen && !Valid(GoBack(s))
  {
    if s.history != [] {
      WalkedPrefix(s.history);
      GoBackTallies(s);
    }
  }

  /** Every button of the screen keeps what it can come to: answering,
      going back (any number of times), and `reset`, which makes the
      session valid again. */
  lemma SoundSession(s: Session, pick: nat)
    requires Sound(s)
    ensures Sound(Choose(s, pick)) && Sound(GoBack(s)) && Valid(Reset(s))
  {
    if s.screen.Question? {
      ChoosePreservesValid(s, pick);
      GoBackPreservesValid(s);
    } else if s.history != [] {
      WalkedPrefix(s.history);
      GoBackSoundTallies(s);
    }
  }

  /** After going back, every score is the tally of the shortened history. */
  lemma GoBackTallies(s: Session)
    requires Valid(s) && s.history != []
    ensures forall k | 0 <= k < |s.catalog| :: GoBack(s).scores[k] == Tally(s.catalog[k], GoBack(s).history)
  {
    GoBackSoundTallies(s);
  }

  lemma GoBackSoundTallies(s: Session)
    requires Consistent(s) && s.history != []
    ensures forall k | 0 <= k < |s.catalog| :: GoBack(s).scores[k] == Tally(s.catalog[k], GoBack(s).history)
  {
    var r := GoBack(s);
    var h := s.history;
    var last := h[|h| - 1];
    assert h == r.history + [last];
    forall k | 0 <= k < |r.catalog|
      ensures r.scores[k] == Tally(r.catalog[k], r.history)
    {
      TallyAppend(s.catalog[k], r.history, last);
    }
  }

  /** Going back right after an answer restores its scores and answers.
      When the answer led to a question the whole session is restored; when
      it led to a result, that result stays on screen. */
  lemma ChooseThenGoBack(s: Session, pick: nat)
    requires Valid(s) && s.screen.Question? && pick < |KeyGraph.OptionsOf(s.screen.node)|
    ensures var back := GoBack(Choose(s, pick));
            back.catalog == s.catalog && back.scores == s.scores && back.history == s.history
    ensures var o := KeyGraph.OptionsOf(s.screen.node)[pick];
            Outcome(s.screen.node, o).Question? ==> GoBack(Choose(s, pick)) == s
    ensures var o := KeyGraph.OptionsOf(s.screen.node)[pick];
            Outcome(s.screen.node, o).Identified? ==> GoBack(Choose(s, pick)).screen == Outcome(s.screen.node, o)
  {
    var r := Choose(s, pick);
    var node := s.screen.node;
    var o := KeyGraph.OptionsOf(node)[pick];
    ApplyRevert(s.catalog, s.scores, node, IsYes(o.text));
    assert r.history[..|r.history| - 1] == s.history;
  }

  /** A catalogue of one species recorded with carapace lines, the trait
      node 1 asks about. */
  const LinedCatalog: seq<Species> := [Species(1, "Munida", map["carapace_lines" := 1])]

  /** As written, going back after two answers shows node 1 again although
      the undone answer was given at node 2, and answering from there gives
      a history that is no walk through the key: node 1 answered twice, and
      a species with carapace lines credited twice for one trait. With the
      intended undo, the same answers leave its score at 1. */
  lemma GoBackAsWrittenLosesPlace()
    ensures var s1 := Choose(Start(LinedCatalog), 0);
            var s2 := Choose(s1, 0);
            var back := GoBackAsWritten(s2);
            s1.screen == Question(2) && back.screen == Question(1)
            && !Valid(back)
            && !Walked(Choose(back, 0).history)
            && Choose(back, 0).scores == [2]
            && Choose(GoBack(s2), 0).scores == [1]
  {
    var s0 := Start(LinedCatalog);
    var s1 := Choose(s0, 0);
    LeadOfOption(1, 0);
    LeadOfOption(2, 0);
    assert Credits(LinedCatalog[0], 1, true);
    assert !Credits(LinedCatalog[0], 2, true);
    assert s1.scores == [1];
    var s2 := Choose(s1, 0);
    assert s2.scores == [1];
    var back := GoBackAsWritten(s2);
    assert back.history == [Step(1, KeyGraph.Option1a, IsYes(KeyGraph.Option1a))];
    assert back.scores == [1];
    assert Landing(back.history) == Question(2);
    var again := Choose(back, 0);
    assert again.history[1].node == 1;
    assert Next(again.history[0]) == Question(2);
    assert again.scores == [2];
    var undone := GoBack(s2);
    assert undone.screen == Question(2) && undone.scores == [1];
    assert Choose(undone, 0).scores == [1];
  }

  // ---------------------------------------------------------------------------
  // Confidence and ranking

  /** `_confidence`: the score as a percentage of the answers given, clamped
      to [0, 100]; 0 before any answer. */
  function Confidence(score: int, steps: nat): (c: real)
    ensures 0.0 <= c <= 100.0
    ensures steps == 0 ==> c == 0.0
    ensures steps > 0 && 0 <= score <= steps ==> c * steps as real == score as real * 100.0
  {
    if steps == 0 then 0.0
    else
      var raw := score as real / steps as real;
      if 0 <= score <= steps then
        Numeric.Fraction(score, steps);
        assert raw * 100.0 * steps as real == raw * steps as real * 100.0;
        Numeric.Clamp(raw * 100.0, 0.0, 100.0)
      else Numeric.Clamp(raw * 100.0, 0.0, 100.0)
  }

  /** The confidence `show_result` displays: at least 80 once an answer has
      been given, 95 when none has. */
  function ResultConfidence(score: int, steps: nat): (c: real)
    ensures 80.0 <= c <= 100.0
    ensures steps == 0 ==> c == 95.0
    ensures steps > 0 ==> c == if Confidence(score, steps) >= 80.0 then Confidence(score, steps) else 80.0
  {
    if steps == 0 then 95.0
    else
      var conf := Confidence(score, steps);
      if conf >= 80.0 then conf else 80.0
  }

  /** A result is only ever shown after an answer, so the 95 branch is
      never taken. */
  lemma IdentifiedAfterAnswer(s: Session)
    requires Valid(s) && s.screen.Identified?
    ensures s.history != []
    ensures 80.0 <= ResultConfidence(0, |s.history|) <= 100.0
  {
  }

  /** A row of `_get_ranked_species`: score, species id and name. */
  datatype Entry = Entry(score: int, id: nat, name: string)

  function EntryScore(e: Entry): real {
    e.score as real
  }

  /** The entries in load order, before sorting. */
  function Entries(catalog: seq<Species>, scores: seq<int>): (es: seq<Entry>)
    requires |scores| == |catalog|
    ensures |es| == |catalog|
    ensures forall k | 0 <= k < |catalog| :: es[k] == Entry(scores[k], catalog[k].id, catalog[k].name)
  {
    seq(|catalog|, k requires 0 <= k < |catalog| => Entry(scores[k], catalog[k].id, catalog[k].name))
  }

  /** `_get_ranked_species`: every species with its score, highest score
      first, species with equal scores in load order. */
  function Ranking(s: Session): (r: seq<Entry>)
    requires |s.scores| == |s.catalog|
    ensures multiset(r) == multiset(Entries(s.catalog, s.scores))
    ensures Sorting.SortedDesc(r, EntryScore)
    ensures forall k: real :: Sorting.WithKey(r, EntryScore, k) == Sorting.WithKey(Entries(s.catalog, s.scores), EntryScore, k)
  {
    var es := Entries(s.catalog, s.scores);
    Sorting.SortDescPermutes(es, EntryScore);
    Sorting.SortDescSorted(es, EntryScore);
    forall k: real ensures Sorting.WithKey(Sorting.SortDesc(es, EntryScore), EntryScore, k) == Sorting.WithKey(es, EntryScore, k) {
      Sorting.SortDescStable(es, EntryScore, k);
    }
    Sorting.SortDesc(es, EntryScore)
  }

  /** Whether a ranked entry is an alternative to `species`: another
      species with a positive score. */
  predicate Rival(e: Entry, species: nat) {
    e.id != species && e.score > 0
  }

  /** The ranked entries other than `species` with a positive score, in
      ranked order. */
  function Others(ranked: seq<Entry>, species: nat): (r: seq<Entry>)
    ensures forall e | e in r :: e in ranked && e.id != species && e.score > 0
    ensures forall e | e in ranked && e.id != species && e.score > 0 :: e in r
    ensures Sequences.Comprehension(r, ranked, e => Rival(e, species), Sequences.Same)
    ensures Sorting.SortedDesc(ranked, EntryScore) ==> Sorting.SortedDesc(r, EntryScore)
    decreases |ranked|
  {
    if ranked == [] then
      Sequences.ComprehensionNil(e => Rival(e, species), Sequences.Same<Entry>);
      []
    else
      var rest := Others(ranked[1..], species);
      OthersStep(ranked, species, rest);
      if Rival(ranked[0], species) then [ranked[0]] + rest else rest
  }

  /** One step of `Others`: the head, when a rival, in front of the rivals
      of the tail. */
  lemma OthersStep(ranked: seq<Entry>, species: nat, rest: seq<Entry>)
    requires ranked != []
    requires forall e | e in rest :: e in ranked[1..] && e.id != species && e.score > 0
    requires forall e | e in ranked[1..] && e.id != species && e.score > 0 :: e in rest
    requires Sequences.Comprehension(rest, ranked[1..], e => Rival(e, species), Sequences.Same)
    requires Sorting.SortedDesc(ranked[1..], EntryScore) ==> Sorting.SortedDesc(rest, EntryScore)
    ensures var r := if Rival(ranked[0], species) then [ranked[0]] + rest else rest;
      && (forall e | e in r :: e in ranked && e.id != species && e.score > 0)
      && (forall e | e in ranked && e.id != species && e.score > 0 :: e in r)
      && Sequences.Comprehension(r, ranked, e => Rival(e, species), Sequences.Same)
      && (Sorting.SortedDesc(ranked, EntryScore) ==> Sorting.SortedDesc(r, EntryScore))
  {
    var r := if Rival(ranked[0], species) then [ranked[0]] + rest else rest;
    assert (forall e | e in r :: e in ranked && e.id != species && e.score > 0)
      && (forall e | e in ranked && e.id != species && e.score > 0 :: e in r) by {
      OthersMembers(ranked, species, rest);
    }
    assert Sequences.Comprehension(r, ranked, e => Rival(e, species), Sequences.Same) by {
      Sequences.SelectStep(ranked, e => Rival(e, species), rest);
    }
    assert Sorting.SortedDesc(ranked, EntryScore) ==> Sorting.SortedDesc(r, EntryScore) by {
      OthersSorted(ranked, species, rest);
    }
  }

  /** One step of `Others` keeps exactly the rivals as members. */
  lemma OthersMembers(ranked: seq<Entry>, species: nat, rest: seq<Entry>)
    requires ranked != []
    requires forall e | e in rest :: e in ranked[1..] && Rival(e, species)
    requires forall e | e in ranked[1..] && Rival(e, species) :: e in rest
    ensures var r := if Rival(ranked[0], species) then [ranked[0]] + rest else rest;
      && (forall e | e in r :: e in ranked && Rival(e, species))
      && (forall e | e in ranked && Rival(e, species) :: e in r)
  {
    assert forall e | e in ranked :: e == ranked[0] || e in ranked[1..];
  }

  /** One step of `Others` keeps a ranked list sorted. */
  lemma OthersSorted(ranked: seq<Entry>, species: nat, rest: seq<Entry>)
    requires ranked != []
    requires forall e | e in rest :: e in ranked[1..]
    requires Sorting.SortedDesc(ranked[1..], EntryScore) ==> Sorting.SortedDesc(rest, EntryScore)
    ensures Sorting.SortedDesc(ranked, EntryScore) ==>
      Sorting.SortedDesc(if Rival(ranked[0], species) then [ranked[0]] + rest else rest, EntryScore)
  {
    if Sorting.SortedDesc(ranked, EntryScore) {
      assert Sorting.SortedDesc(ranked[1..], EntryScore);
      if Rival(ranked[0], species) {
        var r := [ranked[0]] + rest;
        forall j | 1 <= j < |r| ensures EntryScore(ranked[0]) >= EntryScore(r[j]) {
          assert r[j] in ranked[1..];
        }
      }
    }
  }

  /** The alternatives `show_result` lists: the first three ranked species
      other than the identified one that have a positive score. */
  function Alternatives(s: Session, species: nat): (r: seq<Entry>)
    requires |s.scores| == |s.catalog|
    ensures |r| <= 3
    ensures forall e | e in r :: e in Ranking(s) && e.id != species && e.score > 0
    ensures Sorting.SortedDesc(r, EntryScore)
    ensures |r| < 3 ==> forall e | e in Ranking(s) && e.id != species && e.score > 0 :: e in r
    ensures r <= Others(Ranking(s), species)
    ensures |r| == 3 || r == Others(Ranking(s), species)
  {
    var others := Others(Ranking(s), species);
    if |others| <= 3 then others else others[..3]
  }
}
