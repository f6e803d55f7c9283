# Crustacean identifiers — a Dafny model

This project models the identification logic of a teaching repository of expert systems for identifying crustaceans. The repository holds several small identifiers:

- **Porcelain crabs (Porcellanidae)** — rule engine and preprocessing, under `grupo4/`.
  - Forward chaining scores each rule against a specimen record and keeps the rules that reach their threshold, ranked by score.
  - Backward chaining checks one hypothesised species.
  - The model covers both rule sets (eleven Venezuelan species, and two sketch rules), the tolerance test `chequear_rango`, and the preprocessing that computes the two morphometric ratios and the 0/1 and category encodings.
- **Squat lobsters (Munida, Munidopsis)** — dichotomous key, under `proyecto_se/`.
  - The key has thirteen nodes and the species reached from their options.
  - During the walk, answers at the nodes of `NODE_TRAIT_MAP` credit the species whose trait agrees.
  - The model covers going back, the confidence shown, the list of alternatives, and how the species forms turn typed text into column values.
- **Sand crabs (Hippoidea)**, under `src/`.
  - Two static knowledge bases hold the same five-question key with different notes and image folders. Both are `KbFixtures.Hippoidea(dir, notes)`.
  - The two history-based navigators `MotorDeInferencia`.
  - The stand-alone yes/no identifier `SE4.py`.
  - The two knowledge-base editors.
  - The weighted trait matcher `ExpertEngine`.
  - The administrator form's four trait menus and their saved text.
- **The web identifier**, under `Grupo1/`.
  - The eight-question quiz, with its one-hot answer history.
  - The species catalogue: loading, delete, and search.

Python values are modelled as `PyValues.Value` (numbers as exact reals, strings, booleans, NaN, `None`). A record is a map from field names to values. A Python expression that raises is modelled as `None`, so "the exception is caught" is a case of each contract.

The rule-set lemmas are stated for any justification and information texts: `RuleSets.Reglas(just, info)` is the rule list with those texts as parameters, and `RuleSets.ReglasIniciales` instantiates it. The `SE4.py` key is modelled with its yes and no branches as the two options "si" and "no", which are the only keys its buttons send.

Modules follow the repository: `Conditions`, `RuleEngine`, `LegacyEngine`, `RuleSets`, `Preprocess` (porcelain crabs); `KeyGraph`, `KeyScoring`, `SpeciesForm` (squat lobsters); `KbTree`, `KbFixtures`, `Navigators`, `Se4`, `KbEditor`, `ExpertEngine`, `AdminFeatures` (sand crabs); `Quiz`, `Catalogue` (web). `PyValues`, `Numeric`, `Sorting`, `Counting`, `Sequences`, `Text` and `Wrappers` model the runtime operations these modules share. `Sequences` holds the order-preserving filters: JavaScript's `filter` and Python's list comprehensions.

## Model

| member | source | states |
|---|---|---|
| PyValues.Get | grupo4/src/motor_reglas/reglas.py:38 | `dict.get`: a present field gives its stored value, a missing one the default |
| PyValues.ToFloat | grupo4/src/motor_reglas/reglas.py:25-26 | `float()`: a number converts to itself, NaN stays NaN, `None` raises, and a string that converts is the real it spells |
| PyValues.EmptyStringNoFloat | grupo4/src/motor_reglas/reglas.py:24-30 | `float("")` raises, so an empty text is caught as a conversion failure |
| PyValues.ToInt | grupo4/src/motor_reglas/reglas.py:78 | `int()`: a number truncates toward zero, a string must spell an integer, NaN and `None` raise |
| PyValues.LowerText | grupo4/src/motor_reglas/reglas.py:41 | `str(v).lower()` on a text is its lower-case form; every value except a number renders, and a number (whose rendering is not modelled) gives nothing |
| Conditions.ChequearRango | grupo4/src/motor_reglas/reglas.py:13-30 | the tolerance test holds only when both values convert to floats; a NaN on either side never holds; a conversion error gives false instead of raising |
| Conditions.InBandInterval | grupo4/src/motor_reglas/reglas.py:28 | the test holds exactly on the closed band from o·(1−t) to o·(1+t), and the target itself is always inside |
| Conditions.InBandPositive | grupo4/src/motor_reglas/reglas.py:28 | with a positive target and a tolerance below 1, a value that passes is a finite positive number |
| Conditions.InBandWider | grupo4/src/motor_reglas/reglas.py:28 | widening the tolerance never rejects a value that passed |
| Conditions.Read | grupo4/src/motor_reglas/reglas.py:38-42 | a condition reads its field with default 0 for measurements and counts, and "" for texts |
| Conditions.Eval | grupo4/src/motor_reglas/motor.py:65-72 | range and text conditions never raise; an `int()` or `float()` condition raises exactly when its conversion fails |
| Conditions.MissingMeasurementFails | grupo4/src/motor_reglas/reglas.py:38-40 | a measurement absent from the record fails its range condition (the default 0 is outside any positive band) |
| Conditions.MissingTextFails | grupo4/src/motor_reglas/reglas.py:41-42 | an absent text fails an equality with a non-empty word |
| Conditions.StrEqCaseInsensitive | grupo4/src/motor_reglas/reglas.py:41 | a text condition holds exactly when the lowered text equals the word, so upper-casing the record's text changes nothing |
| RuleEngine.Threshold | grupo4/src/motor_reglas/motor.py:74 | a rule without a threshold uses 0.6; otherwise its own threshold |
| RuleEngine.MatchCountIsCardinality | grupo4/src/motor_reglas/motor.py:63-72 | the match counter equals the number of condition positions that hold |
| RuleEngine.MatchCountAppend | grupo4/src/motor_reglas/motor.py:64-72 | the counter is additive over consecutive condition lists |
| RuleEngine.RaisingConditionSkipped | grupo4/src/motor_reglas/motor.py:68-72 | a condition that raises is skipped: the count is the same as if it were not in the list |
| RuleEngine.Score | grupo4/src/motor_reglas/motor.py:73 | the score lies in [0, 1], and a rule with no conditions scores 0 |
| RuleEngine.ScoreScales | grupo4/src/motor_reglas/motor.py:73 | the score is the matched count divided by the number of conditions |
| RuleEngine.CandidateOf | grupo4/src/motor_reglas/motor.py:75-83 | a candidate carries the rule's id, species, texts and link, the exact match count, and the score rounded to two decimals, still in [0, 1] |
| RuleEngine.CandidatesMembers | grupo4/src/motor_reglas/motor.py:61-83 | a rule's candidate is collected exactly when its score reaches its threshold |
| RuleEngine.EvaluarReglasMembers | grupo4/src/motor_reglas/motor.py:34-85 | the ranked list holds exactly the candidates of the accepted rules |
| RuleEngine.EvaluarReglasOrdered | grupo4/src/motor_reglas/motor.py:84 | the list is sorted by rounded score, highest first, and rules with equal scores keep their order |
| RuleEngine.CandidatesCount | grupo4/src/motor_reglas/motor.py:74-84 | the list has one entry per accepted rule |
| RuleEngine.FindRule | grupo4/src/motor_reglas/motor.py:88-106 | the lookup returns the first rule whose stripped, lowered species equals the stripped, lowered name, or nothing when no rule has it |
| RuleEngine.FindRuleIgnoresCase | grupo4/src/motor_reglas/motor.py:102-104 | upper-casing the name finds the same rule |
| RuleEngine.FindRuleIgnoresPadding | grupo4/src/motor_reglas/motor.py:102 | surrounding whitespace around the name finds the same rule |
| RuleEngine.FindRuleByNormalForm | grupo4/src/motor_reglas/motor.py:102-104 | two names with the same normal form find the same rule |
| RuleEngine.Message | grupo4/src/motor_reglas/motor.py:194-205 | the verdict message starts with the verified or the not-verified wording, and names the species in quotes and the threshold |
| RuleEngine.VerificarEspecie | grupo4/src/motor_reglas/motor.py:109-218 | without a rule: not found, not verified, zero counts, and the "no rule" message; with one: met + missing = total conditions, met is the match count, the score is the rule's score, and verified means the score reaches the threshold |
| RuleEngine.BackwardMatchesForward | grupo4/src/motor_reglas/motor.py:175-191 | when species names are distinct, backward chaining verifies a rule's species exactly when forward chaining lists that rule's candidate |
| LegacyEngine.BasicCandidateOf | grupo4/src/rules_engine/engine.py:28-34 | the older candidate carries id, species, justification, the match count and the rounded score |
| LegacyEngine.EnginesAgree | grupo4/src/rules_engine/engine.py:5-36 | the older engine's ranked list is exactly the newer engine's list with the detail and link fields dropped |
| RuleSets.ReglasIniciales | grupo4/src/motor_reglas/reglas.py:225-239 | there are eleven rules |
| RuleSets.ThresholdsBySize | grupo4/src/motor_reglas/reglas.py:32-223 | every rule has four to six conditions; four-condition rules use threshold 0.75, larger ones 0.8 |
| RuleSets.AcceptanceNeeds | grupo4/src/motor_reglas/reglas.py:32-223 | a rule is accepted exactly when at least 3 of 4, 4 of 5 or 5 of 6 conditions hold |
| RuleSets.RangeTargetsPositive | grupo4/src/motor_reglas/reglas.py:38-40 | every range target is positive, so an absent measurement never passes its range condition |
| RuleSets.SpeciesOf | grupo4/src/motor_reglas/reglas.py:36 | the rules name the eleven species in order |
| RuleSets.IdsDistinct | grupo4/src/motor_reglas/reglas.py:35 | the eleven rule ids are pairwise different |
| RuleSets.ReglasInicialesDistinct | grupo4/src/motor_reglas/reglas.py:225-239 | no two rules name the same species after normalisation |
| RuleSets.FixtureChainingAgrees | grupo4/src/motor_reglas/motor.py:109-218 | for each of the eleven species, backward chaining verifies it exactly when forward chaining lists its rule |
| RuleSets.ObtenerEspeciesDisponibles | grupo4/src/motor_reglas/reglas.py:241-248 | the result is strictly ascending and holds exactly the non-empty species names of the rules |
| RuleSets.SketchAcceptance | grupo4/src/rules_engine/rules.py:21 | each sketch rule is accepted exactly when two of its three conditions hold |
| RuleSets.RostroRatioStrict | grupo4/src/rules_engine/rules.py:16 | the rostrum condition holds for a numeric ratio exactly when it exceeds 0.30 |
| RuleSets.RostroRatioText | grupo4/src/rules_engine/rules.py:16 | an empty text in the ratio field makes the condition raise |
| RuleSets.ChelaExclusive | grupo4/src/rules_engine/rules.py:17 | no record satisfies both chela conditions, slender and robust |
| RuleSets.EmptyRecord | grupo4/src/rules_engine/rules.py:11-35 | an empty record matches no condition of rule A and one of rule B, so no sketch rule is accepted |
| Preprocess.Cell | grupo4/src/datos/preprocesar.py:35-38 | a row's cell is its stored value; a missing column reads as NaN |
| Preprocess.ToNumeric | grupo4/src/datos/preprocesar.py:35-38 | `to_numeric(errors='coerce').fillna(0)`: numbers stay, NaN, `None` and texts that do not convert become 0, and a non-zero result of a text is the number it spells |
| Preprocess.Ratio | grupo4/src/datos/preprocesar.py:40-43 | a ratio times a positive denominator gives the numerator; a zero or negative denominator gives 0 |
| Preprocess.WithRatios | grupo4/src/datos/preprocesar.py:34-43 | the step fails exactly when a length column is missing; otherwise it adds the two ratio columns and keeps the rows one to one |
| Preprocess.CalcularRatios | grupo4/src/datos/preprocesar.py:34-43 | the Spanish copy: fails exactly without its length columns, otherwise every row meets the ratio specification |
| Preprocess.CalculateRatios | grupo4/src/data/preprocess.py:14-23 | the English copy, with the same promise on its own column names |
| Preprocess.WithRatiosIdempotent | grupo4/src/datos/preprocesar.py:34-43 | computing the ratios twice gives the frame computed once |
| Preprocess.DocExample | grupo4/src/datos/preprocesar.py:28-32 | carapace 10, rostrum 3, chela 12 by 4 give ratios 0.3 and 3.0, in both copies |
| Preprocess.FillNa | grupo4/src/caracteristicas/ingenieria.py:37-38 | NaN and `None` become the default; any other value stays |
| Preprocess.BinaryCell | grupo4/src/caracteristicas/ingenieria.py:27-35 | a missing binary column gives 0; a present cell is filled with 0 and converted by `int()` |
| Preprocess.PrepareRowMeets | grupo4/src/caracteristicas/ingenieria.py:25-51 | a row fails exactly when one of its binary cells cannot be converted; otherwise it meets the preparation specification |
| Preprocess.Prepare | grupo4/src/features/engineering.py:11-30 | the preparation fails exactly when one of the two category or two ratio columns is missing, or when some row's binary cell cannot be converted by `int()`; otherwise it adds the outputs, keeps the rows one to one and every row meets the preparation specification |
| Preprocess.PrepararFeatures | grupo4/src/features/engineering.py:11-30 | the English feature preparation fails exactly when one of its category or ratio columns is missing or some row's binary cell cannot be converted; otherwise every row meets the preparation specification, one to one |
| Preprocess.PrepareIdempotent | grupo4/src/caracteristicas/ingenieria.py:25-51 | preparing an already prepared frame changes nothing |
| Preprocess.BinaryFlags | grupo4/src/caracteristicas/ingenieria.py:27-35 | NaN and `None` give 0, 0 and 1 stay, `True` gives 1, and an empty text makes the step raise |
| Preprocess.Encode | grupo4/src/caracteristicas/ingenieria.py:42-48 | the encoding is 1 exactly when the lowered text equals the category, and 0 otherwise |
| Preprocess.PrepararCaracteristicas | grupo4/src/caracteristicas/ingenieria.py:25-51 | the Spanish preparation fails exactly when one of its category or ratio columns is missing or some row's binary cell cannot be converted; otherwise it adds the outputs and both encodings to every row, one to one |
| Preprocess.PreparedSetasNeverRaise | grupo4/src/motor_reglas/reglas.py:78 | after preparation, the bristle condition `int(presencia_setas) == k` never raises |
| Preprocess.EncodedOrnamentMatchesRule | grupo4/src/caracteristicas/ingenieria.py:42-48 | the ornament encoding is 1 exactly when the rules' "rugosa" text condition holds on the prepared row |
| Preprocess.MissingCategoryEncodesZero | grupo4/src/caracteristicas/ingenieria.py:37-48 | a missing ornament is filled as "unknown" and encodes to 0 |
| Numeric.RoundHalfEven | grupo4/src/motor_reglas/motor.py:78 | the rounded integer is within one half of x, and whole numbers are unchanged |
| Numeric.Round2 | grupo4/src/motor_reglas/motor.py:78 | `round(x, 2)` is within 0.005 of x |
| Numeric.Round2Monotone | grupo4/src/motor_reglas/motor.py:78-84 | rounding keeps order, so ranking by the rounded score never inverts two scores |
| Numeric.Round2Bounds | grupo4/src/motor_reglas/motor.py:78 | a value in [0, 1] rounds to a value in [0, 1] |
| Numeric.Trunc | grupo4/src/motor_reglas/reglas.py:78 | `int()` of a float truncates toward zero |
| Numeric.Clamp | proyecto_se/ap.py:1024 | `min(hi, max(lo, x))` lies in [lo, hi], equals x inside, and equals the violated bound outside |
| Numeric.Percent | grupo4/src/motor_reglas/motor.py:197 | the `:.0%` format is an integer followed by "%", and that integer is 100·x rounded half to even |
| Sorting.SortDescPermutes | grupo4/src/motor_reglas/motor.py:84 | the descending sort is a permutation of its input |
| Sorting.SortDescSorted | grupo4/src/motor_reglas/motor.py:84 | the result is ordered by key, largest first |
| Sorting.SortDescStable | grupo4/src/motor_reglas/motor.py:84 | elements with the same key keep their original relative order |
| Sorting.SortedSet | grupo4/src/motor_reglas/reglas.py:248 | `sorted(set(names))` is strictly ascending and holds exactly the names given |
| KeyGraph.KeyNodesExact | proyecto_se/rebuild_key.py:28-42 | the key has exactly the thirteen nodes 1 to 13 |
| KeyGraph.OptionsWellFormed | proyecto_se/rebuild_key.py:45-98 | every option of a node leads to exactly one of a node or a species; a number has options exactly when it is a node; node 8 has three options and the others two |
| KeyGraph.Openings | proyecto_se/rebuild_key.py:45-98 | the options of every node except 8 open with "SÍ" and "NO"; node 8 offers three options starting with U, M and E |
| KeyGraph.FirstCharsDistinct | proyecto_se/rebuild_key.py:45-98 | the options of one node differ in their first character, so an answer text names one option |
| KeyGraph.LoadNodeOptions | proyecto_se/ap.py:878-884 | selecting the option rows of node n from the 27-row table gives exactly that node's options, in order |
| KeyGraph.RankDecreases | proyecto_se/rebuild_key.py:45-98 | every option leading to a node leads to a node of lower rank, so the key has no cycle |
| KeyGraph.WalkFromRootEnds | proyecto_se/rebuild_key.py:45-98 | every walk of five or more answers from node 1 ends at a species or at an answer the node does not offer |
| KeyGraph.AllReachable | proyecto_se/rebuild_key.py:45-98 | each of the thirteen nodes is reached from node 1 by some sequence of answers |
| KeyGraph.SpeciesReached | proyecto_se/rebuild_key.py:14-26 | every species of the table is the result of some option |
| KeyGraph.LeavesAreKnownSpecies | proyecto_se/rebuild_key.py:14-26 | every species an option leads to is one of the table's species |
| KeyScoring.ApplyScoring | proyecto_se/ap.py:993-1005 | a node without a trait changes no score; otherwise each species' score moves by the step exactly when its recorded trait agrees with the answer |
| KeyScoring.ApplyRevert | proyecto_se/ap.py:993-1005 | reverting a scored answer restores the previous scores |
| KeyScoring.IsYesByPrefix | proyecto_se/ap.py:937 | an answer counts as yes exactly when it is at least two characters long and, upper-cased, starts with "SÍ" or "SI" |
| KeyScoring.SinCountsAsYes | proyecto_se/ap.py:937 | the prefix test also counts "Sin espinas" as yes |
| KeyScoring.TraitNodesAnswerable | proyecto_se/ap.py:760-767 | every node of the trait map has two options: the first counts as yes, the second as no |
| KeyScoring.Choose | proyecto_se/ap.py:935-948 | an answer to an offered option appends one step to the history; any other choice leaves the session unchanged |
| KeyScoring.GoBack | proyecto_se/ap.py:950-963 | going back with no history changes nothing; otherwise it drops the last step and, from a question, shows again the node where that step was taken; from a result the result stays on screen, because `load_node` fails on the option frame `show_result` destroyed (ap.py:894) |
| KeyScoring.GoBackAsWritten | proyecto_se/ap.py:950-963 | going back with no history changes nothing; otherwise it drops the last step, and from a result the result stays on screen |
| KeyScoring.Start | proyecto_se/ap.py:878-884 | a new session is valid, shows node 1, has no history and scores every species 0 |
| KeyScoring.Reset | proyecto_se/ap.py:965-971 | the reset session is valid, keeps the catalogue, has no history and shows node 1 |
| KeyScoring.ScoresBounded | proyecto_se/ap.py:993-1005 | in a valid session every score lies between 0 and the number of answers given |
| KeyScoring.ChoosePreservesValid | proyecto_se/ap.py:935-948 | answering keeps the session valid: scores are the tallies of the history, and the screen is where the history leads |
| KeyScoring.GoBackPreservesValid | proyecto_se/ap.py:950-963 | going back (corrected) keeps the scores the tallies of a walk through the key; from a question the session stays valid, while from a result the result stays and the session is no longer valid |
| KeyScoring.SoundSession | proyecto_se/ap.py:935-986 | answering and going back keep the scores consistent with the answers and a question on screen only where the answers lead; `reset` makes the session valid again |
| KeyScoring.ChooseThenGoBack | proyecto_se/ap.py:950-963 | going back right after an answer restores its scores and history; the whole session when the answer led to a question, while a result it led to stays on screen |
| KeyScoring.Confidence | proyecto_se/ap.py:1017-1024 | the confidence lies in [0, 100], is 0 before any answer, and is score/steps·100 when the score is at most the steps |
| KeyScoring.ResultConfidence | proyecto_se/ap.py:1063-1066 | the confidence shown with a result is at least 80; it is 95 with no history, and otherwise the computed confidence raised to 80 |
| KeyScoring.IdentifiedAfterAnswer | proyecto_se/ap.py:1063-1066 | a valid session showing a species has at least one answer, so its result confidence lies in [80, 100] |
| KeyScoring.Ranking | proyecto_se/ap.py:1007-1015 | the ranked rows are a permutation of the (score, id, name) rows, ordered by score, highest first, with equal scores in catalogue order |
| KeyScoring.Others | proyecto_se/ap.py:1138 | the qualifying rows are exactly the ranked rows of another species with a positive score, in their ranked order |
| KeyScoring.Alternatives | proyecto_se/ap.py:1137-1144 | the alternatives are the first three qualifying rows in ranked order, or all of them when there are fewer; they are other species with a positive score, sorted by score |
| SpeciesForm.RegisterFlag | proyecto_se/ap.py:410-418 | registration stores 1 for "true", "1" or "sí" in any case, 0 for "false", "0" or "no", and an empty value for anything else |
| SpeciesForm.UpdateFlag | proyecto_se/ap.py:676-679 | as written, the update stores 1 exactly for "true" in any case and 0 for everything else |
| SpeciesForm.UpdateFlagCorrected | proyecto_se/ap.py:676-679 | the corrected update stores an empty value for an empty box and otherwise behaves as written |
| SpeciesForm.Prefill | proyecto_se/ap.py:630-637 | the edit form shows "" for an unknown trait, and "true" or "false" otherwise |
| SpeciesForm.UpdateLosesUnknown | proyecto_se/ap.py:630-679 | saving an untouched edit form turns an unknown trait into 0 |
| SpeciesForm.UpdateCorrectedKeepsTraits | proyecto_se/ap.py:630-679 | with the correction, saving an untouched form keeps every 0, 1 or unknown trait |
| SpeciesForm.RegisterReadsPrefill | proyecto_se/ap.py:410-418 | the registration parser reads back every prefilled value as the stored trait |
| SpeciesForm.TextCell | proyecto_se/ap.py:421 | an empty box becomes an empty value; any other text is kept |
| SpeciesForm.FlagOf | proyecto_se/ap.py:676-679 | the update form stores only 0 or 1, and an empty box becomes 0; registration and the corrected update keep an empty box empty |
| SpeciesForm.Collect | proyecto_se/ap.py:405-421 | every box gives one column: text boxes their stripped text, flag boxes the flag parsed by the form's own rule |
| SpeciesForm.Submit | proyecto_se/ap.py:426-432 | the save is refused for a missing name, then for a missing genus, on either form; otherwise the columns collected by that form are saved |
| SpeciesForm.EditSavesUnknownAsNo | proyecto_se/ap.py:667-690 | saving the edit form as written stores an unknown trait's empty box as 0, while the corrected update saves the same form with the trait unknown |
| KbTree.Lookup | src/base_de_conocimiento.py:1-82 | looking up an option label finds its node when the label is present, and nothing otherwise |
| KbTree.PutLookup | src/ui/pages/editar_kb.py:109 | setting an option keeps labels unique and makes the label lead to the new node |
| KbTree.Put | src/ui/pages/editar_kb.py:109 | a dictionary assignment keeps the other options, replaces a present label in place, and appends a new one at the end |
| KbTree.OutcomesReached | src/base_de_conocimiento.py:1-82 | every (path, species) outcome listed for a tree is reached by following that path of labels |
| KbTree.FlatAppend | src/editar_kb.py:6-14 | the depth-first listing of options is additive over consecutive option lists |
| KbFixtures.HippoideaShaped | src/data/base_de_conocimiento.py:1-76 | every node of the key either asks a question and has options, or names a result and has none |
| KbFixtures.HippoideaAnnotated | src/base_de_conocimiento.py:1-82 | the root has an image and no note; notes and images are carried down every branch |
| KbFixtures.HippoideaAlike | src/base_de_conocimiento.py:1-82 | the two knowledge bases share questions, option labels and results, whatever their notes and image folders |
| KbFixtures.HippoideaOutcomes | src/data/base_de_conocimiento.py:1-76 | the key leads to exactly seven species, each by its listed path of answers |
| KbFixtures.SpeciesDistinct | src/data/base_de_conocimiento.py:1-76 | the seven species of the key are pairwise different |
| Navigators.Open | src/motor_de_inferencia.py:3-6 | a missing history starts as the root alone; a kept one is reused |
| Navigators.Current | src/motor_de_inferencia.py:8-9 | the current node is one of the visited nodes |
| Navigators.Advance | src/motor_de_inferencia.py:11-14 | an option offered by the current node appends its child; any other option changes nothing |
| Navigators.Back | src/motor_de_inferencia.py:16-18 | going back drops the last node unless only the root is left, and always keeps the root |
| Navigators.Restart | src/motor_de_inferencia.py:20-21 | restarting leaves the root alone in the history |
| Navigators.AdvanceChained | src/motor_de_inferencia.py:11-14 | advancing keeps the history a chain of parent and child starting at the root |
| Navigators.BackChained | src/motor_de_inferencia.py:16-18 | going back keeps the history a chain from the root |
| Navigators.AdvanceThenBack | src/motor_de_inferencia.py:11-18 | going back after any option returns to the history before it |
| Navigators.BackThenAdvance | src/motor_de_inferencia.py:11-18 | after going back, choosing the option just undone restores the history |
| Navigators.CoreCurrent | src/core/motor_de_inferencia.py:8-11 | with an empty history the current node is the root; otherwise it is a visited node |
| Navigators.CoreAdvance | src/core/motor_de_inferencia.py:13-16 | an offered option appends its child, any other changes nothing |
| Navigators.CoreBack | src/core/motor_de_inferencia.py:18-20 | going back drops the last node, and does nothing on an empty history |
| Navigators.CoreIsRooted | src/core/motor_de_inferencia.py:1-23 | the second navigator is the first one with the root left out of the history: current node, advance, back and restart all agree |
| Navigators.CoreAdvanceThenBack | src/core/motor_de_inferencia.py:13-20 | going back after any option returns to the history before it |
| Navigators.ReplayFollows | src/motor_de_inferencia.py:11-14 | answering along a path of the tree ends at the node that path leads to |
| Se4.Se4Dichotomous | src/SE4.py:3-53 | every question of the yes/no key has exactly the options "si" and "no", and every other node is a result |
| Se4.Se4Noted | src/SE4.py:3-53 | the root has no note and notes are carried down every branch |
| Se4.Se4Outcomes | src/SE4.py:3-53 | the key leads to the same seven species as the static knowledge bases, each by its listed path of yes/no answers |
| Se4.PathsReachSpecies | src/SE4.py:66-69 | answering along each listed path from a fresh history ends at that path's species |
| Se4.Key | src/SE4.py:96-104 | the buttons send "si" for yes and "no" for no |
| Se4.Offered | src/SE4.py:85-107 | the answer buttons appear exactly at a question; restart appears exactly at a result; back appears only at a question with history beyond the root |
| Se4.ControlsWork | src/SE4.py:85-107 | every answer button moves one node down, back moves one node up, and at a result no answer changes the history |
| KbEditor.SplitJoin | src/editar_kb.py:23 | splitting joined single-line texts into lines gives the lines back |
| KbEditor.LineOptions | src/editar_kb.py:22-24 | the options built from typed lines are the stripped lines, with unique labels and empty nodes, blank lines included |
| KbEditor.RootOptions | src/editar_kb.py:52 | the root's options are the stripped non-blank lines, with unique labels and empty nodes |
| KbEditor.BlankLineOption | src/editar_kb.py:22-52 | a blank typed line becomes an option "" under an option, but not under the root |
| KbEditor.EditSpec | src/editar_kb.py:6-28 | the depth-first edit finds the first matching option in pre-order, changes that one only, and leaves every other option as it was |
| KbEditor.Asignar | src/editar_kb.py:6-14 | the result is assigned exactly when some option has the label; a miss leaves the tree as it was; a hit changes the first matching option only |
| KbEditor.AsignarKeepsQuestion | src/editar_kb.py:10 | assigning a result keeps the node's question and options |
| KbEditor.Crear | src/editar_kb.py:17-28 | the question is created exactly when some option has the label; a miss leaves the tree as it was; a hit reshapes the first matching option only |
| KbEditor.CrearDiscardsSubtree | src/editar_kb.py:21-24 | creating a question under an option replaces whatever options that node had with the new blank options |
| KbEditor.RootQuestion | src/editar_kb.py:51-57 | the new root holds only the question and image, and its options are the non-blank stripped lines |
| KbEditor.Preguntas | src/ui/pages/editar_kb.py:57-64 | the catalogue lists every question of the tree, and maps each to the option labels of the last node, in pre-order, that asks it |
| KbEditor.NewStructure | src/ui/pages/editar_kb.py:97-102 | the new node holds the question, note and image, and its options are the non-empty entries, with empty nodes |
| KbEditor.Insertar | src/ui/pages/editar_kb.py:104-113 | the root choice replaces the whole tree; a root asking the parent question gets the option attached (and raises when it has no "opciones" key); otherwise the first node below, in pre-order, asking it gets the option; with no such node nothing changes |
| KbEditor.PutOptionAttaches | src/ui/pages/editar_kb.py:109 | after the insertion the chosen option leads to the new node, and labels stay unique |
| KbEditor.Commit | src/ui/pages/editar_kb.py:96-115 | nothing is inserted without a question text or without option entries |
| KbEditor.BlankEntriesGiveNoOptions | src/ui/pages/editar_kb.py:101 | a node whose option entries are all blank gets no options |
| ExpertEngine.StoredFeatures | src/models/expert_engine.py:23-27 | a decoded JSON list is used as it is; otherwise the words are the maximal runs of non-space characters of the lowered text with commas as spaces, in order |
| Text.WordsSplits | src/models/expert_engine.py:27 | `split()` cuts a text into its maximal runs of non-space characters: the words, separated by non-empty whitespace, spell the text |
| Text.SplitsUnique | src/models/expert_engine.py:27 | a text has only one such cutting into words, so the words are determined by the text |
| ExpertEngine.RuleFeatures | src/models/expert_engine.py:62 | each stored trait is compared stripped and lowered |
| ExpertEngine.Observed | src/models/expert_engine.py:56 | the selected traits are the lowered items other than "no observado", all of them, in the order of the items, duplicates kept |
| ExpertEngine.Normalise | src/models/expert_engine.py:53-56 | a typed text becomes its words, split at whitespace and commas, each lowered and clean; a selection becomes its observed traits |
| ExpertEngine.NormaliseIsSplit | src/models/expert_engine.py:53-54 | any cutting of the typed text, commas as spaces, into words gives the normalised traits once lowered |
| ExpertEngine.AnyRelated | src/models/expert_engine.py:74-79 | the partial-match loop succeeds exactly when some rule trait contains the user trait or is contained in it |
| ExpertEngine.SynonymFound | src/models/expert_engine.py:82-87 | the thesaurus loop succeeds exactly when some synonym occurs inside some rule trait |
| ExpertEngine.Contribution | src/models/expert_engine.py:64-87 | a trait adds its weight for an exact or partial match, 0.7 of it for a thesaurus match only, and nothing otherwise |
| ExpertEngine.ContributionRange | src/models/expert_engine.py:64-87 | each contribution lies in [0, 1.5], and is positive exactly when the trait supports the rule |
| ExpertEngine.Score | src/models/expert_engine.py:60-89 | a rule's score lies between 0 and 1.5 per trait, and is positive exactly when some trait supports the rule |
| ExpertEngine.ScoreOfPartials | src/models/expert_engine.py:68-79 | when every trait finds a partial match, the score reaches at least the number of traits |
| ExpertEngine.Probability | src/models/expert_engine.py:91-98 | the reported probability lies in [0, 100], is 100 once the score reaches the number of traits, and is positive when the raw percentage reaches 0.01 |
| ExpertEngine.Candidates | src/models/expert_engine.py:89-99 | the reports are those of exactly the rules with a positive score, one per such rule, in rule order |
| ExpertEngine.Identify | src/models/expert_engine.py:37-101 | an empty trait list reports nothing; otherwise the reports are sorted by probability, highest first |
| ExpertEngine.IdentifyPermutes | src/models/expert_engine.py:101 | the ranking only reorders the reported species |
| ExpertEngine.IdentifyReports | src/models/expert_engine.py:89-101 | a report appears exactly when its rule scores above zero |
| ExpertEngine.IdentifyProbabilities | src/models/expert_engine.py:91-98 | every reported probability lies in [0, 100] |
| ExpertEngine.IdentifyStable | src/models/expert_engine.py:101 | species with equal probability keep the order of the rules |
| ExpertEngine.BlankTraitMatchesAll | src/models/expert_engine.py:76 | a blank stored trait is contained in every user trait, so its rule is reported at 100 |
| ExpertEngine.ExactIsPartial | src/models/expert_engine.py:70-79 | an exact match is also a partial one, so the exact test never changes the score |
| ExpertEngine.ThesaurusExample | src/models/expert_engine.py:45-87 | "ovalado" against a rule listing only "subcilindrico" has no exact or partial match and scores 0.7 through the thesaurus |
| ExpertEngine.HeavyThesaurusExample | src/models/expert_engine.py:66-85 | "rugoso" against a rule listing "granulado" scores 1.5 · 0.7 = 1.05 |
| AdminFeatures.Prefill | src/views/admin_page.py:218-235 | an absent or empty stored text gives the default menus; otherwise the menus are read from the lowered text |
| AdminFeatures.Save | src/views/admin_page.py:261-266 | the save goes through exactly when genus and species are filled, and the saved text is non-empty and reads back as the selection |
| AdminFeatures.RoundTrip | src/views/admin_page.py:218-266 | reading a saved trait text back restores all four menus |
| AdminFeatures.FormatInjective | src/views/admin_page.py:266 | different selections are saved as different texts |
| AdminFeatures.ShapeRoundTrip | src/views/admin_page.py:219-222 | the shape menu is read back from the saved text |
| AdminFeatures.SurfaceRoundTrip | src/views/admin_page.py:224-227 | the surface menu is read back from the saved text |
| AdminFeatures.DactylRoundTrip | src/views/admin_page.py:229-231 | the dactyl menu is read back from the saved text |
| AdminFeatures.SizeRoundTrip | src/views/admin_page.py:233-235 | the size menu is read back from the saved text |
| Quiz.EncodePairs | Grupo1/src/client/src/App.tsx:179-184 | answer i owns history cells 2i and 2i+1: 1 then 0 for yes, 0 then 1 for no |
| Quiz.EncodeInjective | Grupo1/src/client/src/App.tsx:179-184 | different answer runs give different histories |
| Quiz.CorrectFull | Grupo1/src/client/src/App.tsx:178-182 | the score is full exactly when every answer equals its question's expected answer |
| Quiz.Answer | Grupo1/src/client/src/App.tsx:177-195 | an answer keeps the quiz state valid, records the answer and its one-hot pair, adds 1 to the score when correct, and moves on; the last answer instead sends the history and shows the reply |
| Quiz.ResetIsFresh | Grupo1/src/client/src/App.tsx:197-204 | a reset gives a valid, empty quiz, keeps the previous reply, and resetting twice is resetting once |
| Quiz.Play | Grupo1/src/client/src/App.tsx:177-195 | after any run of answers the state is valid and holds them; the history is sent exactly when all questions are answered, and it is their encoding |
| Quiz.ScoreBound | Grupo1/src/client/src/App.tsx:178-182 | the score never exceeds the answers given, and equals their number exactly when every answer was right |
| Quiz.FullQuizFillsColumns | Grupo1/src/client/src/App.tsx:110-195 | a full quiz sends sixteen values, one per trait column of the classifier, and shows the reply |
| Catalogue.ToSpecies | Grupo1/src/client/src/App.tsx:51-64 | a record keeps its key as id and falls back to the key with spaces for names, "No especificado" for habitat, "N/A" for size |
| Catalogue.ImagePrecedence | Grupo1/src/client/src/App.tsx:52 | a non-empty reference image wins, then the entry's own image, then the default; the image is never empty |
| Catalogue.Load | Grupo1/src/client/src/App.tsx:51-67 | the catalogue's entries become records one to one, in order |
| Catalogue.Delete | Grupo1/src/client/src/App.tsx:101-102 | a refused delete changes nothing; an accepted one keeps, in order, exactly the records with another id |
| Catalogue.DeleteAbsent | Grupo1/src/client/src/App.tsx:101-102 | deleting an id that no record has changes nothing |
| Catalogue.Search | Grupo1/src/client/src/components/SpeciesList.tsx:16-20 | the search keeps, in order, exactly the records whose lowered name, scientific name or habitat contains the lowered term |
| Catalogue.EmptyTermKeepsAll | Grupo1/src/client/src/components/SpeciesList.tsx:16-20 | an empty term shows every record |
| Catalogue.SearchIgnoresCase | Grupo1/src/client/src/components/SpeciesList.tsx:16-20 | the letter case of the term does not change the result |
| Catalogue.Counts | Grupo1/src/client/src/components/SpeciesList.tsx:32 | the filter never shows more records than the header counts, and an empty term shows none only when the catalogue is empty |

## Left out

- Persistence is not modelled: the SQLite database, the JSON and CSV files, and the synchronisation scripts. Their reads are parameters (species rows, catalogue entries, decoded JSON), and their writes are the returned values.
- GUI rendering is not modelled: Tkinter/CustomTkinter widgets, Streamlit pages, React components and the images. A button press is the transition it triggers, and the Streamlit session state is an explicit value.
- The machine-learning classifiers, synthetic data generation and any randomness are not modelled. The quiz's server reply is a parameter.
- Floating point: numbers are exact reals, so binary rounding effects are absent. `round(x, 2)` is modelled as exact round-half-to-even, which agrees with Python except where the binary representation of x moves it across a half.
- `str()` of a number is not rendered. `PyValues.LowerText` gives no text for a number, so a text condition on a numeric field evaluates as not holding instead of comparing the rendered digits.
- `SE4.py`'s `procesar` also accepts any other key of the current node, such as "pregunta" or "nota". Only the "si"/"no" keys its buttons send are modelled.
- `load_node` reports database errors in a message box. That branch is not modelled, because the key table is the fixed one written by `rebuild_key.py`.
- `show_result` shows the message box "Especie ID … no encontrada" and leaves the left panel empty when the species a leaf names is not among the loaded species (ap.py:1059-1061), as after `delete_species` removes it (ap.py:277-282). The model does not check the id against the catalogue: `KeyScoring.Identified` stands for that empty panel too.
- The long descriptive texts of the rules, notes and species are parameters or shortened. The lemmas hold for any such texts.
- The tests under `grupo4/src/test/` refer to an older API and are not modelled, apart from the ratio example they share with the docstring.
- `sync_csv.py`'s sixteen columns are used only as the length of the quiz history.
- ExpertEngine.Probability: states the bounds, the cap at 100 and positivity, not the exact two-decimal value.
- KeyScoring.GoBackAsWritten: does not state which node it shows after going back from a question. `KeyScoring.GoBackAsWrittenLosesPlace` shows that behaviour on an example.
- KeyScoring.GoBackPreservesValid: promises a valid session only after going back from a question. From a result the source leaves the result on screen while the answers shrink, and the lemma proves that state is not valid.
- KbEditor.Insertar: the parent question's option comes from a select box, which gives `None` when that question has an empty "opciones" (src/ui/pages/editar_kb.py:71); line 109 then stores the new structure under the key `None`. The model's option labels are strings, so neither it nor `KbEditor.Commit` models that case.
- PyValues.LowerText: gives no value for a number, because number rendering is not modelled.
- Text.ParseReal: accepts only plain decimal literals. Python's `float()` also reads exponents ("1e1"), "inf" and "infinity", a signed "nan", and digit groups with underscores ("1_0"); the model rejects them.
- PyValues.ToFloat: rests on `Text.ParseReal`, so it rejects exponents, infinities and underscores that `float()` accepts; only an unsigned "nan" gives NaN.
- Preprocess.ToNumeric: turns the texts `Text.ParseReal` rejects into 0, while `pd.to_numeric` reads exponents and "inf".
- Text.ParseInt: accepts only a sign and decimal digits. Python's `int()` also reads underscores between digits ("1_000").
- PyValues.ToInt: rests on `Text.ParseInt`, so it rejects "1_000", which `int()` accepts.
- Text.Lower: maps each character to one character over the Latin-1 letters. Python's and JavaScript's case maps cover all of Unicode and may change the length ("ß" upper-cases to "SS"). Text.Upper likewise maps only Latin-1 letters, and Text.Strip removes only the Latin-1 whitespace characters, not other Unicode spaces, and RuleEngine.FindRuleIgnoresCase and Catalogue.SearchIgnoresCase hold for this case map.
- KeyGraph.WalkFromRootEnds: is stated for walks of at least five answers, the key's depth. A shorter walk may still be at a node.

## Findings

| source | as written | input that shows it | evidently intended | confidence | as-written member | corrected member |
|---|---|---|---|---|---|---|
| proyecto_se/ap.py:950-963 | `go_back` pops the last step and then shows the node of the new last step, which is the node before the one where the undone answer was given | with a one-species catalogue whose carapace-lines trait is 1, answer the first option at node 1, then the first option at node 2, then go back: node 1 is shown instead of node 2, and answering the first option again scores node 1's trait twice, giving 2 where the corrected undo followed by the same answer gives 1 | show again the node where the undone answer was given, the popped step's node | not executed | KeyScoring.GoBackAsWrittenLosesPlace | KeyScoring.ChooseThenGoBack |
| proyecto_se/ap.py:676-679 | the update form turns every flag box other than "true" into 0, including a box left empty because the trait is unknown | edit a species whose trait is NULL and save without touching it: the trait is stored as 0, which the key's scoring reads as NO | keep an empty box as NULL, as registration does | not executed | SpeciesForm.EditSavesUnknownAsNo | SpeciesForm.UpdateCorrectedKeepsTraits |
