/** The stand-alone yes/no identifier of `src/SE4.py`: its own version of
    the Hippoidea key, whose questions are answered "si" or "no", and the
    buttons its page offers. The yes and no branches of a node are kept
    as its two options, labelled "si" and "no". */
module Se4 {
  import opened Wrappers
  import opened KbTree
  import opened Navigators
  import KbFixtures

  // The questions.
  const TelsonQuestion := "¿El telson es largo (al menos la mitad de la longitud del caparazón)?"
  const HippidaeQuestion := "¿El flagelo antenal es más corto que las anténulas?"
  const EmeritaQuestion := "¿Los dáctilos del primer par de pereiópodos son redondeados?"
  const AlbuneidaeQuestion := "¿El margen anterior del caparazón es claramente aserrado?"
  const AlbuneaQuestion := "¿El dáctilo del cuarto par presenta una depresión brusca en su margen posterior?"
  const LepidopaQuestion := "¿Los ojos y pedúnculos oculares son subovalados?"

  // The notes shown on arriving at each node below the root.
  const HippidaeNote := "Esta característica define a la familia Hippidae."
  const EmeritaNote := "Género Emerita. La identificación en este punto es crítica por variabilidad morfológica."
  const AlbuneidaeNote := "Un telson corto (mucho menos de la mitad del caparazón) define a Albuneidae."
  const AlbuneaNote := "Género Albunea. Poseen ojos subtriangulares."
  const LepidopaNote := "Género Lepidopa. El margen anterior es liso."
  const HippaNote := "Género Hippa. H. testudinaria es la única especie de este género en el Caribe."
  const BrasiliensisNote := "Históricamente identificada como E. brasiliensis, aunque estudios recientes sugieren posibles errores de identificación en Venezuela."
  const PortoricensisNote := "La forma aguda del dáctilo es diagnóstica, pero variable en ejemplares jóvenes."
  const CatherinaeNote := "Representa una nueva adición a la carcinofauna de Venezuela."
  const ParetiiNote := "Depresión gradual. Podría confundirse con A. gibbesii (talón del 3er pereiópodo redondeado), aún no hallada en el país."
  const VenustaNote := "Para confirmar, el talón del dáctilo del 2do pereiópodo debe ser agudo (en L. luciae es redondeado)."
  const RichmondiNote := "Los ojos en esta especie se describen como subcuadrados o subrectangulares."

  /** The wording of the key: its questions and the notes of every node
      below the root. */
  datatype Wording = Wording(
    telson: string, hippidae: string, emerita: string, albuneidae: string, albunea: string, lepidopa: string,
    hippidaeNote: string, hippaNote: string, emeritaNote: string, brasiliensisNote: string,
    portoricensisNote: string, albuneidaeNote: string, albuneaNote: string, catherinaeNote: string,
    paretiiNote: string, lepidopaNote: string, venustaNote: string, richmondiNote: string)

  /** The wording of `src/SE4.py`. */
  const Se4Wording := Wording(
    TelsonQuestion, HippidaeQuestion, EmeritaQuestion, AlbuneidaeQuestion, AlbuneaQuestion, LepidopaQuestion,
    HippidaeNote, HippaNote, EmeritaNote, BrasiliensisNote, PortoricensisNote, AlbuneidaeNote,
    AlbuneaNote, CatherinaeNote, ParetiiNote, LepidopaNote, VenustaNote, RichmondiNote)

  /** A node asking `question`, with its yes and no branches. */
  function Fork(question: string, yes: Node, no: Node): Node {
    Node(map["pregunta" := question], true, [Entry("si", yes), Entry("no", no)])
  }

  /** A node with the note shown on arriving at it. */
  function Noted(nota: string, n: Node): Node {
    n.(text := n.text["nota" := nota])
  }

  /** A result node. */
  function Found(nota: string, result: string): Node {
    Node(map["nota" := nota, "resultado" := result], false, [])
  }

  /** The Emerita question. */
  function EmeritaFork(w: Wording): Node {
    Noted(w.emeritaNote, Fork(w.emerita,
      Found(w.brasiliensisNote, KbFixtures.EmeritaBrasiliensis),
      Found(w.portoricensisNote, KbFixtures.EmeritaPortoricensis)))
  }

  /** The Hippidae question. */
  function HippidaeFork(w: Wording): Node {
    Noted(w.hippidaeNote, Fork(w.hippidae, Found(w.hippaNote, KbFixtures.HippaTestudinaria), EmeritaFork(w)))
  }

  /** The Albunea question. */
  function AlbuneaFork(w: Wording): Node {
    Noted(w.albuneaNote, Fork(w.albunea,
      Found(w.catherinaeNote, KbFixtures.AlbuneaCatherinae),
      Found(w.paretiiNote, KbFixtures.AlbuneaParetii)))
  }

  /** The Lepidopa question. */
  function LepidopaFork(w: Wording): Node {
    Noted(w.lepidopaNote, Fork(w.lepidopa,
      Found(w.venustaNote, KbFixtures.LepidopaVenusta),
      Found(w.richmondiNote, KbFixtures.LepidopaRichmondi)))
  }

  /** The Albuneidae question. */
  function AlbuneidaeFork(w: Wording): Node {
    Noted(w.albuneidaeNote, Fork(w.albuneidae, AlbuneaFork(w), LepidopaFork(w)))
  }

  /** The key with a given wording: the root asks about the telson and has
      no note. */
  function YesNoKey(w: Wording): Node {
    Fork(w.telson, HippidaeFork(w), AlbuneidaeFork(w))
  }

  /** `BASE_DE_CONOCIMIENTO` of `src/SE4.py`. */
  const Se4Kb := YesNoKey(Se4Wording)

  /** A node of the yes/no key: a result (a "resultado", no question, no
      branches) or a question with exactly a yes and a no branch. */
  predicate Dichotomous(n: Node)
    decreases n
  {
    (("resultado" in n.text && "pregunta" !in n.text && !n.hasOpciones && n.opciones == [])
     || ("pregunta" in n.text && "resultado" !in n.text && n.hasOpciones
         && |n.opciones| == 2 && n.opciones[0].key == "si" && n.opciones[1].key == "no"))
    && forall e | e in n.opciones :: Dichotomous(e.node)
  }

  /** A question over two yes/no nodes is a yes/no node, noted or not. */
  lemma ForkDichotomous(question: string, yes: Node, no: Node)
    requires Dichotomous(yes) && Dichotomous(no)
    ensures Dichotomous(Fork(question, yes, no))
    ensures forall nota :: Dichotomous(Noted(nota, Fork(question, yes, no)))
  {
    var f := Fork(question, yes, no);
    assert f.opciones[0].key == "si";
    forall nota ensures Dichotomous(Noted(nota, f)) {
      assert Noted(nota, f).opciones == f.opciones;
    }
  }

  /** Every node of the tree is a result or a yes/no question; the root
      has no note and every other node has one. */
  lemma Se4Shaped(w: Wording)
    ensures Dichotomous(YesNoKey(w))
    ensures "nota" !in YesNoKey(w).text && KbFixtures.Carried(YesNoKey(w), "nota")
  {
    Se4Dichotomous(w);
    Se4Noted(w);
  }

  lemma Se4Dichotomous(w: Wording)
    ensures Dichotomous(YesNoKey(w))
  {
    ForkDichotomous(w.emerita, Found(w.brasiliensisNote, KbFixtures.EmeritaBrasiliensis),
      Found(w.portoricensisNote, KbFixtures.EmeritaPortoricensis));
    ForkDichotomous(w.hippidae, Found(w.hippaNote, KbFixtures.HippaTestudinaria), EmeritaFork(w));
    ForkDichotomous(w.albunea, Found(w.catherinaeNote, KbFixtures.AlbuneaCatherinae),
      Found(w.paretiiNote, KbFixtures.AlbuneaParetii));
    ForkDichotomous(w.lepidopa, Found(w.venustaNote, KbFixtures.LepidopaVenusta),
      Found(w.richmondiNote, KbFixtures.LepidopaRichmondi));
    ForkDichotomous(w.albuneidae, AlbuneaFork(w), LepidopaFork(w));
    ForkDichotomous(w.telson, HippidaeFork(w), AlbuneidaeFork(w));
  }

  lemma Se4Noted(w: Wording)
    ensures "nota" !in YesNoKey(w).text && KbFixtures.Carried(YesNoKey(w), "nota")
  {
    FoundNoted(w.brasiliensisNote, KbFixtures.EmeritaBrasiliensis);
    FoundNoted(w.portoricensisNote, KbFixtures.EmeritaPortoricensis);
    FoundNoted(w.hippaNote, KbFixtures.HippaTestudinaria);
    FoundNoted(w.catherinaeNote, KbFixtures.AlbuneaCatherinae);
    FoundNoted(w.paretiiNote, KbFixtures.AlbuneaParetii);
    FoundNoted(w.venustaNote, KbFixtures.LepidopaVenusta);
    FoundNoted(w.richmondiNote, KbFixtures.LepidopaRichmondi);
    ForkNoted(w.emeritaNote, w.emerita, Found(w.brasiliensisNote, KbFixtures.EmeritaBrasiliensis),
      Found(w.portoricensisNote, KbFixtures.EmeritaPortoricensis));
    ForkNoted(w.hippidaeNote, w.hippidae, Found(w.hippaNote, KbFixtures.HippaTestudinaria), EmeritaFork(w));
    ForkNoted(w.albuneaNote, w.albunea, Found(w.catherinaeNote, KbFixtures.AlbuneaCatherinae),
      Found(w.paretiiNote, KbFixtures.AlbuneaParetii));
    ForkNoted(w.lepidopaNote, w.lepidopa, Found(w.venustaNote, KbFixtures.LepidopaVenusta),
      Found(w.richmondiNote, KbFixtures.LepidopaRichmondi));
    ForkNoted(w.albuneidaeNote, w.albuneidae, AlbuneaFork(w), LepidopaFork(w));
    ForkCarries(w.telson, HippidaeFork(w), AlbuneidaeFork(w));
  }

  /** A result node has a note and nothing below it. */
  lemma FoundNoted(nota: string, result: string)
    ensures "nota" in Found(nota, result).text && KbFixtures.Carried(Found(nota, result), "nota")
  {
  }

  /** A question over two noted nodes that carry notes carries notes. */
  lemma ForkCarries(question: string, yes: Node, no: Node)
    requires "nota" in yes.text && KbFixtures.Carried(yes, "nota")
    requires "nota" in no.text && KbFixtures.Carried(no, "nota")
    ensures "nota" !in Fork(question, yes, no).text && KbFixtures.Carried(Fork(question, yes, no), "nota")
  {
    assert Fork(question, yes, no).opciones == [Entry("si", yes), Entry("no", no)];
  }

  /** The same question with a note of its own. */
  lemma ForkNoted(nota: string, question: string, yes: Node, no: Node)
    requires "nota" in yes.text && KbFixtures.Carried(yes, "nota")
    requires "nota" in no.text && KbFixtures.Carried(no, "nota")
    ensures "nota" in Noted(nota, Fork(question, yes, no)).text
    ensures KbFixtures.Carried(Noted(nota, Fork(question, yes, no)), "nota")
  {
    ForkCarries(question, yes, no);
    assert Noted(nota, Fork(question, yes, no)).opciones == Fork(question, yes, no).opciones;
  }

  /** The two yes/no answers of a result pair. */
  lemma OutcomesOfFoundPair(nota: string, question: string, n1: string, r1: string, n2: string, r2: string)
    ensures var f := Noted(nota, Fork(question, Found(n1, r1), Found(n2, r2)));
      f.hasOpciones && "resultado" !in f.text
      && Outcomes(f.opciones) == [(["si"], r1), (["no"], r2)]
  {
    var a, b := Entry("si", Found(n1, r1)), Entry("no", Found(n2, r2));
    OutcomesOfPair(a, b);
    assert Own(a) == [(["si"], r1)] && Nested(a) == [];
    assert Own(b) == [(["no"], r2)] && Nested(b) == [];
  }

  /** The outcomes below the Hippidae question. */
  lemma HippidaeOutcomes(w: Wording)
    ensures HippidaeFork(w).hasOpciones && "resultado" !in HippidaeFork(w).text
    ensures Outcomes(HippidaeFork(w).opciones) == [
      (["si"], KbFixtures.HippaTestudinaria),
      (["no", "si"], KbFixtures.EmeritaBrasiliensis),
      (["no", "no"], KbFixtures.EmeritaPortoricensis)]
  {
    OutcomesOfFoundPair(w.emeritaNote, w.emerita, w.brasiliensisNote, KbFixtures.EmeritaBrasiliensis,
      w.portoricensisNote, KbFixtures.EmeritaPortoricensis);
    var a, b := Entry("si", Found(w.hippaNote, KbFixtures.HippaTestudinaria)), Entry("no", EmeritaFork(w));
    OutcomesOfPair(a, b);
    assert Own(a) == [(["si"], KbFixtures.HippaTestudinaria)] && Nested(a) == [];
    assert Own(b) == [];
    PrefixedTwo("no", ["si"], KbFixtures.EmeritaBrasiliensis, ["no"], KbFixtures.EmeritaPortoricensis);
    InFront("no", "si", "si");
    InFront("no", "no", "no");
    var y := Nested(b);
    assert y == [(["no", "si"], KbFixtures.EmeritaBrasiliensis), (["no", "no"], KbFixtures.EmeritaPortoricensis)];
    assert Outcomes(HippidaeFork(w).opciones) == [(["si"], KbFixtures.HippaTestudinaria)] + [] + ([] + y);
  }

  /** The outcomes below the Albuneidae question. */
  lemma AlbuneidaeOutcomes(w: Wording)
    ensures AlbuneidaeFork(w).hasOpciones && "resultado" !in AlbuneidaeFork(w).text
    ensures Outcomes(AlbuneidaeFork(w).opciones) == [
      (["si", "si"], KbFixtures.AlbuneaCatherinae),
      (["si", "no"], KbFixtures.AlbuneaParetii),
      (["no", "si"], KbFixtures.LepidopaVenusta),
      (["no", "no"], KbFixtures.LepidopaRichmondi)]
  {
    OutcomesOfFoundPair(w.albuneaNote, w.albunea, w.catherinaeNote, KbFixtures.AlbuneaCatherinae,
      w.paretiiNote, KbFixtures.AlbuneaParetii);
    OutcomesOfFoundPair(w.lepidopaNote, w.lepidopa, w.venustaNote, KbFixtures.LepidopaVenusta,
      w.richmondiNote, KbFixtures.LepidopaRichmondi);
    var a, b := Entry("si", AlbuneaFork(w)), Entry("no", LepidopaFork(w));
    OutcomesOfPair(a, b);
    assert Own(a) == [] && Own(b) == [];
    PrefixedTwo("si", ["si"], KbFixtures.AlbuneaCatherinae, ["no"], KbFixtures.AlbuneaParetii);
    PrefixedTwo("no", ["si"], KbFixtures.LepidopaVenusta, ["no"], KbFixtures.LepidopaRichmondi);
    InFront("si", "si", "si");
    InFront("si", "no", "no");
    InFront("no", "si", "si");
    InFront("no", "no", "no");
    var x, y := Nested(a), Nested(b);
    assert Outcomes(AlbuneidaeFork(w).opciones) == [] + x + ([] + y);
    assert [] + x + ([] + y) == x + y;
  }

  /** The outcomes behind the yes branch of the root. */
  lemma LongTelsonOutcomes(w: Wording)
    ensures Nested(Entry("si", HippidaeFork(w))) == [
      (["si", "si"], KbFixtures.HippaTestudinaria),
      (["si", "no", "si"], KbFixtures.EmeritaBrasiliensis),
      (["si", "no", "no"], KbFixtures.EmeritaPortoricensis)]
  {
    HippidaeOutcomes(w);
    PrefixedThree("si", (["si"], KbFixtures.HippaTestudinaria),
      (["no", "si"], KbFixtures.EmeritaBrasiliensis), (["no", "no"], KbFixtures.EmeritaPortoricensis));
    InFront("si", "si", "si");
    InFront("si", "no", "si");
    InFront("si", "no", "no");
  }

  /** The outcomes behind the no branch of the root. */
  lemma ShortTelsonOutcomes(w: Wording)
    ensures Nested(Entry("no", AlbuneidaeFork(w))) == [
      (["no", "si", "si"], KbFixtures.AlbuneaCatherinae),
      (["no", "si", "no"], KbFixtures.AlbuneaParetii),
      (["no", "no", "si"], KbFixtures.LepidopaVenusta),
      (["no", "no", "no"], KbFixtures.LepidopaRichmondi)]
  {
    AlbuneidaeOutcomes(w);
    PrefixedFour("no", (["si", "si"], KbFixtures.AlbuneaCatherinae), (["si", "no"], KbFixtures.AlbuneaParetii),
      (["no", "si"], KbFixtures.LepidopaVenusta), (["no", "no"], KbFixtures.LepidopaRichmondi));
    InFront("no", "si", "si");
    InFront("no", "si", "no");
    InFront("no", "no", "si");
    InFront("no", "no", "no");
  }

  /** The yes/no paths of the seven species: Hippa testudinaria after two
      answers, the others after three, in the same order as the species
      of the other two knowledge bases. */
  const Se4Paths := [["si", "si"], ["si", "no", "si"], ["si", "no", "no"],
    ["no", "si", "si"], ["no", "si", "no"], ["no", "no", "si"], ["no", "no", "no"]]

  /** Every node of the yes/no key that carries a "resultado", with the
      answers leading to it. */
  lemma Se4OutcomeList(w: Wording)
    ensures Outcomes(Kids(YesNoKey(w))) == [
      (["si", "si"], KbFixtures.HippaTestudinaria),
      (["si", "no", "si"], KbFixtures.EmeritaBrasiliensis),
      (["si", "no", "no"], KbFixtures.EmeritaPortoricensis)] + [
      (["no", "si", "si"], KbFixtures.AlbuneaCatherinae),
      (["no", "si", "no"], KbFixtures.AlbuneaParetii),
      (["no", "no", "si"], KbFixtures.LepidopaVenusta),
      (["no", "no", "no"], KbFixtures.LepidopaRichmondi)]
  {
    var a, b := Entry("si", HippidaeFork(w)), Entry("no", AlbuneidaeFork(w));
    assert Kids(YesNoKey(w)) == [a, b];
    HippidaeOutcomes(w);
    AlbuneidaeOutcomes(w);
    QuestionPair(a, b);
    LongTelsonOutcomes(w);
    ShortTelsonOutcomes(w);
  }

  /** Two options that are both questions list only their nested outcomes. */
  lemma QuestionPair(a: Entry, b: Entry)
    requires "resultado" !in a.node.text && "resultado" !in b.node.text
    ensures Outcomes([a, b]) == Nested(a) + Nested(b)
  {
    OutcomesOfPair(a, b);
    EmptyFront(Own(a), Nested(a));
    EmptyFront(Own(b), Nested(b));
  }

  lemma EmptyFront<T>(e: seq<T>, x: seq<T>)
    requires e == []
    ensures e + x == x
  {
  }

  /** Seven pairs listed in order are the pairs of two seven-element lists,
      index by index. */
  lemma ZipSeven<A, B>(o: seq<(A, B)>, ps: seq<A>, ss: seq<B>,
                       p0: A, p1: A, p2: A, p3: A, p4: A, p5: A, p6: A,
                       s0: B, s1: B, s2: B, s3: B, s4: B, s5: B, s6: B)
    requires o == [(p0, s0), (p1, s1), (p2, s2), (p3, s3), (p4, s4), (p5, s5), (p6, s6)]
    requires ps == [p0, p1, p2, p3, p4, p5, p6] && ss == [s0, s1, s2, s3, s4, s5, s6]
    ensures |o| == 7 && forall i | 0 <= i < 7 :: o[i] == (ps[i], ss[i])
  {
  }

  /** The seven species of the yes/no key, each on its own path, in the
      order of the other knowledge bases. */
  lemma Se4Outcomes(w: Wording)
    ensures |Outcomes(Kids(YesNoKey(w)))| == 7
    ensures forall i | 0 <= i < 7 :: Outcomes(Kids(YesNoKey(w)))[i] == (Se4Paths[i], KbFixtures.Species[i])
  {
    Se4OutcomeList(w);
    JoinThreeFour(
      (["si", "si"], KbFixtures.HippaTestudinaria),
      (["si", "no", "si"], KbFixtures.EmeritaBrasiliensis),
      (["si", "no", "no"], KbFixtures.EmeritaPortoricensis),
      (["no", "si", "si"], KbFixtures.AlbuneaCatherinae),
      (["no", "si", "no"], KbFixtures.AlbuneaParetii),
      (["no", "no", "si"], KbFixtures.LepidopaVenusta),
      (["no", "no", "no"], KbFixtures.LepidopaRichmondi));
    ZipSeven(Outcomes(Kids(YesNoKey(w))), Se4Paths, KbFixtures.Species,
      ["si", "si"], ["si", "no", "si"], ["si", "no", "no"], ["no", "si", "si"], ["no", "si", "no"], ["no", "no", "si"], ["no", "no", "no"],
      KbFixtures.HippaTestudinaria, KbFixtures.EmeritaBrasiliensis, KbFixtures.EmeritaPortoricensis,
      KbFixtures.AlbuneaCatherinae, KbFixtures.AlbuneaParetii, KbFixtures.LepidopaVenusta, KbFixtures.LepidopaRichmondi);
  }

  /** A yes/no tree is a tree of dictionaries. */
  lemma {:induction false} DichotomousDictionaries(n: Node)
    requires Dichotomous(n)
    ensures Dictionaries(n)
    decreases n
  {
    forall e | e in n.opciones ensures Dictionaries(e.node) {
      DichotomousDictionaries(e.node);
    }
  }

  /** Pressing the answers of a species' path on a fresh page walks the
      key to that species' result. */
  lemma PathsReachSpecies(w: Wording, i: nat)
    requires i < 7
    ensures var h := Replay(Open(YesNoKey(w), None), Se4Paths[i]);
      |h| == 1 + |Se4Paths[i]| && "resultado" in Last(h).text
      && Last(h).text["resultado"] == KbFixtures.Species[i]
  {
    Se4Shaped(w);
    Se4Outcomes(w);
    DichotomousDictionaries(YesNoKey(w));
    KidsLead(YesNoKey(w));
    OutcomesReached(YesNoKey(w), Kids(YesNoKey(w)), i);
    ReplayFollows([YesNoKey(w)], Se4Paths[i]);
  }

  /** An answer button: SÍ or NO. */
  datatype Answer = Yes | No

  /** The key an answer button passes to `procesar`. */
  function Key(a: Answer): (k: string)
    ensures k == "si" || k == "no"
    ensures a.Yes? <==> k == "si"
  {
    if a.Yes? then "si" else "no"
  }

  /** The controls the page offers for a history: the SÍ and NO buttons
      and, further back than the root, the back button, at a question;
      the restart button at a result. */
  datatype Controls = Controls(answers: bool, back: bool, restart: bool)

  /** What `main` draws below the current node. */
  function Offered(h: seq<Node>): (c: Controls)
    requires h != []
    ensures c.answers <==> "resultado" !in Current(h).text
    ensures c.restart <==> !c.answers
    ensures c.back <==> c.answers && |h| > 1
  {
    var atResult := "resultado" in Current(h).text;
    Controls(!atResult, !atResult && |h| > 1, atResult)
  }

  /** Every node of a history rooted at a yes/no tree is a yes/no node. */
  lemma {:induction false} ChainedDichotomous(kb: Node, h: seq<Node>, i: nat)
    requires Dichotomous(kb) && Chained(kb, h) && i < |h|
    ensures Dichotomous(h[i])
  {
    if i > 0 {
      ChainedDichotomous(kb, h, i - 1);
      assert IsChild(h[i - 1], h[i]);
      var j :| 0 <= j < |h[i - 1].opciones| && h[i - 1].opciones[j].node == h[i];
      assert h[i - 1].opciones[j] in h[i - 1].opciones;
    }
  }

  /** At a yes/no question both answers name an option; a yes/no result
      has none. */
  lemma AnswersNamed(n: Node)
    requires Dichotomous(n)
    ensures "resultado" !in n.text ==> n.hasOpciones && "si" in Labels(n.opciones) && "no" in Labels(n.opciones)
    ensures "resultado" in n.text ==> !n.hasOpciones
  {
    if "resultado" !in n.text {
      assert Labels(n.opciones)[0] == "si" && Labels(n.opciones)[1] == "no";
    }
  }

  /** On a yes/no tree every offered button does what it shows: at a
      question both answers move one node on and back moves one node back;
      at a result no answer can move, and restart returns to the root. */
  lemma ControlsWork(kb: Node, h: seq<Node>)
    requires Dichotomous(kb) && Chained(kb, h)
    ensures Offered(h).answers ==>
      forall a: Answer :: |Advance(h, Key(a))| == |h| + 1 && Chained(kb, Advance(h, Key(a)))
    ensures Offered(h).back ==> |Back(h)| == |h| - 1
    ensures Offered(h).restart ==> (forall o :: Advance(h, o) == h) && Restart(kb) == [kb]
  {
    ChainedDichotomous(kb, h, |h| - 1);
    AnswersNamed(Last(h));
    forall a: Answer ensures Chained(kb, Advance(h, Key(a))) {
      AdvanceChained(kb, h, Key(a));
    }
  }

  /** The page of `src/SE4.py` on its own key. */
  lemma Se4ControlsWork(h: seq<Node>)
    requires Chained(Se4Kb, h)
    ensures Offered(h).answers ==>
      forall a: Answer :: |Advance(h, Key(a))| == |h| + 1 && Chained(Se4Kb, Advance(h, Key(a)))
    ensures Offered(h).restart ==> forall o :: Advance(h, o) == h
  {
    Se4Shaped(Se4Wording);
    ControlsWork(Se4Kb, h);
  }
}
