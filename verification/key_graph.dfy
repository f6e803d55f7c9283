/** The dichotomous key of the squat-lobster identifier (Munida and
    Munidopsis) as the database holds it after `rebuild_key`: thirteen
    question nodes and the options leading from each node either to another
    node or to a species. */
module KeyGraph {
  import opened Wrappers

  /** A row of `key_options`: the node it belongs to, its text, and its
      `next_node_id` and `species_id` columns (SQL `NULL` is `None`). */
  datatype KeyOption = KeyOption(node: nat, text: string, next: Option<nat>, species: Option<nat>)

  /** `SPECIES_IDS`: database id of each species epithet. */
  const SpeciesIds: map<string, nat> := map[
    "constricta" := 22, "evermanni" := 23, "flinti" := 24, "forceps" := 25,
    "alaminos" := 26, "brevimanus" := 27, "erinaceus" := 29, "longimanus" := 30,
    "platirostris" := 31, "polita" := 32, "sp" := 38]

  /** The ids of `KEY_NODES`, in order (the question texts are display
      only). */
  const KeyNodes: seq<nat> := [1, 2, 3, 4, 5, 6, 7, 8, 9, 10, 11, 12, 13]

  predicate IsNode(n: nat) {
    n in KeyNodes
  }

  /** The key has thirteen nodes, numbered 1 to 13 without repetition. */
  lemma KeyNodesExact()
    ensures |KeyNodes| == 13
    ensures forall i | 0 <= i < |KeyNodes| :: KeyNodes[i] == i + 1
    ensures forall n: nat :: IsNode(n) <==> 1 <= n <= 13
  {
  }

  function Go(node: nat, text: string, next: nat): KeyOption {
    KeyOption(node, text, Some(next), None)
  }

  function Ends(node: nat, text: string, species: nat): KeyOption {
    KeyOption(node, text, None, Some(species))
  }

  /** The openings of the two answers of a yes-or-no node. */
  const Si := "SÍ — "
  const No := "NO — "

  /** The option texts, named by node and position (node 8 splits after
      its first word, which tells its three options apart). */
  const Option1a := Si + "líneas transversales bien marcadas (género Munida)"
  const Option1b := No + "sin líneas o muy tenues (género Munidopsis)"
  const Option2a := Si + "margen posterior con espinas"
  const Option2b := No + "margen posterior sin espinas"
  const Option3a := Si + "espina EXTERNA claramente más larga"
  const Option3b := No + "espina INTERNA igual o más larga"
  const Option4a := Si + "sobrepasan o alcanzan la córnea"
  const Option4b := No + "no alcanzan la córnea"
  const Option5a := Si + "espina ventral fuerte en 3er maxilípedo"
  const Option5b := No + "sin espina ventral distinguible"
  const Option6a := Si + "espinas cónicas prominentes en caparazón"
  const Option6b := No + "sin espinas agudas (tubérculos o liso)"
  const Option7a := Si + "pedúnculo ocular armado con espinas"
  const Option7b := No + "pedúnculo ocular sin espinas"
  const Option8a := "Un " + "PAR de espinas/tubérculos gástricos prominentes"
  const Option8b := "MÚLTIPLES " + "espinas gástricas y cardíacas"
  const Option8c := "Espina " + "postantenal larga, sin espinas gástricas evidentes"
  const Option9a := Si + "abdomen con espinas claras"
  const Option9b := No + "abdomen liso o con tubérculos"
  const Option10a := Si + "al menos un par de espinas/tubérculos en región gástrica"
  const Option10b := No + "caparazón y abdomen sin espinas ni tubérculos"
  const Option11a := Si + "región cardíaca con espinas"
  const Option11b := No + "región cardíaca sin espinas (quelípedos muy robustos)"
  const Option12a := Si + "quelípedos muy largos (3–4× longitud caparazón)"
  const Option12b := No + "quelípedos moderados"
  const Option13a := Si + "caparazón y abdomen completamente lisos"
  const Option13b := No + "algún tubérculo o carácter distintivo"

  /** The options of a node, in `ORDER BY id` order: what `load_node` fetches
      for it. A node outside the key has none. */
  function OptionsOf(node: nat): seq<KeyOption> {
    match node
    case 1 => [
      Go(1, Option1a, 2),
      Go(1, Option1b, 6)]
    case 2 => [
      Go(2, Option2a, 3),
      Go(2, Option2b, 4)]
    case 3 => [
      Go(3, Option3a, 11),
      Go(3, Option3b, 5)]
    case 4 => [
      Ends(4, Option4a, 23),
      Ends(4, Option4b, 24)]
    case 5 => [
      Ends(5, Option5a, 24),
      Ends(5, Option5b, 23)]
    case 6 => [
      Go(6, Option6a, 7),
      Go(6, Option6b, 10)]
    case 7 => [
      Ends(7, Option7a, 26),
      Go(7, Option7b, 8)]
    case 8 => [
      Ends(8, Option8a, 27),
      Ends(8, Option8b, 29),
      Ends(8, Option8c, 31)]
    case 9 => [
      Go(9, Option9a, 12),
      Go(9, Option9b, 13)]
    case 10 => [
      Go(10, Option10a, 9),
      Ends(10, Option10b, 32)]
    case 11 => [
      Ends(11, Option11a, 22),
      Ends(11, Option11b, 25)]
    case 12 => [
      Ends(12, Option12a, 30),
      Ends(12, Option12b, 31)]
    case 13 => [
      Ends(13, Option13a, 32),
      Ends(13, Option13b, 38)]
    case _ => []
  }

  /** `KEY_OPTIONS` as `rebuild_key` inserts it: the options of nodes `m`
      to 13, node by node. */
  function Table(m: nat): seq<KeyOption>
    decreases 14 - m
  {
    if m > 13 then [] else OptionsOf(m) + Table(m + 1)
  }

  const KeyOptions: seq<KeyOption> := Table(1)

  /** The rows of `os` that belong to `node`, in order: the `WHERE node_id = ?`
      of the query in `load_node`. */
  function Filter(os: seq<KeyOption>, node: nat): (r: seq<KeyOption>)
    ensures forall o | o in r :: o in os && o.node == node
    ensures forall o | o in os && o.node == node :: o in r
    ensures |r| <= |os|
  {
    if os == [] then []
    else (if os[0].node == node then [os[0]] else []) + Filter(os[1..], node)
  }

  /** An option of node `n` that belongs to `n` and names exactly one of a
      next node and a species; a next node is a node of the key. */
  predicate WellFormedOption(n: nat, o: KeyOption) {
    o.node == n && o.next.Some? != o.species.Some?
    && (o.next.Some? ==> IsNode(o.next.value))
  }

  /** Every node of the key offers two options except node 8, the only
      three-way split; every option is well formed; nothing outside the key
      has options. */
  lemma OptionsWellFormed(n: nat)
    ensures forall o | o in OptionsOf(n) :: WellFormedOption(n, o)
    ensures IsNode(n) <==> OptionsOf(n) != []
    ensures IsNode(n) ==> |OptionsOf(n)| == (if n == 8 then 3 else 2)
  {
    OptionsCount(n);
    forall o | o in OptionsOf(n) ensures WellFormedOption(n, o) {
      OptionWellFormed(n, o);
    }
  }

  lemma OptionsCount(n: nat)
    ensures IsNode(n) <==> OptionsOf(n) != []
    ensures IsNode(n) ==> |OptionsOf(n)| == (if n == 8 then 3 else 2)
  {
  }

  lemma OptionWellFormed(n: nat, o: KeyOption)
    requires o in OptionsOf(n)
    ensures WellFormedOption(n, o)
  {
  }

  /** Outside node 8 every node offers a SÍ option followed by a NO option;
      the three options of node 8 open with "U", "M" and "E". */
  lemma Openings(n: nat)
    ensures IsNode(n) && n != 8 ==>
      |OptionsOf(n)| == 2 && |OptionsOf(n)[0].text| >= 2 && |OptionsOf(n)[1].text| >= 2
      && OptionsOf(n)[0].text[0] == 'S' && OptionsOf(n)[0].text[1] == 'Í'
      && OptionsOf(n)[1].text[0] == 'N' && OptionsOf(n)[1].text[1] == 'O'
    ensures n == 8 ==> (|OptionsOf(8)| == 3 && OptionsOf(8)[0].text[0] == 'U'
      && OptionsOf(8)[1].text[0] == 'M' && OptionsOf(8)[2].text[0] == 'E')
  {
    if n == 8 {
      EightOpenings();
    } else if IsNode(n) {
      YesNoOpenings(n);
    }
  }

  lemma YesNoOpenings(n: nat)
    requires IsNode(n) && n != 8
    ensures |OptionsOf(n)| == 2 && |OptionsOf(n)[0].text| >= 2 && |OptionsOf(n)[1].text| >= 2
    ensures OptionsOf(n)[0].text[..2] == Si[..2] && OptionsOf(n)[1].text[..2] == No[..2]
  {
  }

  lemma EightOpenings()
    ensures |OptionsOf(8)| == 3 && OptionsOf(8)[0].text[0] == 'U'
      && OptionsOf(8)[1].text[0] == 'M' && OptionsOf(8)[2].text[0] == 'E'
  {
    assert Option8a[0] == 'U';
    assert Option8b[0] == 'M';
    assert Option8c[0] == 'E';
  }

  /** The options of a node start with different characters, so each text
      names one option. */
  lemma FirstCharsDistinct(n: nat)
    ensures forall i, j | 0 <= i < j < |OptionsOf(n)| ::
      OptionsOf(n)[i].text != [] && OptionsOf(n)[j].text != [] && OptionsOf(n)[i].text[0] != OptionsOf(n)[j].text[0]
  {
    Openings(n);
    OptionsWellFormed(n);
  }

  /** The options of every node in `Table(m)` belong to that node. */
  lemma {:induction false} TableNodes(m: nat)
    ensures forall o | o in Table(m) :: m <= o.node <= 13
    decreases 14 - m
  {
    if m <= 13 {
      OptionsWellFormed(m);
      TableNodes(m + 1);
    }
  }

  lemma {:induction false} FilterAppend(a: seq<KeyOption>, b: seq<KeyOption>, node: nat)
    ensures Filter(a + b, node) == Filter(a, node) + Filter(b, node)
    decreases |a|
  {
    if a != [] {
      FilterAppend(a[1..], b, node);
      assert (a + b)[0] == a[0];
      assert (a + b)[1..] == a[1..] + b;
    } else {
      assert a + b == b;
    }
  }

  lemma {:induction false} FilterNone(os: seq<KeyOption>, node: nat)
    requires forall o | o in os :: o.node != node
    ensures Filter(os, node) == []
    decreases |os|
  {
    if os != [] {
      FilterNone(os[1..], node);
    }
  }

  lemma {:induction false} FilterAll(os: seq<KeyOption>, node: nat)
    requires forall o | o in os :: o.node == node
    ensures Filter(os, node) == os
    decreases |os|
  {
    if os != [] {
      FilterAll(os[1..], node);
    }
  }

  /** Selecting node `n`'s rows from the rows of nodes `m` to 13. */
  lemma {:induction false} FilterTable(m: nat, n: nat)
    ensures Filter(Table(m), n) == if m <= n <= 13 then OptionsOf(n) else []
    decreases 14 - m
  {
    if m <= 13 {
      OptionsWellFormed(m);
      FilterAppend(OptionsOf(m), Table(m + 1), n);
      FilterTable(m + 1, n);
      if m == n {
        FilterAll(OptionsOf(m), n);
        TableNodes(m + 1);
        FilterNone(Table(m + 1), n);
      } else {
        FilterNone(OptionsOf(m), n);
      }
    }
  }

  /** What `load_node` fetches from the rebuilt table — the rows of the node,
      in insertion order — is `OptionsOf(n)`; the table has 27 rows. */
  lemma LoadNodeOptions(n: nat)
    ensures Filter(KeyOptions, n) == OptionsOf(n)
    ensures |KeyOptions| == 27
  {
    FilterTable(1, n);
    OptionsWellFormed(n);
    TableSize();
  }

  lemma TableSize()
    ensures |Table(1)| == 27
  {
    var t := Table(1);
    assert Table(14) == [];
    assert |Table(13)| == 2;
    assert |Table(12)| == 4;
    assert |Table(11)| == 6;
    assert |Table(10)| == 8;
    assert |Table(9)| == 10;
    assert |Table(8)| == 13;
    assert |Table(7)| == 15;
    assert |Table(6)| == 17;
    assert |Table(5)| == 19;
    assert |Table(4)| == 21;
    assert |Table(3)| == 23;
    assert |Table(2)| == 25;
  }

  // ---------------------------------------------------------------------------
  // Walks through the key

  /** Where a walk stands: at a node, at a species, or stuck on a choice the
      node does not offer. */
  datatype Stop = AtNode(node: nat) | AtSpecies(species: nat) | NoSuchOption

  /** Follows `picks` (each an index into the current node's options) from
      `node`; a walk stops at the first species reached. */
  function Walk(node: nat, picks: seq<nat>): Stop
    decreases |picks|
  {
    if picks == [] then AtNode(node)
    else
      var opts := OptionsOf(node);
      if picks[0] >= |opts| then NoSuchOption
      else
        var o := opts[picks[0]];
        if o.species.Some? then AtSpecies(o.species.value)
        else if o.next.Some? then Walk(o.next.value, picks[1..])
        else NoSuchOption
  }

  /** The height of a node: the most steps a walk from it can take before
      reaching a species. Node ids do not decrease along edges (10 leads to
      9 but 9 leads to 12), so acyclicity rests on this rank. */
  const Rank: seq<nat> := [4, 2, 1, 0, 0, 3, 1, 0, 1, 2, 0, 0, 0]

  /** Every edge of the key goes to a node of lower rank: the key is acyclic. */
  lemma RankDecreases(n: nat)
    ensures forall o | o in OptionsOf(n) && o.next.Some? ::
      IsNode(n) && IsNode(o.next.value) && Rank[o.next.value - 1] < Rank[n - 1]
  {
  }

  /** Every walk from a node ends — at a species or on an unoffered choice —
      once it has made more choices than the node's rank. */
  lemma {:induction false} WalkEnds(node: nat, picks: seq<nat>)
    requires IsNode(node) && |picks| > Rank[node - 1]
    ensures !Walk(node, picks).AtNode?
    decreases |picks|
  {
    var opts := OptionsOf(node);
    if picks[0] < |opts| {
      var o := opts[picks[0]];
      if o.species.None? && o.next.Some? {
        RankDecreases(node);
        WalkEnds(o.next.value, picks[1..]);
      }
    }
  }

  /** Every walk from node 1 that does not run out of offered choices ends at
      a species of the key after at most five answers. */
  lemma WalkFromRootEnds(picks: seq<nat>)
    requires |picks| >= 5
    ensures Walk(1, picks).AtSpecies? || Walk(1, picks).NoSuchOption?
  {
    WalkEnds(1, picks);
  }

  /** A path of answers reaching each node from node 1. */
  const PathTo: seq<seq<nat>> := [
    [], [0], [0, 0], [0, 1], [0, 0, 1], [1], [1, 0], [1, 0, 1],
    [1, 1, 0], [1, 1], [0, 0, 0], [1, 1, 0, 0], [1, 1, 0, 1]]

  /** All thirteen nodes are reachable from node 1. */
  lemma AllReachable(n: nat)
    requires IsNode(n)
    ensures Walk(1, PathTo[n - 1]) == AtNode(n)
  {
  }

  /** Every species of `SPECIES_IDS` is the target of some option. */
  lemma SpeciesReached(name: string)
    requires name in SpeciesIds
    ensures exists n, i | IsNode(n) && 0 <= i < |OptionsOf(n)| :: OptionsOf(n)[i].species == Some(SpeciesIds[name])
  {
    var (n, i) := LeafFor(SpeciesIds[name]);
    assert OptionsOf(n)[i].species == Some(SpeciesIds[name]);
  }

  /** A node and option position whose option ends at each species id. */
  function LeafFor(id: nat): (nat, nat) {
    match id
    case 22 => (11, 0)
    case 23 => (4, 0)
    case 24 => (4, 1)
    case 25 => (11, 1)
    case 26 => (7, 0)
    case 27 => (8, 0)
    case 29 => (8, 1)
    case 30 => (12, 0)
    case 31 => (8, 2)
    case 32 => (10, 1)
    case _ => (13, 1)
  }

  /** Every option that ends a walk names a species of `SPECIES_IDS`. */
  lemma LeavesAreKnownSpecies(n: nat)
    ensures forall o | o in OptionsOf(n) && o.species.Some? :: o.species.value in SpeciesIds.Values
  {
    forall o | o in OptionsOf(n) && o.species.Some?
      ensures o.species.value in SpeciesIds.Values
    {
      var name := EpithetOf(o.species.value);
      assert SpeciesIds[name] == o.species.value;
    }
  }

  /** The epithet `SPECIES_IDS` gives each id of the key's leaves. */
  function EpithetOf(id: nat): string {
    match id
    case 22 => "constricta"
    case 23 => "evermanni"
    case 24 => "flinti"
    case 25 => "forceps"
    case 26 => "alaminos"
    case 27 => "brevimanus"
    case 29 => "erinaceus"
    case 30 => "longimanus"
    case 31 => "platirostris"
    case 32 => "polita"
    case _ => "sp"
  }
}
