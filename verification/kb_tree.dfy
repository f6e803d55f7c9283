/** The knowledge bases of the sand-crab identifiers (families Hippidae and
    Albuneidae): nested dictionaries whose nodes carry text fields
    ("pregunta", "nota", "imagen", "resultado") and, under "opciones", the
    options of a question, each an option label leading to a node. */
module KbTree {
  import opened Wrappers

  /** A dictionary node: its text fields, whether it has the key
      "opciones", and its options in insertion order (none without that
      key). */
  datatype Node = Node(text: map<string, string>, hasOpciones: bool, opciones: seq<Entry>)

  /** An option: its key (label) and the node it leads to. */
  datatype Entry = Entry(key: string, node: Node)

  /** The labels of a list of options, in order. */
  function Labels(opts: seq<Entry>): (ls: seq<string>)
    ensures |ls| == |opts|
    ensures forall i | 0 <= i < |opts| :: ls[i] == opts[i].key
  {
    if opts == [] then [] else [opts[0].key] + Labels(opts[1..])
  }

  /** Dictionary keys are unique. */
  predicate UniqueLabels(opts: seq<Entry>) {
    forall i, j | 0 <= i < j < |opts| :: opts[i].key != opts[j].key
  }

  /** `opts[key]`: the node of the option labelled `key`. */
  function Lookup(opts: seq<Entry>, key: string): (r: Option<Node>)
    ensures r.None? <==> key !in Labels(opts)
    ensures r.Some? ==> exists i | 0 <= i < |opts| :: opts[i] == Entry(key, r.value)
  {
    if opts == [] then None
    else if opts[0].key == key then (assert opts[0] == Entry(key, opts[0].node); Some(opts[0].node))
    else
      var r := Lookup(opts[1..], key);
      assert Labels(opts) == [opts[0].key] + Labels(opts[1..]);
      if r.Some? then
        var i :| 0 <= i < |opts[1..]| && opts[1..][i] == Entry(key, r.value);
        assert opts[i + 1] == Entry(key, r.value);
        r
      else r
  }

  /** In a dictionary, the option labelled `opts[i].key` is `opts[i]`. */
  lemma LookupUnique(opts: seq<Entry>, i: nat)
    requires UniqueLabels(opts) && i < |opts|
    ensures Lookup(opts, opts[i].key) == Some(opts[i].node)
  {
    if i > 0 {
      assert opts[0].key != opts[i].key;
      assert UniqueLabels(opts[1..]) by {
        forall a, b | 0 <= a < b < |opts[1..]| ensures opts[1..][a].key != opts[1..][b].key {
          assert opts[1..][a] == opts[a + 1] && opts[1..][b] == opts[b + 1];
        }
      }
      LookupUnique(opts[1..], i - 1);
    }
  }

  /** The options a search or a walk sees at `n`: its "opciones", or
      none when the node has no such key. */
  function Kids(n: Node): (opts: seq<Entry>)
    ensures !n.hasOpciones ==> opts == []
    ensures n.hasOpciones ==> opts == n.opciones
  {
    if n.hasOpciones then n.opciones else []
  }

  /** `n["opciones"][key]` when `n` has "opciones" holding `key`. */
  function Child(n: Node, key: string): (r: Option<Node>)
    ensures r.Some? <==> n.hasOpciones && key in Labels(n.opciones)
    ensures r.Some? ==> exists i | 0 <= i < |n.opciones| :: n.opciones[i] == Entry(key, r.value)
  {
    if n.hasOpciones then Lookup(n.opciones, key) else None
  }

  /** `c` is the node of one of `p`'s options. */
  predicate IsChild(p: Node, c: Node) {
    p.hasOpciones && exists i | 0 <= i < |p.opciones| :: p.opciones[i].node == c
  }

  /** Following an option leads to a child. */
  lemma ChildIsChild(n: Node, key: string)
    requires Child(n, key).Some?
    ensures IsChild(n, Child(n, key).value)
  {
    var i :| 0 <= i < |n.opciones| && n.opciones[i] == Entry(key, Child(n, key).value);
    assert n.opciones[i].node == Child(n, key).value;
  }

  /** The node an empty dictionary `{}` stands for. */
  const Empty := Node(map[], false, [])

  /** `opts[key] = node`: an existing key keeps its place and takes the new
      node, a new key goes last. */
  function Put(opts: seq<Entry>, key: string, node: Node): (r: seq<Entry>)
    ensures key in Labels(opts) ==> Labels(r) == Labels(opts)
    ensures key !in Labels(opts) ==> Labels(r) == Labels(opts) + [key]
    ensures forall i | 0 <= i < |opts| && opts[i].key != key :: r[i] == opts[i]
    ensures exists i | 0 <= i < |r| :: r[i] == Entry(key, node)
  {
    var k := Find(opts, key);
    if k < |opts| then
      assert key in Labels(opts) by { assert Labels(opts)[k] == key; }
      var r := opts[k := Entry(key, node)];
      assert Labels(r) == Labels(opts);
      assert r[k] == Entry(key, node);
      r
    else
      assert key !in Labels(opts);
      var r := opts + [Entry(key, node)];
      assert Labels(r) == Labels(opts) + [key];
      assert r[|opts|] == Entry(key, node);
      r
  }

  /** Setting a key keeps a dictionary a dictionary, and reading the key
      back gives the node just stored. */
  lemma PutLookup(opts: seq<Entry>, key: string, node: Node)
    requires UniqueLabels(opts)
    ensures UniqueLabels(Put(opts, key, node))
    ensures Lookup(Put(opts, key, node), key) == Some(node)
  {
    var r := Put(opts, key, node);
    var k := Find(opts, key);
    assert forall i | 0 <= i < |r| :: r[i].key == Labels(r)[i];
    if k < |opts| {
      assert key in Labels(opts) by { assert Labels(opts)[k] == key; }
      assert forall i | 0 <= i < |r| :: r[i].key == opts[i].key;
      assert r[k] == Entry(key, node);
      LookupUnique(r, k);
    } else {
      assert key !in Labels(opts);
      assert forall i | 0 <= i < |opts| :: opts[i].key == Labels(opts)[i];
      assert r[|opts|] == Entry(key, node);
      LookupUnique(r, |opts|);
    }
  }

  /** Every option entry below `opts`, in the order a depth-first search
      meets them: each option, then the entries below its node (when that
      node has "opciones"), then the later options. */
  function Flat(opts: seq<Entry>): (es: seq<Entry>)
    ensures |es| >= |opts|
    decreases opts
  {
    if opts == [] then []
    else
      assert opts[0] in opts;
      var child := opts[0].node;
      [opts[0]] + (if child.hasOpciones then Flat(child.opciones) else []) + Flat(opts[1..])
  }

  /** Every option entry below a node. */
  function Below(n: Node): seq<Entry> {
    Flat(Kids(n))
  }

  /** The entries below one option list are that list's first entry, the
      entries below its node, and the entries below the rest. */
  lemma FlatCons(opts: seq<Entry>)
    requires opts != []
    ensures Flat(opts) == [opts[0]] + Below(opts[0].node) + Flat(opts[1..])
  {
  }

  /** The entries below a concatenation of option lists. */
  lemma {:induction false} FlatAppend(a: seq<Entry>, b: seq<Entry>)
    ensures Flat(a + b) == Flat(a) + Flat(b)
    decreases a
  {
    if a != [] {
      assert (a + b)[0] == a[0];
      assert (a + b)[1..] == a[1..] + b;
      FlatAppend(a[1..], b);
    } else {
      assert a + b == b;
    }
  }

  /** The position of the first entry labelled `key`, or `|es|` when none
      is. */
  function Find(es: seq<Entry>, key: string): (k: nat)
    ensures k <= |es|
    ensures k < |es| ==> es[k].key == key
    ensures forall i | 0 <= i < k :: es[i].key != key
  {
    if es == [] then 0
    else if es[0].key == key then 0
    else 1 + Find(es[1..], key)
  }

  /** The answers `path` picks, one option per step, from `n`; `None` when
      some step names no option. */
  function Follow(n: Node, path: seq<string>): (r: Option<Node>)
    decreases |path|
  {
    if path == [] then Some(n)
    else
      var c := Child(n, path[0]);
      if c.None? then None else Follow(c.value, path[1..])
  }

  /** Every node below `opts` that carries a "resultado", as the option
      labels leading to it and the text of that "resultado", in depth-first
      order. */
  function Outcomes(opts: seq<Entry>): (rs: seq<(seq<string>, string)>)
    decreases opts
  {
    if opts == [] then []
    else
      assert opts[0] in opts;
      var e := opts[0];
      var deeper := if e.node.hasOpciones then Outcomes(e.node.opciones) else [];
      Own(e) + Prefixed(e.key, deeper) + Outcomes(opts[1..])
  }

  /** The outcome at an option's own node, if it carries a "resultado". */
  function Own(e: Entry): (rs: seq<(seq<string>, string)>) {
    if "resultado" in e.node.text then [([e.key], e.node.text["resultado"])] else []
  }

  /** Each outcome with `key` put in front of its path. */
  function Prefixed(key: string, rs: seq<(seq<string>, string)>): (ps: seq<(seq<string>, string)>)
    ensures |ps| == |rs|
    ensures forall i | 0 <= i < |rs| :: ps[i] == ([key] + rs[i].0, rs[i].1)
  {
    if rs == [] then [] else [([key] + rs[0].0, rs[0].1)] + Prefixed(key, rs[1..])
  }

  /** The outcomes below a non-empty option list, split at its first
      option. */
  lemma OutcomesCons(opts: seq<Entry>)
    requires opts != []
    ensures Outcomes(opts) == Own(opts[0]) + Nested(opts[0]) + Outcomes(opts[1..])
  {
  }

  /** The outcomes below an option's node, each behind that option. */
  function Nested(e: Entry): seq<(seq<string>, string)> {
    Prefixed(e.key, if e.node.hasOpciones then Outcomes(e.node.opciones) else [])
  }

  /** The outcomes below a two-option list. */
  lemma OutcomesOfPair(a: Entry, b: Entry)
    ensures Outcomes([a, b]) == Own(a) + Nested(a) + (Own(b) + Nested(b))
  {
    OutcomesCons([a, b]);
    assert [a, b][1..] == [b];
    OutcomesCons([b]);
    assert [b][1..] == [];
    var y := Outcomes([b]);
    assert y == Own(b) + Nested(b) + [];
    assert Own(b) + Nested(b) + [] == Own(b) + Nested(b);
  }

  /** Putting a label in front of two outcomes. */
  lemma PrefixedTwo(key: string, p1: seq<string>, r1: string, p2: seq<string>, r2: string)
    ensures Prefixed(key, [(p1, r1), (p2, r2)]) == [([key] + p1, r1), ([key] + p2, r2)]
  {
  }

  /** Putting a label in front of three outcomes. */
  lemma PrefixedThree(key: string, a: (seq<string>, string), b: (seq<string>, string), c: (seq<string>, string))
    ensures Prefixed(key, [a, b, c]) == [([key] + a.0, a.1), ([key] + b.0, b.1), ([key] + c.0, c.1)]
  {
    assert [a, b, c][1..] == [b, c];
    PrefixedTwo(key, b.0, b.1, c.0, c.1);
  }

  /** Putting a label in front of four outcomes. */
  lemma PrefixedFour(key: string, a: (seq<string>, string), b: (seq<string>, string),
                     c: (seq<string>, string), d: (seq<string>, string))
    ensures Prefixed(key, [a, b, c, d])
      == [([key] + a.0, a.1), ([key] + b.0, b.1), ([key] + c.0, c.1), ([key] + d.0, d.1)]
  {
    assert [a, b, c, d][1..] == [b, c, d];
    PrefixedThree(key, b, c, d);
  }

  /** A label put in front of a path of one or two labels. */
  lemma InFront(key: string, x: string, y: string)
    ensures [key] + [x] == [key, x]
    ensures [key] + [x, y] == [key, x, y]
  {
  }

  /** Three outcomes followed by four. */
  lemma JoinThreeFour<T>(a: T, b: T, c: T, d: T, e: T, f: T, g: T)
    ensures [a, b, c] + [d, e, f, g] == [a, b, c, d, e, f, g]
  {
  }

  /** Each of `opts` is what its label leads to from `n`. */
  predicate Leads(n: Node, opts: seq<Entry>) {
    forall e | e in opts :: Child(n, e.key) == Some(e.node)
  }

  /** In a dictionary, every option is what its label leads to. */
  lemma KidsLead(n: Node)
    requires UniqueLabels(Kids(n))
    ensures Leads(n, Kids(n))
  {
    forall e | e in Kids(n) ensures Child(n, e.key) == Some(e.node) {
      var j :| 0 <= j < |Kids(n)| && Kids(n)[j] == e;
      LookupUnique(Kids(n), j);
    }
  }

  /** One step of a walk: answering `key` first, then `rest`. */
  lemma FollowCons(n: Node, key: string, rest: seq<string>)
    requires Child(n, key).Some?
    ensures Follow(n, [key] + rest) == Follow(Child(n, key).value, rest)
  {
    assert ([key] + rest)[0] == key && ([key] + rest)[1..] == rest;
  }

  /** The node of a dictionary option is itself a tree of dictionaries,
      smaller than its parent. */
  lemma ChildDictionaries(n: Node, key: string)
    requires Dictionaries(n) && Child(n, key).Some?
    ensures Child(n, key).value < n
    ensures Dictionaries(Child(n, key).value) && UniqueLabels(Kids(Child(n, key).value))
  {
    var j :| 0 <= j < |n.opciones| && n.opciones[j] == Entry(key, Child(n, key).value);
    assert n.opciones[j] in n.opciones;
  }

  /** Every outcome listed below a tree of dictionaries is reached by
      answering along its path, and shows its "resultado" there. */
  lemma {:induction false} OutcomesReached(n: Node, opts: seq<Entry>, i: nat)
    requires Dictionaries(n) && Leads(n, opts)
    requires i < |Outcomes(opts)|
    ensures Reaches(n, Outcomes(opts)[i])
    decreases n, |opts|, 1
  {
    var e := opts[0];
    var front := Own(e) + Nested(e);
    var tail := Outcomes(opts[1..]);
    OutcomesCons(opts);
    if i < |front| {
      FrontReached(n, opts, i);
      assert Outcomes(opts)[i] == front[i];
    } else {
      LeadsTail(n, opts);
      OutcomesReached(n, opts[1..], i - |front|);
      assert Outcomes(opts)[i] == tail[i - |front|];
    }
  }

  /** The outcomes listed for the first option are reached. */
  lemma {:induction false} FrontReached(n: Node, opts: seq<Entry>, i: nat)
    requires Dictionaries(n) && opts != [] && Leads(n, opts)
    requires i < |Own(opts[0]) + Nested(opts[0])|
    ensures Reaches(n, (Own(opts[0]) + Nested(opts[0]))[i])
    decreases n, |opts|, 0
  {
    var e := opts[0];
    if i < |Own(e)| {
      OutcomeHere(n, opts);
    } else {
      var d := i - |Own(e)|;
      OutcomeDeeper(n, opts, d);
      assert (Own(e) + Nested(e))[i] == Nested(e)[d];
    }
  }

  /** The options after the first still lead where they say. */
  lemma LeadsTail(n: Node, opts: seq<Entry>)
    requires opts != [] && Leads(n, opts)
    ensures Leads(n, opts[1..])
  {
    forall x | x in opts[1..] ensures Child(n, x.key) == Some(x.node) {
      assert x in opts;
    }
  }

  /** An option whose own node carries a "resultado" is one answer away. */
  lemma OutcomeHere(n: Node, opts: seq<Entry>)
    requires opts != [] && Leads(n, opts)
    ensures forall i | 0 <= i < |Own(opts[0])| :: Reaches(n, Own(opts[0])[i])
  {
    var e := opts[0];
    assert Child(n, e.key) == Some(e.node);
    FollowCons(n, e.key, []);
    assert [e.key] + [] == [e.key];
  }

  /** An outcome below an option's node is reached through that option. */
  lemma {:induction false} OutcomeDeeper(n: Node, opts: seq<Entry>, d: nat)
    requires Dictionaries(n) && opts != [] && Leads(n, opts) && opts[0].node.hasOpciones
    requires d < |Outcomes(opts[0].node.opciones)|
    ensures var o := Outcomes(opts[0].node.opciones)[d];
      Reaches(n, ([opts[0].key] + o.0, o.1))
    decreases n, 0
  {
    var e := opts[0];
    assert Child(n, e.key) == Some(e.node);
    var o := Outcomes(e.node.opciones)[d];
    ChildDictionaries(n, e.key);
    KidsLead(e.node);
    OutcomesReached(e.node, Kids(e.node), d);
    FollowCons(n, e.key, o.0);
  }

  /** Answering along `o.0` from `n` ends at a node whose "resultado" is
      `o.1`. */
  predicate Reaches(n: Node, o: (seq<string>, string)) {
    var m := Follow(n, o.0);
    m.Some? && "resultado" in m.value.text && m.value.text["resultado"] == o.1
  }

  /** Every option list in the tree is a dictionary: its labels are
      distinct. */
  predicate Dictionaries(n: Node)
    decreases n
  {
    UniqueLabels(n.opciones) && forall e | e in n.opciones :: Dictionaries(e.node)
  }
}
