/** The three `MotorDeInferencia` navigators of the Hippoidea key. Each keeps
    the nodes visited so far as a history, which the web page holds between
    reruns and which is threaded here as an explicit value:
    `src/motor_de_inferencia.py` keeps the root as the first entry, and
    `src/core/motor_de_inferencia.py` keeps only the nodes below the root. */
module Navigators {
  import opened Wrappers
  import opened KbTree

  /** The last entry of a history. */
  function Last(h: seq<Node>): Node
    requires h != []
  {
    h[|h| - 1]
  }

  /** Every entry after the first is one of its predecessor's options. */
  predicate Linked(h: seq<Node>) {
    forall i | 1 <= i < |h| :: IsChild(h[i - 1], h[i])
  }

  /** A history rooted at `kb`: it starts at the root and steps from node
      to option node. */
  predicate Chained(kb: Node, h: seq<Node>) {
    h != [] && h[0] == kb && Linked(h)
  }

  /** The constructor: a page without a history starts one holding the
      root; a history already kept between reruns is left as it is. */
  function Open(kb: Node, kept: Option<seq<Node>>): (h: seq<Node>)
    ensures kept.None? ==> Chained(kb, h) && |h| == 1
    ensures kept.Some? ==> h == kept.value
  {
    if kept.Some? then kept.value else [kb]
  }

  /** `obtener_actual`: the node shown is the last one visited. */
  function Current(h: seq<Node>): (n: Node)
    requires h != []
    ensures n in h
  {
    Last(h)
  }

  /** `procesar(opcion)`: when the shown node has "opciones" holding
      `opcion`, that option's node is visited next; otherwise (a result,
      an unknown label) nothing happens. */
  function Advance(h: seq<Node>, opcion: string): (r: seq<Node>)
    requires h != []
    ensures |r| == |h| + 1 <==> Last(h).hasOpciones && opcion in Labels(Last(h).opciones)
    ensures |r| != |h| + 1 ==> r == h
    ensures |r| == |h| + 1 ==> r[..|h|] == h && Child(Last(h), opcion) == Some(Last(r))
  {
    var c := Child(Last(h), opcion);
    if c.Some? then h + [c.value] else h
  }

  /** `atras`: the last visit is undone, except that the root is never
      removed. */
  function Back(h: seq<Node>): (r: seq<Node>)
    requires h != []
    ensures r != [] && r[0] == h[0]
    ensures |h| > 1 ==> h == r + [Last(h)]
    ensures |h| == 1 ==> r == h
  {
    if |h| > 1 then h[..|h| - 1] else h
  }

  /** `reiniciar`: back to the root alone. */
  function Restart(kb: Node): (h: seq<Node>)
    ensures Chained(kb, h) && Current(h) == kb && |h| == 1
  {
    [kb]
  }

  /** Answering keeps a history rooted and linked. */
  lemma AdvanceChained(kb: Node, h: seq<Node>, opcion: string)
    requires Chained(kb, h)
    ensures Chained(kb, Advance(h, opcion))
  {
    var r := Advance(h, opcion);
    if |r| == |h| + 1 {
      ChildIsChild(Last(h), opcion);
      assert r[|h| - 1] == Last(h);
      forall i | 1 <= i < |r| ensures IsChild(r[i - 1], r[i]) {
        if i < |h| {
          assert r[i - 1] == h[i - 1] && r[i] == h[i];
        }
      }
    }
  }

  /** Going back keeps a history rooted and linked. */
  lemma BackChained(kb: Node, h: seq<Node>)
    requires Chained(kb, h)
    ensures Chained(kb, Back(h))
  {
    var r := Back(h);
    forall i | 1 <= i < |r| ensures IsChild(r[i - 1], r[i]) {
      assert r[i - 1] == h[i - 1] && r[i] == h[i];
    }
  }

  /** Going back right after an answer that moved returns to the history
      before it. */
  lemma AdvanceThenBack(h: seq<Node>, opcion: string)
    requires h != [] && Child(Last(h), opcion).Some?
    ensures Back(Advance(h, opcion)) == h
  {
  }

  /** Answering again with the label just undone returns to where the
      session was. */
  lemma BackThenAdvance(h: seq<Node>, opcion: string)
    requires |h| > 1 && Child(h[|h| - 2], opcion) == Some(Last(h))
    ensures Advance(Back(h), opcion) == h
  {
    var r := Back(h);
    assert Last(r) == h[|h| - 2];
  }

  /** `obtener_actual` of the second navigator: the root while nothing
      has been visited, else the last node visited. */
  function CoreCurrent(kb: Node, h: seq<Node>): (n: Node)
    ensures n == kb || n in h
  {
    if h == [] then kb else Last(h)
  }

  /** `procesar(opcion)` of the second navigator. */
  function CoreAdvance(kb: Node, h: seq<Node>, opcion: string): (r: seq<Node>)
    ensures Child(CoreCurrent(kb, h), opcion).Some? ==> r == h + [Child(CoreCurrent(kb, h), opcion).value]
    ensures Child(CoreCurrent(kb, h), opcion).None? ==> r == h
  {
    var c := Child(CoreCurrent(kb, h), opcion);
    if c.Some? then h + [c.value] else h
  }

  /** `atras` of the second navigator: any visit can be undone, back to
      the root. */
  function CoreBack(h: seq<Node>): (r: seq<Node>)
    ensures h != [] ==> h == r + [Last(h)]
    ensures h == [] ==> r == []
  {
    if |h| > 0 then h[..|h| - 1] else h
  }

  /** `reiniciar` of the second navigator. */
  function CoreRestart(): (h: seq<Node>)
    ensures |h| == 0
  {
    []
  }

  /** The second navigator is the first with the root left out of its
      history: putting `kb` in front turns every one of its operations into
      the first navigator's. */
  lemma CoreIsRooted(kb: Node, h: seq<Node>, opcion: string)
    ensures CoreCurrent(kb, h) == Current([kb] + h)
    ensures [kb] + CoreAdvance(kb, h, opcion) == Advance([kb] + h, opcion)
    ensures [kb] + CoreBack(h) == Back([kb] + h)
    ensures [kb] + CoreRestart() == Restart(kb)
  {
    var c := Child(CoreCurrent(kb, h), opcion);
    if c.Some? {
      assert [kb] + (h + [c.value]) == ([kb] + h) + [c.value];
    }
    if h != [] {
      assert [kb] + h[..|h| - 1] == ([kb] + h)[..|h|];
    }
  }

  /** The second navigator's history is linked from the root: its first
      entry is an option of the root, and so on. */
  lemma CoreChained(kb: Node, h: seq<Node>, opcion: string)
    requires Chained(kb, [kb] + h)
    ensures Chained(kb, [kb] + CoreAdvance(kb, h, opcion))
    ensures Chained(kb, [kb] + CoreBack(h))
  {
    CoreIsRooted(kb, h, opcion);
    AdvanceChained(kb, [kb] + h, opcion);
    BackChained(kb, [kb] + h);
  }

  /** In the second navigator too, going back after an answer that moved
      undoes it, and going back from the root alone does nothing. */
  lemma CoreAdvanceThenBack(kb: Node, h: seq<Node>, opcion: string)
    requires Child(CoreCurrent(kb, h), opcion).Some?
    ensures CoreBack(CoreAdvance(kb, h, opcion)) == h
    ensures CoreBack(CoreRestart()) == CoreRestart()
  {
    var r := CoreAdvance(kb, h, opcion);
    assert r[..|r| - 1] == h;
  }

  /** Answering `path`, one label after another. */
  function Replay(h: seq<Node>, path: seq<string>): (r: seq<Node>)
    requires h != []
    ensures r != [] && |r| >= |h|
    decreases |path|
  {
    if path == [] then h else Replay(Advance(h, path[0]), path[1..])
  }

  /** Answering along a path that exists in the tree visits one node per
      answer and ends at the node the path leads to. */
  lemma {:induction false} ReplayFollows(h: seq<Node>, path: seq<string>)
    requires h != [] && Follow(Last(h), path).Some?
    ensures |Replay(h, path)| == |h| + |path|
    ensures Last(Replay(h, path)) == Follow(Last(h), path).value
    decreases |path|
  {
    if path != [] {
      var c := Child(Last(h), path[0]);
      assert c.Some?;
      var h2 := Advance(h, path[0]);
      assert h2 == h + [c.value];
      assert Last(h2) == c.value;
      ReplayFollows(h2, path[1..]);
    }
  }
}
