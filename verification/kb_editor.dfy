/** The knowledge-base editors of the Hippoidea key (`src/editar_kb.py` and
    the editing page `src/ui/pages/editar_kb.py`): a depth-first search for
    the first option (or question) that matches, and the change made there;
    the root question built from typed lines; the catalogue of questions the
    page offers as parents; and the insertion of a new question. The session
    state that holds the tree is replaced by the tree value itself. */
module KbEditor {
  import opened Wrappers
  import opened KbTree
  import Text

  // ---------------------------------------------------------------------
  // Lines typed into a text area
  // ---------------------------------------------------------------------

  /** The characters Python's `str.splitlines` breaks a line at. */
  predicate LineBreak(c: char) {
    c == '\n' || c == '\r' || c == '\U{0B}' || c == '\U{0C}' || c == '\U{1C}' || c == '\U{1D}'
    || c == '\U{1E}' || c == '\U{85}' || c == '\U{2028}' || c == '\U{2029}'
  }

  /** A text with no line break in it. */
  predicate OneLine(s: string) {
    forall j | 0 <= j < |s| :: !LineBreak(s[j])
  }

  /** The position of the first line break of `s`, or `|s|`. */
  function BreakAt(s: string): (i: nat)
    ensures i <= |s| && OneLine(s[..i])
    ensures i < |s| ==> LineBreak(s[i])
  {
    if s == [] then 0
    else if LineBreak(s[0]) then 0
    else
      var i := 1 + BreakAt(s[1..]);
      assert forall j | 1 <= j < i :: s[..i][j] == s[1..][..i - 1][j - 1];
      i
  }

  /** `str.splitlines()`: the lines of `s` without their breaks; "\r\n"
      ends one line, and a final break does not start an empty line. */
  function SplitLines(s: string): (ls: seq<string>)
    ensures forall k | 0 <= k < |ls| :: OneLine(ls[k])
    decreases |s|
  {
    if s == [] then []
    else
      var i := BreakAt(s);
      if i == |s| then
        assert s[..i] == s;
        [s]
      else
        var w := if s[i] == '\r' && i + 1 < |s| && s[i + 1] == '\n' then 2 else 1;
        [s[..i]] + SplitLines(s[i + w..])
  }

  /** The lines written one after another, each ended by "\n". */
  function JoinLines(ls: seq<string>): string {
    if ls == [] then [] else ls[0] + "\n" + JoinLines(ls[1..])
  }

  /** Splitting the text of some lines gives those lines back. */
  lemma {:induction false} SplitJoin(ls: seq<string>)
    requires forall k | 0 <= k < |ls| :: OneLine(ls[k])
    ensures SplitLines(JoinLines(ls)) == ls
  {
    if ls != [] {
      var s := JoinLines(ls);
      var l := ls[0];
      assert s == l + ("\n" + JoinLines(ls[1..]));
      BreakOfLine(l, "\n" + JoinLines(ls[1..]));
      assert s[|l|] == '\n';
      assert s[..|l|] == l;
      assert s[|l| + 1..] == JoinLines(ls[1..]);
      SplitJoin(ls[1..]);
      assert ls == [l] + ls[1..];
    }
  }

  /** The first break of a line followed by a text starting with a break
      is the one at the end of the line. */
  lemma {:induction false} BreakOfLine(l: string, rest: string)
    requires OneLine(l) && rest != [] && LineBreak(rest[0])
    ensures BreakAt(l + rest) == |l|
    decreases |l|
  {
    if l != [] {
      assert (l + rest)[1..] == l[1..] + rest;
      BreakOfLine(l[1..], rest);
    } else {
      assert l + rest == rest;
    }
  }

  /** Each line stripped of surrounding whitespace. */
  function Stripped(ls: seq<string>): (r: seq<string>)
    ensures |r| == |ls|
    ensures forall k | 0 <= k < |ls| :: r[k] == Text.Strip(ls[k])
  {
    seq(|ls|, k requires 0 <= k < |ls| => Text.Strip(ls[k]))
  }

  /** The non-empty lines, in order. */
  function NonBlank(ls: seq<string>): (r: seq<string>)
    ensures forall x :: x in r <==> x in ls && x != ""
    ensures |r| <= |ls|
  {
    if ls == [] then []
    else if ls[0] == "" then NonBlank(ls[1..])
    else [ls[0]] + NonBlank(ls[1..])
  }

  /** The distinct values of `ls` in the order they first appear: the keys
      a Python dict built from `ls` ends up with. */
  function Distinct(ls: seq<string>): (r: seq<string>)
    ensures forall x :: x in r <==> x in ls
    ensures forall i, j | 0 <= i < j < |r| :: r[i] != r[j]
    decreases |ls|
  {
    if ls == [] then []
    else
      var d := Distinct(ls[..|ls| - 1]);
      var x := ls[|ls| - 1];
      assert forall y :: y in ls <==> y in ls[..|ls| - 1] || y == x by {
        assert ls == ls[..|ls| - 1] + [x];
      }
      if x in d then d else d + [x]
  }

  /** Adding values at the end only adds keys after the existing ones, so
      the keys stay in first-appearance order. */
  lemma {:induction false} DistinctPrefix(ls: seq<string>, n: nat)
    requires n <= |ls|
    ensures Distinct(ls[..n]) <= Distinct(ls)
    decreases |ls| - n
  {
    if n < |ls| {
      DistinctPrefix(ls, n + 1);
      assert ls[..n + 1][..n] == ls[..n];
    } else {
      assert ls[..n] == ls;
    }
  }

  /** An option list whose labels are `ls`, each leading to an empty
      dictionary. */
  function Blanks(ls: seq<string>): (opts: seq<Entry>)
    ensures Labels(opts) == ls
    ensures forall k | 0 <= k < |opts| :: opts[k].node == Empty
  {
    var opts := seq(|ls|, k requires 0 <= k < |ls| => Entry(ls[k], Empty));
    assert Labels(opts) == ls;
    opts
  }

  /** Entries with no subtree of their own have no entries below them. */
  lemma {:induction false} FlatOfBlanks(opts: seq<Entry>)
    requires forall k | 0 <= k < |opts| :: opts[k].node == Empty
    ensures Flat(opts) == opts
    decreases opts
  {
    if opts != [] {
      FlatCons(opts);
      FlatOfBlanks(opts[1..]);
      assert opts == [opts[0]] + opts[1..];
    }
  }

  /** `{o.strip(): {} for o in text.splitlines()}`: one option per distinct
      stripped line, a blank line giving the empty label. */
  function LineOptions(text: string): (opts: seq<Entry>)
    ensures UniqueLabels(opts)
    ensures forall x :: x in Labels(opts) <==> x in Stripped(SplitLines(text))
    ensures Flat(opts) == opts
  {
    var opts := Blanks(Distinct(Stripped(SplitLines(text))));
    FlatOfBlanks(opts);
    opts
  }

  /** The root creation's `{o.strip(): {} for o in lines if o.strip()}`:
      blank lines are dropped. */
  function RootOptions(text: string): (opts: seq<Entry>)
    ensures UniqueLabels(opts)
    ensures forall x :: x in Labels(opts) <==> x in Stripped(SplitLines(text)) && x != ""
    ensures Flat(opts) == opts
  {
    var opts := Blanks(Distinct(NonBlank(Stripped(SplitLines(text)))));
    FlatOfBlanks(opts);
    opts
  }

  /** A text area holding one blank line offers the empty option when a
      question is created under an option, but not at the root. */
  lemma BlankLineOption(lines: seq<string>)
    requires forall k | 0 <= k < |lines| :: OneLine(lines[k])
    requires "" in lines
    ensures "" in Labels(LineOptions(JoinLines(lines)))
    ensures "" !in Labels(RootOptions(JoinLines(lines)))
  {
    BlankLineStripped(lines);
  }

  /** The blank line survives splitting and stripping. */
  lemma BlankLineStripped(lines: seq<string>)
    requires forall k | 0 <= k < |lines| :: OneLine(lines[k])
    requires "" in lines
    ensures "" in Stripped(SplitLines(JoinLines(lines)))
  {
    SplitJoin(lines);
    var k :| 0 <= k < |lines| && lines[k] == "";
    assert Stripped(lines)[k] == Text.Strip("") == "";
  }

  // ---------------------------------------------------------------------
  // Depth-first search and edit
  // ---------------------------------------------------------------------

  /** What an edit looks for: an option with a given label
      (`buscar_y_asignar`, `buscar_y_crear`), or a node asking a given
      question (`insertar_nodo`). */
  datatype Target = Labelled(option: string) | Asking(question: string)

  /** Whether the entry is the one the search looks for. */
  predicate Hits(t: Target, e: Entry) {
    match t
    case Labelled(o) => e.key == o
    case Asking(p) => "pregunta" in e.node.text && e.node.text["pregunta"] == p
  }

  /** The change made to the node found: set its "resultado", give it a new
      question and options, or set one of its options. */
  datatype Change =
    | SetResult(especie: string)
    | Reshape(pregunta: string, opciones: seq<Entry>)
    | PutOption(opcion: string, nueva: Node)

  /** Setting an option needs the node to have "opciones"; Python raises
      `KeyError` otherwise. */
  predicate Applicable(c: Change, n: Node) {
    !c.PutOption? || n.hasOpciones
  }

  /** The node after the change. */
  function Apply(c: Change, n: Node): (m: Node)
    ensures c.SetResult? ==> m.opciones == n.opciones && m.hasOpciones == n.hasOpciones
    ensures c.Reshape? ==> m.hasOpciones && m.opciones == c.opciones
    ensures c.PutOption? ==> m.text == n.text && m.hasOpciones == n.hasOpciones
    ensures "pregunta" in n.text && !c.Reshape? ==> "pregunta" in m.text && m.text["pregunta"] == n.text["pregunta"]
  {
    match c
    case SetResult(s) => n.(text := n.text["resultado" := s])
    case Reshape(p, opts) => Node(n.text["pregunta" := p], true, opts)
    case PutOption(l, m) => n.(opciones := Put(n.opciones, l, m))
  }

  /** The outcome of a search: nothing matched, the edited value, or the
      exception raised at the node found. */
  datatype Search<T> = Missed | Hit(value: T) | Fault

  /** The search over an option list in Python's iteration order: each
      option is tested, then the entries below it when its node has
      "opciones", then the later options. The first match is changed and
      the search stops. */
  function EditOpts(opts: seq<Entry>, t: Target, c: Change): (r: Search<seq<Entry>>)
    decreases opts
  {
    if opts == [] then Missed
    else
      assert opts[0] in opts;
      var e := opts[0];
      if Hits(t, e) then
        if Applicable(c, e.node) then Hit([Entry(e.key, Apply(c, e.node))] + opts[1..]) else Fault
      else
        var below := if e.node.hasOpciones then EditOpts(e.node.opciones, t, c) else Missed;
        match below
        case Hit(kids) => Hit([Entry(e.key, e.node.(opciones := kids))] + opts[1..])
        case Fault => Fault
        case Missed =>
          match EditOpts(opts[1..], t, c)
          case Hit(later) => Hit([e] + later)
          case Fault => Fault
          case Missed => Missed
  }

  /** The position of the first entry the search looks for, or `|es|`. */
  function FirstHit(es: seq<Entry>, t: Target): nat {
    if es == [] then 0
    else if Hits(t, es[0]) then 0
    else 1 + FirstHit(es[1..], t)
  }

  /** The first match is a match, and no earlier entry is one; the
      position is `|es|` exactly when nothing matches. */
  lemma {:induction false} FirstHitIsFirst(es: seq<Entry>, t: Target)
    ensures FirstHit(es, t) <= |es|
    ensures FirstHit(es, t) < |es| ==> Hits(t, es[FirstHit(es, t)])
    ensures forall i | 0 <= i < FirstHit(es, t) :: !Hits(t, es[i])
    decreases |es|
  {
    if es != [] && !Hits(t, es[0]) {
      FirstHitIsFirst(es[1..], t);
      forall i | 1 <= i < FirstHit(es, t) ensures !Hits(t, es[i]) {
        assert es[i] == es[1..][i - 1];
      }
    }
  }

  lemma FirstHitCons(e: Entry, x: seq<Entry>, t: Target)
    ensures FirstHit([e] + x, t) == if Hits(t, e) then 0 else 1 + FirstHit(x, t)
  {
    assert ([e] + x)[1..] == x;
  }

  /** The first match in a concatenation lies in its front part when that
      part has one. */
  lemma {:induction false} FirstHitAppend(a: seq<Entry>, b: seq<Entry>, t: Target)
    ensures FirstHit(a + b, t) == if FirstHit(a, t) < |a| then FirstHit(a, t) else |a| + FirstHit(b, t)
    decreases |a|
  {
    if a != [] {
      assert a + b == [a[0]] + (a[1..] + b);
      FirstHitCons(a[0], a[1..] + b, t);
      FirstHitAppend(a[1..], b, t);
    } else {
      assert a + b == b;
    }
  }

  /** The first match lies below a first entry that does not match. */
  lemma FirstHitInside(e: Entry, b: seq<Entry>, f: seq<Entry>, t: Target)
    requires !Hits(t, e) && FirstHit(b, t) < |b|
    ensures FirstHit([e] + (b + f), t) == 1 + FirstHit(b, t)
    ensures ([e] + (b + f))[1 + FirstHit(b, t)] == b[FirstHit(b, t)]
  {
    FirstHitCons(e, b + f, t);
    FirstHitAppend(b, f, t);
    FirstHitIsFirst(b, t);
    AtMiddle(e, b, f, FirstHit(b, t));
  }

  /** The first match lies after a first entry and its subtree, neither of
      which matches. */
  lemma FirstHitAfter(e: Entry, b: seq<Entry>, f: seq<Entry>, t: Target)
    requires !Hits(t, e) && FirstHit(b, t) == |b|
    ensures FirstHit([e] + (b + f), t) == 1 + |b| + FirstHit(f, t)
    ensures FirstHit(f, t) < |f| ==> ([e] + (b + f))[1 + |b| + FirstHit(f, t)] == f[FirstHit(f, t)]
  {
    FirstHitCons(e, b + f, t);
    FirstHitAppend(b, f, t);
    if FirstHit(f, t) < |f| {
      AtBehind(e, b, f, FirstHit(f, t));
    }
  }

  /** Indexing into an entry, a middle part and a tail. */
  lemma AtMiddle<T>(e: T, b: seq<T>, f: seq<T>, i: nat)
    requires i < |b|
    ensures ([e] + (b + f))[1 + i] == b[i]
  {
  }

  lemma AtBehind<T>(e: T, b: seq<T>, f: seq<T>, i: nat)
    requires i < |f|
    ensures ([e] + (b + f))[1 + |b| + i] == f[i]
  {
  }

  lemma Regroup(e: Entry, b: seq<Entry>, f: seq<Entry>)
    ensures ([e] + b) + f == [e] + (b + f)
  {
  }

  /** An entry without its subtree: label, texts and whether it has
      "opciones". */
  function Shallow(e: Entry): (string, map<string, string>, bool) {
    (e.key, e.node.text, e.node.hasOpciones)
  }

  /** The number of entries an entry and its subtree take in pre-order. */
  function Span(e: Entry): nat {
    1 + |Below(e.node)|
  }

  /** `rs` is `es` with the entry at `k` changed by `c` in place: every
      earlier entry keeps its label and texts, the entry at `k` is the
      changed node, and everything after its subtree is untouched. */
  predicate Replaced(es: seq<Entry>, rs: seq<Entry>, k: nat, c: Change) {
    k < |es| && k < |rs|
    && (forall i | 0 <= i < k :: Shallow(rs[i]) == Shallow(es[i]))
    && rs[k] == Entry(es[k].key, Apply(c, es[k].node))
    && k + Span(es[k]) <= |es| && k + Span(rs[k]) <= |rs|
    && SameTail(es, rs, k + Span(es[k]), k + Span(rs[k]))
  }

  /** `rs` from `l` on is `es` from `j` on. */
  predicate SameTail<T(==)>(es: seq<T>, rs: seq<T>, j: nat, l: nat) {
    j <= |es| && l <= |rs| && rs[l..] == es[j..]
  }

  /** Changing the first option of a list. */
  lemma ReplacedHere(e: Entry, rest: seq<Entry>, c: Change)
    ensures Replaced(Flat([e] + rest), Flat([Entry(e.key, Apply(c, e.node))] + rest), 0, c)
  {
    var e2 := Entry(e.key, Apply(c, e.node));
    FlatCons([e] + rest);
    FlatCons([e2] + rest);
    assert ([e] + rest)[1..] == rest && ([e2] + rest)[1..] == rest;
    var es, rs := Flat([e] + rest), Flat([e2] + rest);
    assert es == [e] + Below(e.node) + Flat(rest);
    assert rs == [e2] + Below(e2.node) + Flat(rest);
    assert es[Span(e)..] == Flat(rest);
    assert rs[Span(e2)..] == Flat(rest);
  }

  /** A change in place stays one when the same entries follow. */
  lemma ReplacedAppend(es: seq<Entry>, rs: seq<Entry>, k: nat, c: Change, tail: seq<Entry>)
    requires Replaced(es, rs, k, c)
    ensures Replaced(es + tail, rs + tail, k, c)
  {
    var j, l := k + Span(es[k]), k + Span(rs[k]);
    TailsAppend(es, rs, j, l, tail);
    AtFront(es, tail, k);
    AtFront(rs, tail, k);
    forall i | 0 <= i < k ensures Shallow((rs + tail)[i]) == Shallow((es + tail)[i]) {
      assert (rs + tail)[i] == rs[i] && (es + tail)[i] == es[i];
    }
  }

  /** A change in place stays one when entries with the same outline come
      first. */
  lemma ReplacedShift(p: seq<Entry>, p2: seq<Entry>, es: seq<Entry>, rs: seq<Entry>, k: nat, c: Change)
    requires Replaced(es, rs, k, c)
    requires |p| == |p2| && forall i | 0 <= i < |p| :: Shallow(p2[i]) == Shallow(p[i])
    ensures Replaced(p + es, p2 + rs, |p| + k, c)
  {
    var j, l := k + Span(es[k]), k + Span(rs[k]);
    TailsShift(p, p2, es, rs, j, l);
    OutlineShift(p, p2, es, rs, k);
    AtShift(p, es, k);
    AtShift(p2, rs, k);
  }

  /** Entries with the same outline before the same outline. */
  lemma OutlineShift(p: seq<Entry>, p2: seq<Entry>, es: seq<Entry>, rs: seq<Entry>, k: nat)
    requires |p| == |p2| && forall i | 0 <= i < |p| :: Shallow(p2[i]) == Shallow(p[i])
    requires k <= |es| && k <= |rs| && forall i | 0 <= i < k :: Shallow(rs[i]) == Shallow(es[i])
    ensures forall i | 0 <= i < |p| + k :: Shallow((p2 + rs)[i]) == Shallow((p + es)[i])
  {
    forall i | 0 <= i < |p| + k ensures Shallow((p2 + rs)[i]) == Shallow((p + es)[i]) {
      if i >= |p| {
        assert (p2 + rs)[i] == rs[i - |p|] && (p + es)[i] == es[i - |p|];
      } else {
        assert (p2 + rs)[i] == p2[i] && (p + es)[i] == p[i];
      }
    }
  }

  /** Indexing in front of a tail. */
  lemma AtFront<T>(s: seq<T>, tail: seq<T>, k: nat)
    requires k < |s|
    ensures k < |s + tail| && (s + tail)[k] == s[k]
  {
  }

  /** Indexing behind a front. */
  lemma AtShift<T>(p: seq<T>, s: seq<T>, k: nat)
    requires k < |s|
    ensures |p| + k < |p + s| && (p + s)[|p| + k] == s[k]
  {
  }

  /** Equal tails stay equal when the same entries follow. */
  lemma TailsAppend<T>(es: seq<T>, rs: seq<T>, j: nat, l: nat, tail: seq<T>)
    requires SameTail(es, rs, j, l)
    ensures SameTail(es + tail, rs + tail, j, l)
  {
    assert (es + tail)[j..] == es[j..] + tail;
    assert (rs + tail)[l..] == rs[l..] + tail;
  }

  /** Equal tails stay equal behind fronts of the same length. */
  lemma TailsShift<T>(p: seq<T>, p2: seq<T>, es: seq<T>, rs: seq<T>, j: nat, l: nat)
    requires |p| == |p2| && SameTail(es, rs, j, l)
    ensures SameTail(p + es, p2 + rs, |p| + j, |p| + l)
  {
    assert (p + es)[|p| + j..] == es[j..];
    assert (p2 + rs)[|p| + l..] == rs[l..];
  }

  /** The search misses exactly when no entry below `opts` matches, and
      faults exactly when the first match cannot take the change. */
  predicate FindsFirst(opts: seq<Entry>, t: Target, c: Change) {
    var es, k, r := Flat(opts), FirstHit(Flat(opts), t), EditOpts(opts, t, c);
    (r.Missed? <==> k == |es|)
    && (r.Fault? <==> k < |es| && !Applicable(c, es[k].node))
  }

  /** A successful search changes the first match in place. */
  predicate ChangesFirst(opts: seq<Entry>, t: Target, c: Change) {
    var r := EditOpts(opts, t, c);
    r.Hit? ==> Replaced(Flat(opts), Flat(r.value), FirstHit(Flat(opts), t), c)
  }

  /** The search as a change at a position of the pre-order entries: it
      misses exactly when no entry matches, faults exactly when the first
      match cannot take the change, and otherwise changes that first match
      in place. */
  lemma {:induction false} EditSpec(opts: seq<Entry>, t: Target, c: Change)
    ensures FindsFirst(opts, t, c) && ChangesFirst(opts, t, c)
    decreases opts
  {
    if opts != [] {
      assert opts[0] in opts;
      var e := opts[0];
      if Hits(t, e) {
        EditHere(opts, t, c);
      } else {
        if e.node.hasOpciones {
          EditSpec(e.node.opciones, t, c);
        }
        if e.node.hasOpciones && !EditOpts(e.node.opciones, t, c).Missed? {
          FindsInside(opts, t, c);
          ChangesInside(opts, t, c);
        } else {
          assert FirstHit(Below(e.node), t) == |Below(e.node)|;
          EditSpec(opts[1..], t, c);
          FindsAfter(opts, t, c);
          ChangesAfter(opts, t, c);
        }
      }
    }
  }

  /** The first option matches. */
  lemma EditHere(opts: seq<Entry>, t: Target, c: Change)
    requires opts != [] && Hits(t, opts[0])
    ensures FindsFirst(opts, t, c) && ChangesFirst(opts, t, c)
  {
    var e, rest := opts[0], opts[1..];
    assert opts == [e] + rest;
    FlatFront(e, rest);
    FirstHitCons(e, Below(e.node) + Flat(rest), t);
    ReplacedHere(e, rest, c);
  }

  /** One step of the search when the first option does not match but
      the search below it ends. */
  lemma StepInside(opts: seq<Entry>, t: Target, c: Change)
    requires opts != [] && !Hits(t, opts[0]) && opts[0].node.hasOpciones
    requires !EditOpts(opts[0].node.opciones, t, c).Missed?
    ensures var e, below := opts[0], EditOpts(opts[0].node.opciones, t, c);
      (below.Fault? ==> EditOpts(opts, t, c) == Fault)
      && (below.Hit? ==> EditOpts(opts, t, c) == Hit([Entry(e.key, e.node.(opciones := below.value))] + opts[1..]))
  {
  }

  /** One step of the search when nothing at or below the first option
      matches. */
  lemma StepAfter(opts: seq<Entry>, t: Target, c: Change)
    requires opts != [] && !Hits(t, opts[0])
    requires opts[0].node.hasOpciones ==> EditOpts(opts[0].node.opciones, t, c).Missed?
    ensures var r, later := EditOpts(opts, t, c), EditOpts(opts[1..], t, c);
      (r.Missed? <==> later.Missed?) && (r.Fault? <==> later.Fault?)
      && (later.Hit? ==> r == Hit([opts[0]] + later.value))
  {
  }

  /** Where the first match lies when it lies below the first option. */
  lemma PositionInside(opts: seq<Entry>, t: Target)
    requires opts != [] && !Hits(t, opts[0])
    requires FirstHit(Below(opts[0].node), t) < |Below(opts[0].node)|
    ensures var e, B, F := opts[0], Below(opts[0].node), Flat(opts[1..]);
      Flat(opts) == [e] + (B + F)
      && FirstHit(Flat(opts), t) == 1 + FirstHit(B, t)
      && Flat(opts)[1 + FirstHit(B, t)] == B[FirstHit(B, t)]
  {
    FlatSplit(opts);
    FirstHitInside(opts[0], Below(opts[0].node), Flat(opts[1..]), t);
  }

  /** The entries below an option list, split at its first option. */
  lemma FlatSplit(opts: seq<Entry>)
    requires opts != []
    ensures Flat(opts) == [opts[0]] + (Below(opts[0].node) + Flat(opts[1..]))
  {
    var e, rest := opts[0], opts[1..];
    assert opts == [e] + rest;
    FlatFront(e, rest);
    Regroup(e, Below(e.node), Flat(rest));
  }

  /** Where the first match lies when it lies after the first option and
      its subtree. */
  lemma PositionAfter(opts: seq<Entry>, t: Target)
    requires opts != [] && !Hits(t, opts[0])
    requires FirstHit(Below(opts[0].node), t) == |Below(opts[0].node)|
    ensures var B, F := Below(opts[0].node), Flat(opts[1..]);
      FirstHit(Flat(opts), t) == 1 + |B| + FirstHit(F, t)
      && (FirstHit(F, t) < |F| ==> Flat(opts)[1 + |B| + FirstHit(F, t)] == F[FirstHit(F, t)])
  {
    FlatSplit(opts);
    FirstHitAfter(opts[0], Below(opts[0].node), Flat(opts[1..]), t);
  }

  /** The first option does not match but something below it does: the
      outcome is the one below. */
  lemma FindsInside(opts: seq<Entry>, t: Target, c: Change)
    requires opts != [] && !Hits(t, opts[0]) && opts[0].node.hasOpciones
    requires FindsFirst(opts[0].node.opciones, t, c)
    requires !EditOpts(opts[0].node.opciones, t, c).Missed?
    ensures FindsFirst(opts, t, c)
  {
    StepInside(opts, t, c);
    FirstHitIsFirst(Below(opts[0].node), t);
    PositionInside(opts, t);
  }

  /** The first option does not match but something below it does: the
      change is made there. */
  lemma ChangesInside(opts: seq<Entry>, t: Target, c: Change)
    requires opts != [] && !Hits(t, opts[0]) && opts[0].node.hasOpciones
    requires FindsFirst(opts[0].node.opciones, t, c) && ChangesFirst(opts[0].node.opciones, t, c)
    requires !EditOpts(opts[0].node.opciones, t, c).Missed?
    ensures ChangesFirst(opts, t, c)
  {
    var e, rest := opts[0], opts[1..];
    var below := EditOpts(e.node.opciones, t, c);
    StepInside(opts, t, c);
    if below.Hit? {
      var B, F := Below(e.node), Flat(rest);
      FirstHitIsFirst(B, t);
      var kb := FirstHit(B, t);
      PositionInside(opts, t);
      var e2 := Entry(e.key, e.node.(opciones := below.value));
      var Y := [e2] + (Flat(below.value) + F);
      assert Replaced([e] + (B + F), Y, 1 + kb, c) by {
        EditBelow(e, e2, B, Flat(below.value), F, kb, c);
      }
      assert Flat([e2] + rest) == Y by {
        FlatFront(e2, rest);
        Regroup(e2, Flat(below.value), F);
      }
    }
  }

  /** Nothing at or below the first option matches: the outcome is the
      later options' one. */
  lemma FindsAfter(opts: seq<Entry>, t: Target, c: Change)
    requires opts != [] && !Hits(t, opts[0])
    requires opts[0].node.hasOpciones ==> EditOpts(opts[0].node.opciones, t, c).Missed?
    requires FirstHit(Below(opts[0].node), t) == |Below(opts[0].node)|
    requires FindsFirst(opts[1..], t, c)
    ensures FindsFirst(opts, t, c)
  {
    StepAfter(opts, t, c);
    PositionAfter(opts, t);
    FlatSplit(opts);
  }

  /** Nothing at or below the first option matches: the change is made in
      the later options. */
  lemma ChangesAfter(opts: seq<Entry>, t: Target, c: Change)
    requires opts != [] && !Hits(t, opts[0])
    requires opts[0].node.hasOpciones ==> EditOpts(opts[0].node.opciones, t, c).Missed?
    requires FirstHit(Below(opts[0].node), t) == |Below(opts[0].node)|
    requires ChangesFirst(opts[1..], t, c)
    ensures ChangesFirst(opts, t, c)
  {
    var later := EditOpts(opts[1..], t, c);
    StepAfter(opts, t, c);
    if later.Hit? {
      ChangedLater(opts, t, c, later.value);
    }
  }

  /** The change made in the later options is a change in place of the
      whole list's entries. */
  lemma ChangedLater(opts: seq<Entry>, t: Target, c: Change, changed: seq<Entry>)
    requires opts != [] && !Hits(t, opts[0])
    requires FirstHit(Below(opts[0].node), t) == |Below(opts[0].node)|
    requires Replaced(Flat(opts[1..]), Flat(changed), FirstHit(Flat(opts[1..]), t), c)
    ensures Replaced(Flat(opts), Flat([opts[0]] + changed), FirstHit(Flat(opts), t), c)
  {
    FlatCons(opts);
    FlatFront(opts[0], changed);
    PositionAfter(opts, t);
    ReplacedBehind([opts[0]] + Below(opts[0].node), Flat(opts[1..]), Flat(changed), Flat(opts),
      Flat([opts[0]] + changed), FirstHit(Flat(opts[1..]), t), FirstHit(Flat(opts), t), c);
  }

  /** A change in place behind a front that stays as it is. */
  lemma ReplacedBehind(front: seq<Entry>, es: seq<Entry>, rs: seq<Entry>, all: seq<Entry>, all2: seq<Entry>,
                       k: nat, kAll: nat, c: Change)
    requires Replaced(es, rs, k, c)
    requires all == front + es && all2 == front + rs && kAll == |front| + k
    ensures Replaced(all, all2, kAll, c)
  {
    ReplacedShift(front, front, es, rs, k, c);
  }

  /** The hit lies below the first option, whose subtree the edit
      changes while its label and texts stay. */
  lemma EditBelow(e: Entry, e2: Entry, below: seq<Entry>, below2: seq<Entry>, tail: seq<Entry>, k: nat, c: Change)
    requires Shallow(e2) == Shallow(e)
    requires Replaced(below, below2, k, c)
    ensures Replaced([e] + (below + tail), [e2] + (below2 + tail), 1 + k, c)
  {
    ReplacedAppend(below, below2, k, c, tail);
    ReplacedShift([e], [e2], below + tail, below2 + tail, k, c);
  }

  /** `FlatCons` for a list written as its first option and the rest. */
  lemma FlatFront(e: Entry, later: seq<Entry>)
    ensures Flat([e] + later) == ([e] + Below(e.node)) + Flat(later)
  {
    FlatCons([e] + later);
    assert ([e] + later)[1..] == later;
  }

  /** The search from a node: over its options when it has "opciones"
      (the node itself is never a match). */
  function Edit(kb: Node, t: Target, c: Change): (r: Search<Node>)
    ensures var es, k := Below(kb), FirstHit(Below(kb), t);
      (r.Missed? <==> k == |es|)
      && (r.Fault? <==> k < |es| && !Applicable(c, es[k].node))
      && (r.Hit? ==> r.value.text == kb.text && Replaced(es, Below(r.value), k, c))
  {
    EditSpec(Kids(kb), t, c);
    if kb.hasOpciones then
      match EditOpts(kb.opciones, t, c)
      case Hit(opts) => Hit(kb.(opciones := opts))
      case Fault => Fault
      case Missed => Missed
    else Missed
  }

  // ---------------------------------------------------------------------
  // src/editar_kb.py
  // ---------------------------------------------------------------------

  /** `buscar_y_asignar`: the first option labelled `opcion`, in pre-order,
      gets `especie` as its "resultado"; the answer says whether one was
      found, and the tree is unchanged when none was. */
  function Asignar(kb: Node, opcion: string, especie: string): (r: (bool, Node))
    ensures r.0 <==> exists i | 0 <= i < |Below(kb)| :: Below(kb)[i].key == opcion
    ensures !r.0 ==> r.1 == kb
    ensures r.0 ==> Replaced(Below(kb), Below(r.1), FirstHit(Below(kb), Labelled(opcion)), SetResult(especie))
  {
    FirstHitIsFirst(Below(kb), Labelled(opcion));
    match Edit(kb, Labelled(opcion), SetResult(especie))
    case Hit(m) => (true, m)
    case _ => (false, kb)
  }

  /** The option given a species keeps its question and options, so a node
      can end up with both a "pregunta" and a "resultado". */
  lemma AsignarKeepsQuestion(n: Node, especie: string)
    ensures var m := Apply(SetResult(especie), n);
      m.text["resultado"] == especie && m.opciones == n.opciones && m.hasOpciones == n.hasOpciones
      && forall x | x in n.text && x != "resultado" :: x in m.text && m.text[x] == n.text[x]
  {
  }

  /** `buscar_y_crear`: the first option labelled `opcion_padre` gets the
      new question, and its options are replaced by one empty option per
      distinct stripped line; the tree is unchanged when none was found. */
  function Crear(kb: Node, opcionPadre: string, pregunta: string, lineas: string): (r: (bool, Node))
    ensures r.0 <==> exists i | 0 <= i < |Below(kb)| :: Below(kb)[i].key == opcionPadre
    ensures !r.0 ==> r.1 == kb
    ensures r.0 ==> Replaced(Below(kb), Below(r.1), FirstHit(Below(kb), Labelled(opcionPadre)),
      Reshape(pregunta, LineOptions(lineas)))
  {
    FirstHitIsFirst(Below(kb), Labelled(opcionPadre));
    match Edit(kb, Labelled(opcionPadre), Reshape(pregunta, LineOptions(lineas)))
    case Hit(m) => (true, m)
    case _ => (false, kb)
  }

  /** The reshaped node asks the new question, and the entries below it are
      exactly its new options: the old subtree is gone. */
  lemma CrearDiscardsSubtree(n: Node, pregunta: string, lineas: string)
    ensures var m := Apply(Reshape(pregunta, LineOptions(lineas)), n);
      m.text["pregunta"] == pregunta && m.hasOpciones
      && Below(m) == LineOptions(lineas)
      && forall x :: x in Labels(Kids(m)) <==> x in Stripped(SplitLines(lineas))
  {
  }

  /** The root-question block: the tree is cleared and gets exactly the
      question, the image and one empty option per distinct non-blank
      stripped line. */
  function RootQuestion(pregunta: string, imagen: string, lineas: string): (kb: Node)
    ensures kb.text.Keys == {"pregunta", "imagen"}
    ensures kb.text["pregunta"] == pregunta && kb.text["imagen"] == imagen
    ensures kb.hasOpciones && UniqueLabels(Kids(kb)) && Below(kb) == Kids(kb)
    ensures forall x :: x in Labels(Kids(kb)) <==> x in Stripped(SplitLines(lineas)) && x != ""
  {
    Node(map["pregunta" := pregunta, "imagen" := imagen], true, RootOptions(lineas))
  }

  // ---------------------------------------------------------------------
  // src/ui/pages/editar_kb.py
  // ---------------------------------------------------------------------

  /** The question nodes met by `obtener_preguntas_y_opciones`, in the
      order it meets them: it looks below a node only when that node asks a
      question. */
  function Asked(opts: seq<Entry>): (qs: seq<Node>)
    ensures forall i | 0 <= i < |qs| :: "pregunta" in qs[i].text
    decreases opts
  {
    if opts == [] then []
    else
      assert opts[0] in opts;
      var n := opts[0].node;
      (if "pregunta" in n.text then [n] + (if n.hasOpciones then Asked(n.opciones) else []) else [])
      + Asked(opts[1..])
  }

  /** The question nodes of a tree, the root first. */
  function QuestionNodes(kb: Node): (qs: seq<Node>)
    ensures forall i | 0 <= i < |qs| :: "pregunta" in qs[i].text
  {
    Asked([Entry("", kb)])
  }

  /** Each question node's text mapped to its option labels, a later node
      overriding an earlier one with the same text. */
  function Index(qs: seq<Node>): (m: map<string, seq<string>>)
    requires forall i | 0 <= i < |qs| :: "pregunta" in qs[i].text
  {
    if qs == [] then map[]
    else map[qs[0].text["pregunta"] := Labels(Kids(qs[0]))] + Index(qs[1..])
  }

  lemma {:induction false} IndexAppend(a: seq<Node>, b: seq<Node>)
    requires forall i | 0 <= i < |a| :: "pregunta" in a[i].text
    requires forall i | 0 <= i < |b| :: "pregunta" in b[i].text
    ensures Index(a + b) == Index(a) + Index(b)
    decreases |a|
  {
    if a != [] {
      var h := map[a[0].text["pregunta"] := Labels(Kids(a[0]))];
      var ab := a + b;
      assert ab[0] == a[0];
      assert ab[1..] == a[1..] + b;
      IndexAppend(a[1..], b);
      assert Index(ab) == h + Index(a[1..] + b);
      MapUnionAssoc(h, Index(a[1..]), Index(b));
    } else {
      assert a + b == b;
    }
  }

  lemma MapUnionAssoc(x: map<string, seq<string>>, y: map<string, seq<string>>, z: map<string, seq<string>>)
    ensures x + (y + z) == (x + y) + z
  {
  }

  /** A question is in the index exactly when some node asks it, and it
      maps to the options of the last node that does. */
  lemma {:induction false} IndexLast(qs: seq<Node>, q: string)
    requires forall i | 0 <= i < |qs| :: "pregunta" in qs[i].text
    ensures q in Index(qs) <==> exists i | 0 <= i < |qs| :: qs[i].text["pregunta"] == q
    ensures q in Index(qs) ==> exists i | 0 <= i < |qs| ::
      qs[i].text["pregunta"] == q && Index(qs)[q] == Labels(Kids(qs[i]))
      && forall j | i < j < |qs| :: qs[j].text["pregunta"] != q
    decreases |qs|
  {
    if qs != [] {
      var rest := qs[1..];
      IndexLast(rest, q);
      if q in Index(rest) {
        var i :| 0 <= i < |rest| && rest[i].text["pregunta"] == q && Index(rest)[q] == Labels(Kids(rest[i]))
          && forall j | i < j < |rest| :: rest[j].text["pregunta"] != q;
        assert qs[i + 1] == rest[i];
        forall j | i + 1 < j < |qs| ensures qs[j].text["pregunta"] != q {
          assert qs[j] == rest[j - 1];
        }
      } else if qs[0].text["pregunta"] == q {
        forall j | 0 < j < |qs| ensures qs[j].text["pregunta"] != q {
          assert qs[j] == rest[j - 1];
        }
      } else {
        assert forall i | 0 < i < |qs| :: qs[i] == rest[i - 1];
      }
    }
  }

  /** The recursion of `obtener_preguntas_y_opciones` over the options of
      a node: each option's own map, updated in turn. */
  function CatalogOf(opts: seq<Entry>): map<string, seq<string>>
    decreases opts
  {
    if opts == [] then map[]
    else
      assert opts[0] in opts;
      var n := opts[0].node;
      (if "pregunta" in n.text then
        map[n.text["pregunta"] := Labels(Kids(n))] + (if n.hasOpciones then CatalogOf(n.opciones) else map[])
      else map[])
      + CatalogOf(opts[1..])
  }

  /** What one option adds to the catalogue. */
  function CatalogHead(e: Entry): map<string, seq<string>> {
    if "pregunta" in e.node.text then
      map[e.node.text["pregunta"] := Labels(Kids(e.node))] + (if e.node.hasOpciones then CatalogOf(e.node.opciones) else map[])
    else map[]
  }

  /** The question nodes one option contributes. */
  function AskedHead(e: Entry): seq<Node> {
    if "pregunta" in e.node.text then [e.node] + (if e.node.hasOpciones then Asked(e.node.opciones) else []) else []
  }

  lemma CatalogCons(opts: seq<Entry>)
    requires opts != []
    ensures CatalogOf(opts) == CatalogHead(opts[0]) + CatalogOf(opts[1..])
    ensures Asked(opts) == AskedHead(opts[0]) + Asked(opts[1..])
  {
  }

  lemma {:induction false} CatalogIsIndex(opts: seq<Entry>)
    ensures CatalogOf(opts) == Index(Asked(opts))
    decreases opts
  {
    if opts != [] {
      assert opts[0] in opts;
      var e := opts[0];
      CatalogCons(opts);
      CatalogIsIndex(opts[1..]);
      var head, rest := AskedHead(e), Asked(opts[1..]);
      IndexAppend(head, rest);
      if "pregunta" in e.node.text {
        var n := e.node;
        if n.hasOpciones { CatalogIsIndex(n.opciones); }
        HeadIndex(e);
      } else {
        assert Index(head) == map[];
      }
    }
  }

  lemma HeadIndex(e: Entry)
    requires "pregunta" in e.node.text
    requires e.node.hasOpciones ==> CatalogOf(e.node.opciones) == Index(Asked(e.node.opciones))
    ensures CatalogHead(e) == Index(AskedHead(e))
  {
    var n := e.node;
    var deeper := if n.hasOpciones then Asked(n.opciones) else [];
    IndexAppend([n], deeper);
    assert Index([n]) == map[n.text["pregunta"] := Labels(Kids(n))] by {
      assert [n][1..] == [];
    }
  }

  /** `obtener_preguntas_y_opciones`: every question asked in the tree,
      reached through question nodes only, mapped to the option labels of
      the last node in depth-first order that asks it. */
  function Preguntas(kb: Node): (m: map<string, seq<string>>)
    ensures forall q :: q in m <==> exists i | 0 <= i < |QuestionNodes(kb)| :: QuestionNodes(kb)[i].text["pregunta"] == q
    ensures forall q | q in m :: exists i | 0 <= i < |QuestionNodes(kb)| ::
      QuestionNodes(kb)[i].text["pregunta"] == q && m[q] == Labels(Kids(QuestionNodes(kb)[i]))
      && forall j | i < j < |QuestionNodes(kb)| :: QuestionNodes(kb)[j].text["pregunta"] != q
  {
    var m := if "pregunta" in kb.text then
      map[kb.text["pregunta"] := Labels(Kids(kb))] + (if kb.hasOpciones then CatalogOf(kb.opciones) else map[])
    else map[];
    assert m == Index(QuestionNodes(kb)) by {
      assert m == CatalogOf([Entry("", kb)]) by {
        assert [Entry("", kb)][1..] == [];
      }
      CatalogIsIndex([Entry("", kb)]);
    }
    IndexMeaning(QuestionNodes(kb));
    m
  }

  /** `IndexLast` for every question at once. */
  lemma IndexMeaning(qs: seq<Node>)
    requires forall i | 0 <= i < |qs| :: "pregunta" in qs[i].text
    ensures forall q :: q in Index(qs) <==> exists i | 0 <= i < |qs| :: qs[i].text["pregunta"] == q
    ensures forall q | q in Index(qs) :: exists i | 0 <= i < |qs| ::
      qs[i].text["pregunta"] == q && Index(qs)[q] == Labels(Kids(qs[i]))
      && forall j | i < j < |qs| :: qs[j].text["pregunta"] != q
  {
    forall q ensures q in Index(qs) <==> exists i | 0 <= i < |qs| :: qs[i].text["pregunta"] == q {
      IndexLast(qs, q);
    }
    forall q | q in Index(qs) ensures exists i | 0 <= i < |qs| ::
      qs[i].text["pregunta"] == q && Index(qs)[q] == Labels(Kids(qs[i]))
      && forall j | i < j < |qs| :: qs[j].text["pregunta"] != q
    {
      IndexLast(qs, q);
    }
  }

  /** The entry the page's parent selector shows first: choosing it
      replaces the whole tree. */
  const RootChoice := "-- Nodo Raíz --"

  /** The structure the page builds: question, note and image, and one
      empty option per distinct non-empty entry (not stripped). */
  function NewStructure(texto: string, nota: string, imagen: string, opciones: seq<string>): (n: Node)
    ensures n.text.Keys == {"pregunta", "nota", "imagen"}
    ensures n.text["pregunta"] == texto && n.text["nota"] == nota && n.text["imagen"] == imagen
    ensures n.hasOpciones && UniqueLabels(n.opciones) && Below(n) == n.opciones
    ensures forall x :: x in Labels(n.opciones) <==> x in opciones && x != ""
  {
    var opts := Blanks(Distinct(NonBlank(opciones)));
    FlatOfBlanks(opts);
    Node(map["pregunta" := texto, "nota" := nota, "imagen" := imagen], true, opts)
  }

  /** Whether a node asks the question `p`. */
  predicate Asks(n: Node, p: string) {
    "pregunta" in n.text && n.text["pregunta"] == p
  }

  /** `insertar_nodo`: with the root chosen, the new structure becomes the
      tree; otherwise the first node in pre-order (the root first) asking
      `padre` gets option `opcion` set to the new structure. Missing means
      no node asks it; a node asking it without "opciones" raises. */
  function Insertar(kb: Node, padre: string, opcion: string, nueva: Node): (r: Search<Node>)
    ensures padre == RootChoice ==> r == Hit(nueva)
    ensures padre != RootChoice && Asks(kb, padre) ==>
      (r.Fault? <==> !kb.hasOpciones)
      && (r.Hit? ==>
            r.value.text == kb.text && Labels(r.value.opciones) <= Labels(kb.opciones) + [opcion]
            && (UniqueLabels(kb.opciones) ==> Child(r.value, opcion) == Some(nueva)))
    ensures padre != RootChoice && !Asks(kb, padre) ==>
      var es, k := Below(kb), FirstHit(Below(kb), Asking(padre));
      (r.Missed? <==> k == |es|)
      && (r.Fault? <==> k < |es| && !es[k].node.hasOpciones)
      && (r.Hit? ==> r.value.text == kb.text && Replaced(es, Below(r.value), k, PutOption(opcion, nueva)))
  {
    if padre == RootChoice then Hit(nueva)
    else if Asks(kb, padre) then
      if kb.hasOpciones then
        var m := kb.(opciones := Put(kb.opciones, opcion, nueva));
        assert UniqueLabels(kb.opciones) ==> Child(m, opcion) == Some(nueva) by {
          if UniqueLabels(kb.opciones) { PutLookup(kb.opciones, opcion, nueva); }
        }
        Hit(m)
      else Fault
    else Edit(kb, Asking(padre), PutOption(opcion, nueva))
  }

  /** The option set by an insertion leads to the new structure whenever
      the node's options had distinct labels. */
  lemma PutOptionAttaches(n: Node, opcion: string, nueva: Node)
    requires n.hasOpciones && UniqueLabels(n.opciones)
    ensures Child(Apply(PutOption(opcion, nueva), n), opcion) == Some(nueva)
    ensures UniqueLabels(Apply(PutOption(opcion, nueva), n).opciones)
  {
    PutLookup(n.opciones, opcion, nueva);
  }

  /** The commit button: with a question text and at least one entry the
      new structure is inserted; otherwise nothing is written. */
  function Commit(kb: Node, padre: string, opcion: string, texto: string, nota: string, imagen: string,
                  opciones: seq<string>): (r: Search<Node>)
    ensures texto == "" || opciones == [] ==> r.Missed?
    ensures texto != "" && opciones != [] && padre == RootChoice ==>
      r.Hit? && "pregunta" in r.value.text && r.value.text["pregunta"] == texto
      && forall x :: x in Labels(Kids(r.value)) <==> x in opciones && x != ""
  {
    if texto != "" && opciones != [] then
      Insertar(kb, padre, opcion, NewStructure(texto, nota, imagen, opciones))
    else Missed
  }

  /** With only blank entries the committed question has no options. */
  lemma BlankEntriesGiveNoOptions(texto: string, nota: string, imagen: string, opciones: seq<string>)
    requires forall k | 0 <= k < |opciones| :: opciones[k] == ""
    ensures NewStructure(texto, nota, imagen, opciones).opciones == []
  {
    var n := NewStructure(texto, nota, imagen, opciones);
    assert forall i | 0 <= i < |n.opciones| :: Labels(n.opciones)[i] in Labels(n.opciones);
  }

  /** The tree kept after a search: the edited tree, or the old one when
      nothing matched. */
  function Kept(kb: Node, r: Search<Node>): (m: Node)
    ensures r.Missed? ==> m == kb
  {
    if r.Hit? then r.value else kb
  }
}
