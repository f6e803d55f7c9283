/** String operations of the Python and JavaScript runtimes that the identifiers
    rely on: case mapping, whitespace stripping and splitting, substring tests,
    integer rendering and parsing, and code-point ordering.

    Case mapping covers ASCII and the Latin-1 letters (enough for the Spanish
    labels of the repository); characters beyond Latin-1 are left unchanged. */
module Text {
  import opened Wrappers

  // ---------------------------------------------------------------------------
  // Characters

  /** The characters Python's `str.isspace` accepts, restricted to Latin-1:
      tab to carriage return, the four separators U+001C to U+001F, space,
      NEL and no-break space. */
  const Spaces: set<char> := {' ', '\t', '\n', '\r', '\U{0B}', '\U{0C}', '\U{1C}', '\U{1D}', '\U{1E}', '\U{1F}', '\U{85}', '\U{A0}'}

  /** Whitespace as Python's `str.isspace` sees it, restricted to Latin-1. */
  predicate IsSpace(c: char) {
    c in Spaces
  }

  function LowerChar(c: char): char {
    if 'A' <= c <= 'Z' || ('À' <= c <= 'Þ' && c != '×') then (c as int + 32) as char else c
  }

  function UpperChar(c: char): char {
    if 'a' <= c <= 'z' || ('à' <= c <= 'þ' && c != '÷') then (c as int - 32) as char else c
  }

  /** `str.lower()` / `String.prototype.toLowerCase()`. */
  function Lower(s: string): (r: string)
    ensures |r| == |s|
  {
    seq(|s|, i requires 0 <= i < |s| => LowerChar(s[i]))
  }

  /** Case mapping works character by character. */
  lemma LowerAppend(a: string, b: string)
    ensures Lower(a + b) == Lower(a) + Lower(b)
  {
  }

  /** `str.upper()`. */
  function Upper(s: string): (r: string)
    ensures |r| == |s|
  {
    seq(|s|, i requires 0 <= i < |s| => UpperChar(s[i]))
  }

  lemma LowerIdempotent(s: string)
    ensures Lower(Lower(s)) == Lower(s)
  {
  }

  /** Upper-casing first does not change the lower-cased text. */
  lemma LowerOfUpper(s: string)
    ensures Lower(Upper(s)) == Lower(s)
  {
  }

  // ---------------------------------------------------------------------------
  // Stripping

  function StripLeft(s: string): (r: string)
    ensures |r| <= |s| && r == s[|s| - |r|..]
    ensures forall j | 0 <= j < |s| - |r| :: IsSpace(s[j])
    ensures r == [] || !IsSpace(r[0])
    decreases |s|
  {
    if |s| > 0 && IsSpace(s[0]) then StripLeft(s[1..]) else s
  }

  function StripRight(s: string): (r: string)
    ensures |r| <= |s| && r == s[..|r|]
    ensures forall j | |r| <= j < |s| :: IsSpace(s[j])
    ensures r == [] || !IsSpace(r[|r| - 1])
    decreases |s|
  {
    if |s| > 0 && IsSpace(s[|s| - 1]) then StripRight(s[..|s| - 1]) else s
  }

  /** `str.strip()`: the longest slice of `s` with no whitespace at either end. */
  function Strip(s: string): (r: string)
    ensures |r| <= |s|
    ensures r == [] || (!IsSpace(r[0]) && !IsSpace(r[|r| - 1]))
    ensures (forall j | 0 <= j < |s| :: !IsSpace(s[j])) ==> r == s
  {
    StripRight(StripLeft(s))
  }

  predicate AllSpace(s: string) {
    forall j | 0 <= j < |s| :: IsSpace(s[j])
  }

  lemma {:induction false} StripLeftSpaces(pre: string, s: string)
    requires AllSpace(pre)
    ensures StripLeft(pre + s) == StripLeft(s)
    decreases |pre|
  {
    if pre != [] {
      assert (pre + s)[1..] == pre[1..] + s;
      StripLeftSpaces(pre[1..], s);
    } else {
      assert pre + s == s;
    }
  }

  lemma {:induction false} StripRightSpaces(s: string, post: string)
    requires AllSpace(post)
    ensures StripRight(s + post) == StripRight(s)
    decreases |post|
  {
    if post != [] {
      assert (s + post)[..|s + post| - 1] == s + post[..|post| - 1];
      StripRightSpaces(s, post[..|post| - 1]);
    } else {
      assert s + post == s;
    }
  }

  lemma {:induction false} StripLeftAppend(a: string, b: string)
    requires StripLeft(a) != []
    ensures StripLeft(a + b) == StripLeft(a) + b
    decreases |a|
  {
    if IsSpace(a[0]) {
      assert (a + b)[1..] == a[1..] + b;
      StripLeftAppend(a[1..], b);
    }
  }

  lemma {:induction false} StripRightOfSpaces(s: string)
    requires AllSpace(s)
    ensures StripRight(s) == [] && StripLeft(s) == []
    decreases |s|
  {
    if s != [] {
      StripRightOfSpaces(s[..|s| - 1]);
      StripRightOfSpaces(s[1..]);
    }
  }

  /** Whitespace padding on either side does not survive `strip()`. */
  lemma StripPadding(pre: string, s: string, post: string)
    requires AllSpace(pre) && AllSpace(post)
    ensures Strip(pre + s + post) == Strip(s)
  {
    assert pre + s + post == pre + (s + post);
    StripLeftSpaces(pre, s + post);
    assert StripLeft(pre + s + post) == StripLeft(s + post);
    var t := StripLeft(s);
    if t == [] {
      BlankPadding(s, post);
    } else {
      StripLeftAppend(s, post);
      StripRightSpaces(t, post);
    }
  }

  lemma BlankPadding(s: string, post: string)
    requires StripLeft(s) == [] && AllSpace(post)
    ensures StripRight(StripLeft(s + post)) == StripRight(StripLeft(s))
  {
    assert AllSpace(s);
    assert AllSpace(s + post);
    StripRightOfSpaces(s + post);
  }

  lemma {:induction false} StripLeftUpper(s: string)
    ensures StripLeft(Upper(s)) == Upper(StripLeft(s))
    decreases |s|
  {
    if s != [] {
      var u := Upper(s);
      assert u[1..] == Upper(s[1..]);
      UpperKeepsSpace(s[0]);
      assert IsSpace(u[0]) == IsSpace(s[0]);
      StripLeftUpper(s[1..]);
    }
  }

  /** Upper-casing neither creates nor removes whitespace. */
  lemma UpperKeepsSpace(c: char)
    ensures IsSpace(UpperChar(c)) == IsSpace(c)
  {
  }

  lemma {:induction false} StripRightUpper(s: string)
    ensures StripRight(Upper(s)) == Upper(StripRight(s))
    decreases |s|
  {
    if s != [] {
      assert Upper(s)[..|s| - 1] == Upper(s[..|s| - 1]);
      StripRightUpper(s[..|s| - 1]);
    }
  }

  /** Upper-casing and stripping commute: case mapping neither creates nor
      removes whitespace. */
  lemma StripUpper(s: string)
    ensures Strip(Upper(s)) == Upper(Strip(s))
  {
    StripLeftUpper(s);
    StripRightUpper(StripLeft(s));
  }

  // ---------------------------------------------------------------------------
  // Prefixes and substrings

  predicate StartsWith(s: string, p: string) {
    |p| <= |s| && s[..|p|] == p
  }

  predicate ContainsAt(s: string, sub: string, i: int) {
    0 <= i <= |s| - |sub| && s[i..i + |sub|] == sub
  }

  /** Python's `sub in s` / JavaScript's `s.includes(sub)`. */
  predicate Contains(s: string, sub: string) {
    exists i | 0 <= i <= |s| - |sub| :: ContainsAt(s, sub, i)
  }

  lemma ContainsSelf(s: string)
    ensures Contains(s, s) && Contains(s, "")
  {
    assert ContainsAt(s, s, 0);
    assert ContainsAt(s, "", 0);
  }

  /** The middle part of a concatenation is a substring of it. */
  lemma ContainsMiddle(a: string, b: string, c: string)
    ensures Contains(a + b + c, b)
  {
    assert (a + b + c)[|a|..|a| + |b|] == b;
    assert ContainsAt(a + b + c, b, |a|);
  }

  /** A substring occurrence starts with the first two characters of the
      substring; used to refute occurrences in concrete strings. */
  lemma ContainsNeedsBigram(s: string, k: string)
    requires |k| >= 2
    ensures Contains(s, k) ==> exists i | 0 <= i < |s| - 1 :: s[i] == k[0] && s[i + 1] == k[1]
  {
    if Contains(s, k) {
      var i :| 0 <= i <= |s| - |k| && ContainsAt(s, k, i);
      assert s[i..i + |k|][0] == s[i] && s[i..i + |k|][1] == s[i + 1];
    }
  }

  /** A substring free of `sep[0]` that does not start with `sep[1]` occurs in
      `a + sep + b` only inside `a` or inside `b` (for a two-character `sep`). */
  lemma ContainsAcrossSeparator(a: string, sep: string, b: string, k: string)
    requires |sep| == 2 && |k| > 0
    requires sep[0] !in k && k[0] != sep[1]
    ensures Contains(a + sep + b, k) <==> Contains(a, k) || Contains(b, k)
  {
    if Contains(a, k) {
      ContainsInLeft(a, sep + b, k);
      assert a + sep + b == a + (sep + b);
    }
    if Contains(b, k) {
      ContainsInRight(a + sep, b, k);
    }
    if Contains(a + sep + b, k) {
      ContainsSplits(a, sep, b, k);
    }
  }

  /** An occurrence in the left operand is one in the concatenation. */
  lemma ContainsInLeft(x: string, y: string, k: string)
    requires Contains(x, k)
    ensures Contains(x + y, k)
  {
    var i :| 0 <= i <= |x| - |k| && ContainsAt(x, k, i);
    SliceLeft(x, y, i, i + |k|);
    assert ContainsAt(x + y, k, i);
  }

  /** An occurrence in the right operand is one in the concatenation. */
  lemma ContainsInRight(x: string, y: string, k: string)
    requires Contains(y, k)
    ensures Contains(x + y, k)
  {
    var i :| 0 <= i <= |y| - |k| && ContainsAt(y, k, i);
    SliceRight(x, y, |x| + i, |x| + i + |k|);
    assert ContainsAt(x + y, k, |x| + i);
  }

  /** An occurrence in `a + sep + b` lies in `a` or in `b`. */
  lemma ContainsSplits(a: string, sep: string, b: string, k: string)
    requires |sep| == 2 && |k| > 0
    requires sep[0] !in k && k[0] != sep[1]
    requires Contains(a + sep + b, k)
    ensures Contains(a, k) || Contains(b, k)
  {
    var s := a + sep + b;
    var i :| 0 <= i <= |s| - |k| && ContainsAt(s, k, i);
    if i + |k| <= |a| {
      assert s == a + (sep + b);
      OccurrenceLeft(a, sep + b, k, i);
    } else if i >= |a| + 2 {
      OccurrenceRight(a + sep, b, k, i);
    } else {
      SeparatorInside(a, sep, b, k, i);
    }
  }

  /** An occurrence ending inside the left operand is an occurrence in it. */
  lemma OccurrenceLeft(x: string, y: string, k: string, i: nat)
    requires i + |k| <= |x| && ContainsAt(x + y, k, i)
    ensures Contains(x, k)
  {
    SliceLeft(x, y, i, i + |k|);
    assert ContainsAt(x, k, i);
  }

  /** An occurrence starting inside the right operand is an occurrence in it. */
  lemma OccurrenceRight(x: string, y: string, k: string, i: nat)
    requires |x| <= i && i + |k| <= |x| + |y| && ContainsAt(x + y, k, i)
    ensures Contains(y, k)
  {
    SliceRight(x, y, i, i + |k|);
    assert ContainsAt(y, k, i - |x|);
  }

  /** A slice lying wholly in the left operand of a concatenation. */
  lemma SliceLeft<T>(x: seq<T>, y: seq<T>, lo: int, hi: int)
    requires 0 <= lo <= hi <= |x|
    ensures (x + y)[lo..hi] == x[lo..hi]
  {
  }

  /** A string cannot contain a substring with a character it lacks. */
  lemma MissingChar(s: string, k: string, c: char)
    requires c in k && c !in s
    ensures !Contains(s, k)
  {
  }


  /** A slice lying wholly in the right operand of a concatenation. */
  lemma SliceRight<T>(x: seq<T>, y: seq<T>, lo: int, hi: int)
    requires |x| <= lo <= hi <= |x| + |y|
    ensures (x + y)[lo..hi] == y[lo - |x|..hi - |x|]
  {
  }

  /** An occurrence of `k` in `a + sep + b` that overlaps the separator
      contains its first character or starts with its second. */
  lemma SeparatorInside(a: string, sep: string, b: string, k: string, i: int)
    requires |sep| == 2 && |k| > 0
    requires ContainsAt(a + sep + b, k, i)
    requires i <= |a| + 1 < i + |k| + 1 && !(i + |k| <= |a|)
    ensures sep[0] in k || k[0] == sep[1]
  {
    var s := a + sep + b;
    if i <= |a| {
      assert s[i..i + |k|][|a| - i] == s[|a|];
      assert k[|a| - i] == sep[0];
    } else {
      assert s[i..i + |k|][0] == s[|a| + 1];
    }
  }

  // ---------------------------------------------------------------------------
  // Splitting on whitespace

  /** The leading run of non-whitespace characters of `s`. */
  function TakeWord(s: string): (w: string)
    ensures |w| <= |s| && w == s[..|w|]
    ensures forall j | 0 <= j < |w| :: !IsSpace(w[j])
    ensures |w| < |s| ==> IsSpace(s[|w|])
    ensures |s| > 0 && !IsSpace(s[0]) ==> |w| > 0
    decreases |s|
  {
    if |s| == 0 || IsSpace(s[0]) then [] else [s[0]] + TakeWord(s[1..])
  }

  /** A non-empty string without whitespace. */
  predicate IsWord(w: string) {
    |w| > 0 && forall j | 0 <= j < |w| :: !IsSpace(w[j])
  }

  /** Python's argument-less `str.split()`: the maximal whitespace-free runs. */
  function Words(s: string): (ws: seq<string>)
    ensures forall k | 0 <= k < |ws| :: IsWord(ws[k])
    decreases |s|
  {
    var t := StripLeft(s);
    if t == [] then []
    else
      var w := TakeWord(t);
      assert IsWord(w);
      assert |w| > 0 && |t| <= |s|;
      var rest := Words(t[|w|..]);
      WordsFront(w, rest);
      [w] + rest
  }

  /** A word in front of words gives words. */
  lemma WordsFront(w: string, rest: seq<string>)
    requires IsWord(w) && forall k | 0 <= k < |rest| :: IsWord(rest[k])
    ensures forall k | 0 <= k < |[w] + rest| :: IsWord(([w] + rest)[k])
  {
    forall k | 0 <= k < |[w] + rest| ensures IsWord(([w] + rest)[k]) {
      if k > 0 {
        assert ([w] + rest)[k] == rest[k - 1];
      }
    }
  }

  function Concat(ws: seq<string>): string {
    if ws == [] then [] else ws[0] + Concat(ws[1..])
  }

  function RemoveSpaces(s: string): string {
    if s == [] then [] else (if IsSpace(s[0]) then [] else [s[0]]) + RemoveSpaces(s[1..])
  }

  lemma {:induction false} RemoveSpacesAppend(a: string, b: string)
    ensures RemoveSpaces(a + b) == RemoveSpaces(a) + RemoveSpaces(b)
  {
    if a == [] {
      assert a + b == b;
    } else {
      assert (a + b)[0] == a[0];
      assert (a + b)[1..] == a[1..] + b;
      RemoveSpacesAppend(a[1..], b);
    }
  }

  lemma {:induction false} RemoveSpacesOfSpaces(s: string)
    requires forall j | 0 <= j < |s| :: IsSpace(s[j])
    ensures RemoveSpaces(s) == []
  {
    if s != [] {
      RemoveSpacesOfSpaces(s[1..]);
    }
  }

  lemma {:induction false} RemoveSpacesOfWord(s: string)
    requires forall j | 0 <= j < |s| :: !IsSpace(s[j])
    ensures RemoveSpaces(s) == s
  {
    if s != [] {
      RemoveSpacesOfWord(s[1..]);
    }
  }

  /** Splitting loses exactly the whitespace: the words, glued back together,
      are the input with its whitespace removed. */
  lemma {:induction false} WordsKeepEveryOtherChar(s: string)
    ensures Concat(Words(s)) == RemoveSpaces(s)
    decreases |s|
  {
    var t := StripLeft(s);
    LeadingSpaceRemoved(s);
    if t != [] {
      var w := TakeWord(t);
      var rest := t[|w|..];
      WordThenRest(t);
      WordsKeepEveryOtherChar(rest);
      WordsCons(s);
      assert Concat([w] + Words(rest)) == w + Concat(Words(rest)) by {
        assert ([w] + Words(rest))[1..] == Words(rest);
      }
    }
  }

  /** Leading whitespace contributes nothing once whitespace is removed. */
  lemma LeadingSpaceRemoved(s: string)
    ensures RemoveSpaces(s) == RemoveSpaces(StripLeft(s))
  {
    var t := StripLeft(s);
    var lead := s[..|s| - |t|];
    assert s == lead + t;
    RemoveSpacesAppend(lead, t);
    RemoveSpacesOfSpaces(lead);
  }

  /** A string that starts with a word loses only the whitespace after it. */
  lemma WordThenRest(t: string)
    ensures RemoveSpaces(t) == TakeWord(t) + RemoveSpaces(t[|TakeWord(t)|..])
  {
    var w := TakeWord(t);
    var rest := t[|w|..];
    assert t == w + rest;
    RemoveSpacesAppend(w, rest);
    RemoveSpacesOfWord(w);
  }

  /** One step of the split: the first word, then the words of the rest. */
  lemma WordsCons(s: string)
    requires StripLeft(s) != []
    ensures Words(s) == [TakeWord(StripLeft(s))] + Words(StripLeft(s)[|TakeWord(StripLeft(s))|..])
  {
  }

  /** Every character of every word comes from the input, so a property of
      all input characters holds of all word characters. */
  lemma {:induction false} WordsKeepCharProperty(s: string, p: char -> bool)
    requires forall i | 0 <= i < |s| :: p(s[i])
    ensures forall k, j | 0 <= k < |Words(s)| && 0 <= j < |Words(s)[k]| :: p(Words(s)[k][j])
    decreases |s|
  {
    var t := StripLeft(s);
    if t != [] {
      var w := TakeWord(t);
      var rest := t[|w|..];
      SliceKeeps(s, |s| - |t|, |s|, p);
      SliceKeeps(t, 0, |w|, p);
      SliceKeeps(t, |w|, |t|, p);
      WordsKeepCharProperty(rest, p);
      WordsCons(s);
      FrontKeeps(w, Words(rest), p);
    }
  }

  /** A property of every element holds of every element of a slice. */
  lemma SliceKeeps<T>(s: seq<T>, lo: int, hi: int, p: T -> bool)
    requires 0 <= lo <= hi <= |s| && forall i | 0 <= i < |s| :: p(s[i])
    ensures forall j | 0 <= j < hi - lo :: p(s[lo..hi][j])
  {
    forall j | 0 <= j < hi - lo ensures p(s[lo..hi][j]) {
      assert s[lo..hi][j] == s[lo + j];
    }
  }

  /** A property of every character of every word survives putting one more
      word in front. */
  lemma FrontKeeps(w: string, ws: seq<string>, p: char -> bool)
    requires forall j | 0 <= j < |w| :: p(w[j])
    requires forall k, j | 0 <= k < |ws| && 0 <= j < |ws[k]| :: p(ws[k][j])
    ensures forall k, j | 0 <= k < |[w] + ws| && 0 <= j < |([w] + ws)[k]| :: p(([w] + ws)[k][j])
  {
    forall k, j | 0 <= k < |[w] + ws| && 0 <= j < |([w] + ws)[k]| ensures p(([w] + ws)[k][j]) {
      if k > 0 {
        assert ([w] + ws)[k] == ws[k - 1];
      }
    }
  }

  /** The words glued back with the gaps around them:
      `gaps[0] + ws[0] + gaps[1] + … + ws[n - 1] + gaps[n]`. */
  function Interleave(gaps: seq<string>, ws: seq<string>): string
    requires |gaps| == |ws| + 1
    decreases |ws|
  {
    if ws == [] then gaps[0] else gaps[0] + ws[0] + Interleave(gaps[1..], ws[1..])
  }

  /** `s` is the words `ws` separated by the whitespace runs `gaps`. The runs
      before the first and after the last word may be empty, the runs between
      two words may not, so every word is a maximal whitespace-free run. */
  predicate SplitAt(s: string, ws: seq<string>, gaps: seq<string>) {
    |gaps| == |ws| + 1
    && (forall k | 0 <= k < |ws| :: IsWord(ws[k]))
    && (forall k | 0 <= k < |gaps| :: AllSpace(gaps[k]))
    && (forall k | 0 < k < |ws| :: gaps[k] != [])
    && Interleave(gaps, ws) == s
  }

  /** `ws` are the whitespace-separated words of `s`. */
  ghost predicate Splits(s: string, ws: seq<string>) {
    exists gaps :: SplitAt(s, ws, gaps)
  }

  /** `Words` splits at whitespace: its words, with the whitespace between
      them, make up the input. */
  lemma {:induction false} WordsSplits(s: string)
    ensures Splits(s, Words(s))
    decreases |s|
  {
    var t := StripLeft(s);
    if t == [] {
      BlankSplits(s);
    } else {
      WordsSplits(t[|TakeWord(t)|..]);
      WordsSplitsStep(s);
    }
  }

  /** The words of a text that is not blank split it, once the words of
      what follows its first word split that. */
  lemma WordsSplitsStep(s: string)
    requires StripLeft(s) != []
    requires var t := StripLeft(s); var rest := t[|TakeWord(t)|..]; Splits(rest, Words(rest))
    ensures Splits(s, Words(s))
  {
    var t := StripLeft(s);
    var lead := s[..|s| - |t|];
    var w := TakeWord(t);
    var rest := t[|w|..];
    StripThenTake(s);
    StrippedIsSpace(s);
    FirstWordShape(t);
    WordsCons(s);
    SplitsCons(s, lead, w, rest, Words(rest));
  }

  /** A blank text splits into no words. */
  lemma BlankSplits(s: string)
    requires StripLeft(s) == []
    ensures Splits(s, Words(s))
  {
    assert Words(s) == [];
    assert AllSpace(s);
    assert SplitAt(s, [], [s]);
    SplitsWitness(s, [], [s]);
  }

  /** The whitespace `StripLeft` removes is whitespace. */
  lemma StrippedIsSpace(s: string)
    ensures AllSpace(s[..|s| - |StripLeft(s)|])
  {
  }

  /** The first word of a text that starts with one is a word, and what
      follows it is empty or starts with whitespace. */
  lemma FirstWordShape(t: string)
    requires t != [] && !IsSpace(t[0])
    ensures IsWord(TakeWord(t))
    ensures t[|TakeWord(t)|..] == [] || IsSpace(t[|TakeWord(t)|..][0])
  {
    var w := TakeWord(t);
    assert t[|w|..] == [] || t[|w|..][0] == t[|w|];
  }

  /** Whitespace and a word in front of the words of the rest of a text. */
  lemma SplitsCons(s: string, lead: string, w: string, rest: string, ws: seq<string>)
    requires s == lead + (w + rest)
    requires AllSpace(lead) && IsWord(w) && (rest == [] || IsSpace(rest[0]))
    requires Splits(rest, ws)
    ensures Splits(s, [w] + ws)
  {
    var gs :| SplitAt(rest, ws, gs);
    SplitCons(lead, w, rest, ws, gs);
    SplitsWitness(s, [w] + ws, [lead] + gs);
  }

  /** A text is its leading whitespace, its first word and the rest. */
  lemma StripThenTake(s: string)
    ensures var t := StripLeft(s);
      s == s[..|s| - |t|] + (TakeWord(t) + t[|TakeWord(t)|..])
  {
    LeadThenRest(s);
    WordThenRemainder(StripLeft(s));
  }

  /** A text is its leading whitespace followed by the rest. */
  lemma LeadThenRest(s: string)
    ensures s == s[..|s| - |StripLeft(s)|] + StripLeft(s)
  {
    var t := StripLeft(s);
    var lead := s[..|s| - |t|];
    assert s == lead + t;
  }

  /** A text is its first run of non-whitespace followed by the rest. */
  lemma WordThenRemainder(t: string)
    ensures t == TakeWord(t) + t[|TakeWord(t)|..]
  {
    var w := TakeWord(t);
    assert t == w + t[|w|..];
  }

  /** A split is a witness that the words split the text. */
  lemma SplitsWitness(s: string, ws: seq<string>, gaps: seq<string>)
    requires SplitAt(s, ws, gaps)
    ensures Splits(s, ws)
  {
  }

  /** A split with one more word, and the whitespace before it, in front. */
  lemma SplitCons(lead: string, w: string, rest: string, ws: seq<string>, gs: seq<string>)
    requires AllSpace(lead) && IsWord(w) && SplitAt(rest, ws, gs)
    requires rest == [] || IsSpace(rest[0])
    ensures SplitAt(lead + (w + rest), [w] + ws, [lead] + gs)
  {
    assert lead + (w + rest) == lead + w + rest;
    var gaps := [lead] + gs;
    var words := [w] + ws;
    assert gaps[1..] == gs && words[1..] == ws;
    if ws != [] {
      assert rest == gs[0] + ws[0] + Interleave(gs[1..], ws[1..]);
    }
    assert forall k | 0 < k < |words| :: gaps[k] == gs[k - 1] && words[k] == ws[k - 1];
  }

  /** Dropping the first gap and word of a split leaves a split of the rest,
      which is empty or starts with whitespace. */
  lemma SplitTail(s: string, ws: seq<string>, gaps: seq<string>)
    requires SplitAt(s, ws, gaps) && ws != []
    ensures SplitAt(Interleave(gaps[1..], ws[1..]), ws[1..], gaps[1..])
    ensures var r := Interleave(gaps[1..], ws[1..]); r == [] || IsSpace(r[0])
  {
    var r := Interleave(gaps[1..], ws[1..]);
    assert forall k | 0 <= k < |ws[1..]| :: IsWord(ws[1..][k]) by {
      forall k | 0 <= k < |ws[1..]| ensures IsWord(ws[1..][k]) {
        assert ws[1..][k] == ws[k + 1];
      }
    }
    assert forall k | 0 <= k < |gaps[1..]| :: AllSpace(gaps[1..][k]) by {
      forall k | 0 <= k < |gaps[1..]| ensures AllSpace(gaps[1..][k]) {
        assert gaps[1..][k] == gaps[k + 1];
      }
    }
    assert forall k | 0 < k < |ws[1..]| :: gaps[1..][k] != [] by {
      forall k | 0 < k < |ws[1..]| ensures gaps[1..][k] != [] {
        assert gaps[1..][k] == gaps[k + 1];
      }
    }
    if ws[1..] == [] {
      assert r == gaps[1];
    } else {
      assert gaps[1] != [];
      assert r == gaps[1] + ws[1] + Interleave(gaps[2..], ws[2..]) by {
        assert gaps[1..][1..] == gaps[2..] && ws[1..][1..] == ws[2..];
      }
      assert r[0] == gaps[1][0];
    }
  }

  /** A text splits into words in only one way. */
  lemma {:induction false} SplitsUnique(s: string, ws1: seq<string>, ws2: seq<string>)
    requires Splits(s, ws1) && Splits(s, ws2)
    ensures ws1 == ws2
    decreases |ws1|
  {
    var g1 :| SplitAt(s, ws1, g1);
    var g2 :| SplitAt(s, ws2, g2);
    if ws1 == [] || ws2 == [] {
      if ws1 != [] {
        WordNotSpace(s, ws1, g1);
      }
      if ws2 != [] {
        WordNotSpace(s, ws2, g2);
      }
    } else {
      var a1, w1, r1 := g1[0], ws1[0], Interleave(g1[1..], ws1[1..]);
      var a2, w2, r2 := g2[0], ws2[0], Interleave(g2[1..], ws2[1..]);
      assert s == a1 + (w1 + r1) && s == a2 + (w2 + r2);
      SpaceBeforeWord(s, a1, w1 + r1, a2, w2 + r2);
      assert w1 + r1 == w2 + r2 by {
        assert w1 + r1 == s[|a1|..] && w2 + r2 == s[|a2|..];
      }
      SplitTail(s, ws1, g1);
      SplitTail(s, ws2, g2);
      WordBeforeSpace(w1 + r1, w1, r1, w2, r2);
      assert w1 == (w1 + r1)[..|w1|] && w2 == (w2 + r2)[..|w2|];
      assert r1 == (w1 + r1)[|w1|..] && r2 == (w2 + r2)[|w2|..];
      SplitsUnique(r1, ws1[1..], ws2[1..]);
      assert ws1 == [w1] + ws1[1..] && ws2 == [w2] + ws2[1..];
    }
  }

  /** Two ways of writing a text as whitespace followed by a non-space
      character agree on the length of the whitespace. */
  lemma SpaceBeforeWord(s: string, a1: string, x1: string, a2: string, x2: string)
    requires s == a1 + x1 && s == a2 + x2
    requires AllSpace(a1) && AllSpace(a2)
    requires x1 != [] && !IsSpace(x1[0]) && x2 != [] && !IsSpace(x2[0])
    ensures |a1| == |a2|
  {
    assert forall j | 0 <= j < |a1| :: s[j] == a1[j];
    assert forall j | 0 <= j < |a2| :: s[j] == a2[j];
    assert s[|a1|] == x1[0] && s[|a2|] == x2[0];
  }

  /** Two ways of writing a text as a word followed by nothing or by
      whitespace agree on the word's length. */
  lemma WordBeforeSpace(t: string, w1: string, r1: string, w2: string, r2: string)
    requires t == w1 + r1 && t == w2 + r2
    requires IsWord(w1) && IsWord(w2)
    requires (r1 == [] || IsSpace(r1[0])) && (r2 == [] || IsSpace(r2[0]))
    ensures |w1| == |w2|
  {
    assert forall j | 0 <= j < |w1| :: t[j] == w1[j];
    assert forall j | 0 <= j < |w2| :: t[j] == w2[j];
    assert |w1| < |t| ==> t[|w1|] == r1[0];
    assert |w2| < |t| ==> t[|w2|] == r2[0];
  }

  /** A text that holds a word is not all whitespace. */
  lemma WordNotSpace(s: string, ws: seq<string>, g: seq<string>)
    requires SplitAt(s, ws, g) && ws != []
    ensures !AllSpace(s)
  {
    assert s == g[0] + ws[0] + Interleave(g[1..], ws[1..]);
    assert s[|g[0]|] == ws[0][0];
  }

  /** `s.replace(a, b)` for single characters (also `s.replace(/a/g, b)`). */
  function ReplaceChar(s: string, a: char, b: char): (r: string)
    ensures |r| == |s|
    ensures forall i | 0 <= i < |s| :: r[i] == (if s[i] == a then b else s[i])
  {
    seq(|s|, i requires 0 <= i < |s| => if s[i] == a then b else s[i])
  }

  // ---------------------------------------------------------------------------
  // Integers as text

  predicate IsDigit(c: char) {
    '0' <= c <= '9'
  }

  function DigitChar(d: nat): (c: char)
    requires d < 10
    ensures IsDigit(c)
  {
    ('0' as int + d) as char
  }

  function DigitValue(c: char): nat
    requires IsDigit(c)
  {
    c as int - '0' as int
  }

  predicate AllDigits(s: string) {
    forall j | 0 <= j < |s| :: IsDigit(s[j])
  }

  /** Decimal rendering of a natural number, as `str(n)` writes it. */
  function NatToString(n: nat): (r: string)
    ensures |r| > 0 && AllDigits(r)
    decreases n
  {
    if n < 10 then [DigitChar(n)] else NatToString(n / 10) + [DigitChar(n % 10)]
  }

  /** `str(i)` for an integer. */
  function IntToString(i: int): (r: string)
    ensures |r| > 0
  {
    if i < 0 then "-" + NatToString(-i) else NatToString(i)
  }

  /** The value of a string of decimal digits. */
  function DigitsValue(s: string): nat
    requires AllDigits(s)
    decreases |s|
  {
    if s == [] then 0 else DigitsValue(s[..|s| - 1]) * 10 + DigitValue(s[|s| - 1])
  }

  lemma {:induction false} DigitsOfNat(n: nat)
    ensures DigitsValue(NatToString(n)) == n
    decreases n
  {
    if n >= 10 {
      DigitsOfNat(n / 10);
      var s := NatToString(n);
      assert s[..|s| - 1] == NatToString(n / 10);
    }
  }

  /** Python's `int(s)` on a string: optional surrounding whitespace, an
      optional sign and at least one decimal digit; anything else raises. */
  function ParseInt(s: string): Option<int> {
    var t := Strip(s);
    if |t| > 0 && (t[0] == '-' || t[0] == '+') then
      (if |t| > 1 && AllDigits(t[1..]) then
         var v: int := DigitsValue(t[1..]);
         Some(if t[0] == '-' then -v else v)
       else None)
    else if |t| > 0 && AllDigits(t) then Some(DigitsValue(t))
    else None
  }

  /** Rendering an integer and reading it back gives the integer. */
  lemma ParseIntRoundTrip(i: int)
    ensures ParseInt(IntToString(i)) == Some(i)
  {
    var s := IntToString(i);
    IntStringUnstripped(i);
    if i < 0 {
      assert s[1..] == NatToString(-i);
      DigitsOfNat(-i);
    } else {
      DigitsOfNat(i);
    }
  }

  lemma IntStringUnstripped(i: int)
    ensures Strip(IntToString(i)) == IntToString(i)
  {
    var s := IntToString(i);
    var n := NatToString(if i < 0 then -i else i);
    assert forall j | 0 <= j < |n| :: IsDigit(n[j]);
    assert forall j | 0 <= j < |n| :: !IsSpace(n[j]);
    if i < 0 {
      assert s == "-" + n;
      assert forall j | 1 <= j < |s| :: s[j] == n[j - 1];
    }
    assert forall j | 0 <= j < |s| :: !IsSpace(s[j]);
  }

  /** Python's `float(s)` on a string, for plain decimal literals: optional
      surrounding whitespace, an optional sign, digits with at most one decimal
      point and at least one digit. */
  function ParseReal(s: string): Option<real> {
    var t := Strip(s);
    var neg := |t| > 0 && t[0] == '-';
    var body := if |t| > 0 && (t[0] == '-' || t[0] == '+') then t[1..] else t;
    var point := IndexOf(body, '.');
    var whole := if point.Some? then body[..point.value] else body;
    var frac := if point.Some? then body[point.value + 1..] else [];
    if |whole| + |frac| > 0 && AllDigits(whole) && AllDigits(frac) then
      var x := DigitsValue(whole) as real + DigitsValue(frac) as real / Pow10(|frac|) as real;
      Some(if neg then -x else x)
    else None
  }

  function Pow10(n: nat): (r: nat)
    ensures r > 0
  {
    if n == 0 then 1 else 10 * Pow10(n - 1)
  }

  function IndexOf(s: string, c: char): (r: Option<nat>)
    ensures r.Some? ==> r.value < |s| && s[r.value] == c && c !in s[..r.value]
    ensures r.None? ==> c !in s
  {
    if s == [] then None
    else if s[0] == c then Some(0)
    else match IndexOf(s[1..], c)
      case None => None
      case Some(k) => Some(k + 1)
  }

  /** `float("")` raises. */
  lemma ParseRealEmpty()
    ensures ParseReal("").None?
  {
    assert Strip("") == [];
    assert IndexOf([], '.').None?;
  }

  /** Every rendered integer is also read back by `float()`. */
  lemma ParseRealOfInt(i: int)
    ensures ParseReal(IntToString(i)) == Some(i as real)
  {
    var s := IntToString(i);
    IntStringUnstripped(i);
    var body := if i < 0 then s[1..] else s;
    assert AllDigits(body) && body == NatToString(if i < 0 then -i else i);
    assert forall j | 0 <= j < |body| :: body[j] != '.';
    assert Strip(s) == s && IndexOf(body, '.') == None;
    assert Pow10(0) == 1;
    DigitsOfNat(if i < 0 then -i else i);
  }

  // ---------------------------------------------------------------------------
  // Code-point order of strings (Python's `<` on `str`)

  predicate Less(a: string, b: string)
    decreases |a|
  {
    if |b| == 0 then false
    else if |a| == 0 then true
    else if a[0] != b[0] then a[0] < b[0]
    else Less(a[1..], b[1..])
  }

  lemma {:induction false} LessIrreflexive(a: string)
    ensures !Less(a, a)
    decreases |a|
  {
    if |a| > 0 {
      LessIrreflexive(a[1..]);
    }
  }

  lemma {:induction false} LessTransitive(a: string, b: string, c: string)
    requires Less(a, b) && Less(b, c)
    ensures Less(a, c)
    decreases |a|
  {
    if |a| > 0 && a[0] == b[0] && b[0] == c[0] {
      LessTransitive(a[1..], b[1..], c[1..]);
    }
  }

  lemma {:induction false} LessTotal(a: string, b: string)
    requires a != b
    ensures Less(a, b) || Less(b, a)
    decreases |a|
  {
    if |a| > 0 && |b| > 0 && a[0] == b[0] {
      assert a == [a[0]] + a[1..] && b == [b[0]] + b[1..];
      LessTotal(a[1..], b[1..]);
    }
  }

  lemma {:induction false} LessAsymmetric(a: string, b: string)
    requires Less(a, b)
    ensures !Less(b, a)
    decreases |a|
  {
    if |a| > 0 && a[0] == b[0] {
      LessAsymmetric(a[1..], b[1..]);
    }
  }
}
