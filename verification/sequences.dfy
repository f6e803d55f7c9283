/** Order-preserving selection from a sequence, shared by the filters of
    every identifier: JavaScript's `Array.prototype.filter` and Python's
    comprehension `[f(x) for x in s if p(x)]`. */
module Sequences {

  /** `a` is obtained from `b` by dropping elements, keeping the order. */
  predicate Sublist<T(==)>(a: seq<T>, b: seq<T>)
    decreases |b|
  {
    if a == [] then true
    else if b == [] then false
    else (a[0] == b[0] && Sublist(a[1..], b[1..])) || Sublist(a, b[1..])
  }

  /** `r` was taken from `s` at the increasing positions `idx`: exactly the
      positions whose element passes `p`, each element mapped by `f`. */
  ghost predicate PickedAt<T, U>(r: seq<U>, s: seq<T>, p: T -> bool, f: T -> U, idx: seq<nat>) {
    |idx| == |r|
    && (forall a, b | 0 <= a < b < |idx| :: idx[a] < idx[b])
    && (forall k | 0 <= k < |idx| :: idx[k] < |s| && p(s[idx[k]]) && r[k] == f(s[idx[k]]))
    && (forall i | 0 <= i < |s| && p(s[i]) :: i in idx)
  }

  /** `r` is `[f(x) for x in s if p(x)]`: the images of the passing
      elements, all of them, in their order in `s`. */
  ghost predicate Comprehension<T, U>(r: seq<U>, s: seq<T>, p: T -> bool, f: T -> U) {
    exists idx :: PickedAt(r, s, p, f, idx)
  }

  /** Every position moved one place on. */
  function Next(idx: seq<nat>): (n: seq<nat>)
    ensures |n| == |idx|
    ensures forall k | 0 <= k < |idx| :: n[k] == idx[k] + 1
  {
    seq(|idx|, k requires 0 <= k < |idx| => idx[k] + 1)
  }

  /** Nothing is picked from an empty sequence. */
  lemma ComprehensionNil<T, U>(p: T -> bool, f: T -> U)
    ensures Comprehension([], [], p, f)
  {
    assert PickedAt([], [], p, f, []);
  }

  /** An element in front that fails `p` is skipped. */
  lemma PickedSkip<T, U>(x: T, s: seq<T>, p: T -> bool, f: T -> U, r: seq<U>, idx: seq<nat>)
    requires PickedAt(r, s, p, f, idx) && !p(x)
    ensures PickedAt(r, [x] + s, p, f, Next(idx))
  {
    var xs := [x] + s;
    var n := Next(idx);
    assert forall k | 0 <= k < |idx| :: xs[n[k]] == s[idx[k]];
    forall i | 0 <= i < |xs| && p(xs[i]) ensures i in n {
      assert i != 0 && xs[i] == s[i - 1];
      var k :| 0 <= k < |idx| && idx[k] == i - 1;
      assert n[k] == i;
    }
  }

  /** An element in front that passes `p` is picked first, mapped by `f`. */
  lemma PickedTake<T, U>(x: T, s: seq<T>, p: T -> bool, f: T -> U, r: seq<U>, idx: seq<nat>)
    requires PickedAt(r, s, p, f, idx) && p(x)
    ensures PickedAt([f(x)] + r, [x] + s, p, f, [0] + Next(idx))
  {
    TakeIncreasing(idx);
    TakeAligned(x, s, p, f, r, idx);
    TakeCovers(x, s, p, idx);
  }

  /** Putting position 0 in front of the shifted positions keeps them
      increasing. */
  lemma TakeIncreasing(idx: seq<nat>)
    requires forall a, b | 0 <= a < b < |idx| :: idx[a] < idx[b]
    ensures var n := [0] + Next(idx); forall a, b | 0 <= a < b < |n| :: n[a] < n[b]
  {
    var n := [0] + Next(idx);
    forall a, b | 0 <= a < b < |n| ensures n[a] < n[b] {
      assert n[b] == idx[b - 1] + 1;
      if a > 0 {
        assert n[a] == idx[a - 1] + 1;
      }
    }
  }

  /** Each shifted position still points at its picked element. */
  lemma TakeAligned<T, U>(x: T, s: seq<T>, p: T -> bool, f: T -> U, r: seq<U>, idx: seq<nat>)
    requires |idx| == |r| && p(x)
    requires forall k | 0 <= k < |idx| :: idx[k] < |s| && p(s[idx[k]]) && r[k] == f(s[idx[k]])
    ensures var xs, n, rs := [x] + s, [0] + Next(idx), [f(x)] + r;
      forall k | 0 <= k < |n| :: n[k] < |xs| && p(xs[n[k]]) && rs[k] == f(xs[n[k]])
  {
    var xs, n, rs := [x] + s, [0] + Next(idx), [f(x)] + r;
    forall k | 0 <= k < |n| ensures n[k] < |xs| && p(xs[n[k]]) && rs[k] == f(xs[n[k]]) {
      if k > 0 {
        assert n[k] == idx[k - 1] + 1 && rs[k] == r[k - 1];
        assert xs[n[k]] == s[idx[k - 1]];
      }
    }
  }

  /** Every passing position of the longer sequence is among the new
      positions. */
  lemma TakeCovers<T>(x: T, s: seq<T>, p: T -> bool, idx: seq<nat>)
    requires forall i | 0 <= i < |s| && p(s[i]) :: i in idx
    ensures var xs, n := [x] + s, [0] + Next(idx); forall i | 0 <= i < |xs| && p(xs[i]) :: i in n
  {
    var xs, n := [x] + s, [0] + Next(idx);
    forall i | 0 <= i < |xs| && p(xs[i]) ensures i in n {
      if i > 0 {
        assert xs[i] == s[i - 1];
        var k :| 0 <= k < |idx| && idx[k] == i - 1;
        assert n[k + 1] == i;
      }
    }
  }

  /** One more element in front of `s` is picked, mapped, exactly when it
      passes. */
  lemma ComprehensionCons<T, U>(x: T, s: seq<T>, p: T -> bool, f: T -> U, r: seq<U>)
    requires Comprehension(r, s, p, f)
    ensures Comprehension((if p(x) then [f(x)] else []) + r, [x] + s, p, f)
  {
    var idx :| PickedAt(r, s, p, f, idx);
    var rs := (if p(x) then [f(x)] else []) + r;
    if p(x) {
      PickedTake(x, s, p, f, r, idx);
      assert PickedAt(rs, [x] + s, p, f, [0] + Next(idx));
    } else {
      PickedSkip(x, s, p, f, r, idx);
      assert rs == r;
      assert PickedAt(rs, [x] + s, p, f, Next(idx));
    }
  }

  /** The comprehension of a non-empty sequence is that of its head in
      front of that of its tail. */
  lemma ComprehensionStep<T, U>(s: seq<T>, p: T -> bool, f: T -> U, rest: seq<U>)
    requires s != [] && Comprehension(rest, s[1..], p, f)
    ensures Comprehension((if p(s[0]) then [f(s[0])] else []) + rest, s, p, f)
  {
    ComprehensionCons(s[0], s[1..], p, f, rest);
    assert s == [s[0]] + s[1..];
  }

  /** The element itself, for comprehensions that do not map. */
  function Same<T>(x: T): T {
    x
  }

  /** A selection without mapping: the head, when it passes, in front of
      the selection from the tail. */
  lemma SelectStep<T>(s: seq<T>, p: T -> bool, rest: seq<T>)
    requires s != [] && Comprehension(rest, s[1..], p, Same)
    ensures Comprehension(if p(s[0]) then [s[0]] + rest else rest, s, p, Same)
  {
    ComprehensionStep(s, p, Same, rest);
    assert (if p(s[0]) then [Same(s[0])] else []) + rest == (if p(s[0]) then [s[0]] + rest else rest);
  }

  /** The filtering step keeps the length bound and the members: the
      passing elements, and all of them. */
  lemma KeepMembers<T>(s: seq<T>, p: T -> bool, rest: seq<T>)
    requires s != []
    requires |rest| <= |s| - 1
    requires forall i | 0 <= i < |rest| :: rest[i] in s[1..] && p(rest[i])
    requires forall i | 1 <= i < |s| && p(s[i]) :: s[i] in rest
    ensures var r := if p(s[0]) then [s[0]] + rest else rest;
      && |r| <= |s|
      && (forall i | 0 <= i < |r| :: r[i] in s && p(r[i]))
      && (forall i | 0 <= i < |s| && p(s[i]) :: s[i] in r)
  {
    var r := if p(s[0]) then [s[0]] + rest else rest;
    assert p(s[0]) ==> r[1..] == rest;
  }

  /** The filtering step keeps the order. */
  lemma KeepSublist<T>(s: seq<T>, p: T -> bool, rest: seq<T>)
    requires s != [] && Sublist(rest, s[1..])
    ensures Sublist(if p(s[0]) then [s[0]] + rest else rest, s)
  {
    var r := if p(s[0]) then [s[0]] + rest else rest;
    assert p(s[0]) ==> r[1..] == rest;
  }

  /** `Array.prototype.filter`. */
  function Keep<T(==)>(s: seq<T>, p: T -> bool): (r: seq<T>)
    ensures |r| <= |s|
    ensures forall i | 0 <= i < |r| :: r[i] in s && p(r[i])
    ensures forall i | 0 <= i < |s| && p(s[i]) :: s[i] in r
    ensures Sublist(r, s)
    ensures Comprehension(r, s, p, Same)
    decreases |s|
  {
    if s == [] then
      ComprehensionNil(p, Same<T>);
      []
    else
      var rest := Keep(s[1..], p);
      assert forall i | 1 <= i < |s| :: s[i] == s[1..][i - 1];
      KeepMembers(s, p, rest);
      KeepSublist(s, p, rest);
      SelectStep(s, p, rest);
      if p(s[0]) then [s[0]] + rest else rest
  }

  /** Filtering with a test every element passes keeps everything. */
  lemma {:induction false} KeepAll<T>(s: seq<T>, p: T -> bool)
    requires forall i | 0 <= i < |s| :: p(s[i])
    ensures Keep(s, p) == s
    decreases |s|
  {
    if s != [] {
      KeepAll(s[1..], p);
    }
  }

  /** Filtering with two tests that agree gives the same list. */
  lemma {:induction false} KeepAgrees<T>(s: seq<T>, p: T -> bool, q: T -> bool)
    requires forall i | 0 <= i < |s| :: p(s[i]) == q(s[i])
    ensures Keep(s, p) == Keep(s, q)
    decreases |s|
  {
    if s != [] {
      KeepAgrees(s[1..], p, q);
    }
  }
}
