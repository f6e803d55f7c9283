/** Counting the positions of a sequence that satisfy a test: the set of such
    positions, and its shift by one when the head of the sequence is dropped. */
module Counting {

  /** Every position moved one place to the right. */
  function Shift(s: set<nat>): set<nat> {
    set i | i in s :: i + 1
  }

  /** Shifting a set of positions keeps its size. */
  lemma {:induction false} ShiftCard(s: set<nat>)
    ensures |Shift(s)| == |s|
    decreases |s|
  {
    if s != {} {
      var x :| x in s;
      var s' := s - {x};
      ShiftCard(s');
      forall y | y in Shift(s) ensures y in Shift(s') + {x + 1} {
        var i :| i in s && y == i + 1;
        if i != x {
          assert i in s';
        }
      }
      forall y | y in Shift(s') + {x + 1} ensures y in Shift(s) {
        if y != x + 1 {
          var i :| i in s' && y == i + 1;
        }
      }
      assert Shift(s) == Shift(s') + {x + 1};
    }
  }

  /** The positions of `s` whose element passes `p`. */
  function Where<T>(s: seq<T>, p: T -> bool): set<nat> {
    set i: nat | i < |s| && p(s[i])
  }

  /** The positions passing `p`, split at the head: position 0 if the head
      passes, and the tail's positions moved one place on. */
  lemma WhereCons<T>(s: seq<T>, p: T -> bool)
    requires s != []
    ensures Where(s, p) == (if p(s[0]) then {0} else {}) + Shift(Where(s[1..], p))
    ensures |Where(s, p)| == (if p(s[0]) then 1 else 0) + |Where(s[1..], p)|
  {
    var head: set<nat> := if p(s[0]) then {0} else {};
    var rest := Shift(Where(s[1..], p));
    forall y | y in Where(s, p) ensures y in head + rest {
      if y > 0 {
        assert s[1..][y - 1] == s[y];
        assert y - 1 in Where(s[1..], p);
      }
    }
    forall y | y in head + rest ensures y in Where(s, p) {
      if y > 0 {
        var i :| i in Where(s[1..], p) && y == i + 1;
        assert s[1..][i] == s[y];
      }
    }
    assert Where(s, p) == head + rest;
    ShiftCard(Where(s[1..], p));
    assert 0 !in rest;
  }
}
