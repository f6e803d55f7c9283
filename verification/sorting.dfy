/** Stable sorting as the identifiers use it: Python's
    `list.sort(key=..., reverse=True)` keeps elements with equal keys in their
    original order while ordering keys from largest to smallest, and
    `sorted(set(names))` yields the distinct names in ascending order. */
module Sorting {
  import Text

  // ---------------------------------------------------------------------------
  // Stable descending sort on a real-valued key

  /** `s` is ordered by `key`, largest first. */
  predicate SortedDesc<T>(s: seq<T>, key: T -> real) {
    forall i, j | 0 <= i < j < |s| :: key(s[i]) >= key(s[j])
  }

  /** The elements of `s` whose key is `k`, in their order in `s`. */
  function WithKey<T>(s: seq<T>, key: T -> real, k: real): (r: seq<T>)
    ensures |r| <= |s|
  {
    if s == [] then []
    else (if key(s[0]) == k then [s[0]] else []) + WithKey(s[1..], key, k)
  }

  /** Places `x` after every element whose key is at least its own. */
  function Insert<T>(x: T, s: seq<T>, key: T -> real): (r: seq<T>)
    ensures |r| == |s| + 1
  {
    if s == [] then [x]
    else if key(s[0]) >= key(x) then [s[0]] + Insert(x, s[1..], key)
    else [x] + s
  }

  lemma {:induction false} InsertPermutes<T>(x: T, s: seq<T>, key: T -> real)
    ensures multiset(Insert(x, s, key)) == multiset(s) + multiset{x}
    decreases |s|
  {
    if s != [] && key(s[0]) >= key(x) {
      InsertPermutes(x, s[1..], key);
      assert s == [s[0]] + s[1..];
    }
  }

  /** `sorted(s, key=key, reverse=True)`: insertion of each element, left to
      right, into the already sorted prefix. */
  function SortDesc<T>(s: seq<T>, key: T -> real): (r: seq<T>)
    ensures |r| == |s|
    decreases |s|
  {
    if s == [] then []
    else Insert(s[|s| - 1], SortDesc(s[..|s| - 1], key), key)
  }

  /** Sorting only reorders: the result is a permutation of the input. */
  lemma {:induction false} SortDescPermutes<T>(s: seq<T>, key: T -> real)
    ensures multiset(SortDesc(s, key)) == multiset(s)
    decreases |s|
  {
    if s != [] {
      SortDescPermutes(s[..|s| - 1], key);
      InsertPermutes(s[|s| - 1], SortDesc(s[..|s| - 1], key), key);
      assert s == s[..|s| - 1] + [s[|s| - 1]];
    }
  }

  lemma {:induction false} InsertSorted<T>(x: T, s: seq<T>, key: T -> real)
    requires SortedDesc(s, key)
    ensures SortedDesc(Insert(x, s, key), key)
    decreases |s|
  {
    if s != [] && key(s[0]) >= key(x) {
      InsertSorted(x, s[1..], key);
      InsertPermutes(x, s[1..], key);
      var r := Insert(x, s, key);
      var t := Insert(x, s[1..], key);
      assert r == [s[0]] + t;
      forall j | 0 <= j < |t|
        ensures key(s[0]) >= key(t[j])
      {
        assert t[j] in multiset(t);
        if t[j] != x {
          assert t[j] in multiset(s[1..]);
          var m :| 0 <= m < |s[1..]| && s[1..][m] == t[j];
          assert s[1..][m] == s[m + 1];
        }
      }
    }
  }

  /** The result of `SortDesc` is ordered, largest key first. */
  lemma {:induction false} SortDescSorted<T>(s: seq<T>, key: T -> real)
    ensures SortedDesc(SortDesc(s, key), key)
    decreases |s|
  {
    if s != [] {
      SortDescSorted(s[..|s| - 1], key);
      InsertSorted(s[|s| - 1], SortDesc(s[..|s| - 1], key), key);
    }
  }

  lemma {:induction false} WithKeyAppend<T>(a: seq<T>, b: seq<T>, key: T -> real, k: real)
    ensures WithKey(a + b, key, k) == WithKey(a, key, k) + WithKey(b, key, k)
    decreases |a|
  {
    if a == [] {
      assert a + b == b;
    } else {
      var head := if key(a[0]) == k then [a[0]] else [];
      WithKeyCons(a[0], a[1..] + b, key, k);
      WithKeyCons(a[0], a[1..], key, k);
      assert a + b == [a[0]] + (a[1..] + b);
      assert a == [a[0]] + a[1..];
      WithKeyAppend(a[1..], b, key, k);
      assert head + (WithKey(a[1..], key, k) + WithKey(b, key, k))
          == (head + WithKey(a[1..], key, k)) + WithKey(b, key, k);
    }
  }

  /** One step of `WithKey` on a list written as its head and tail. */
  lemma WithKeyCons<T>(x: T, s: seq<T>, key: T -> real, k: real)
    ensures WithKey([x] + s, key, k) == (if key(x) == k then [x] else []) + WithKey(s, key, k)
  {
    assert ([x] + s)[0] == x && ([x] + s)[1..] == s;
  }

  lemma {:induction false} InsertWithKey<T>(x: T, s: seq<T>, key: T -> real, k: real)
    requires SortedDesc(s, key)
    ensures WithKey(Insert(x, s, key), key, k)
         == WithKey(s, key, k) + (if key(x) == k then [x] else [])
    decreases |s|
  {
    if s == [] {
      WithKeyCons(x, [], key, k);
    } else if key(s[0]) >= key(x) {
      var t := Insert(x, s[1..], key);
      InsertWithKey(x, s[1..], key, k);
      assert Insert(x, s, key) == [s[0]] + t;
      WithKeyCons(s[0], t, key, k);
      WithKeyCons(s[0], s[1..], key, k);
      assert s == [s[0]] + s[1..];
    } else {
      // every element of `s` has a key below `key(x)`: none shares it
      if key(x) == k {
        NoneWithKey(s, key, k);
      }
      WithKeyCons(x, s, key, k);
    }
  }

  lemma {:induction false} NoneWithKey<T>(s: seq<T>, key: T -> real, k: real)
    requires forall i | 0 <= i < |s| :: key(s[i]) < k
    ensures WithKey(s, key, k) == []
    decreases |s|
  {
    if s != [] {
      NoneWithKey(s[1..], key, k);
    }
  }

  /** Stability: the elements sharing any one key appear in the result in
      exactly their input order. */
  lemma {:induction false} SortDescStable<T>(s: seq<T>, key: T -> real, k: real)
    ensures WithKey(SortDesc(s, key), key, k) == WithKey(s, key, k)
    decreases |s|
  {
    if s != [] {
      var init, last := s[..|s| - 1], s[|s| - 1];
      SortDescStable(init, key, k);
      SortDescSorted(init, key);
      InsertWithKey(last, SortDesc(init, key), key, k);
      assert s == init + [last];
      WithKeyAppend(init, [last], key, k);
    }
  }

  /** Mapping commutes with sorting when the map keeps every key: sorting the
      projected list gives the projection of the sorted list. */
  lemma {:induction false} SortDescMap<T, U>(s: seq<T>, key: T -> real, f: T -> U, key': U -> real)
    requires forall x :: key'(f(x)) == key(x)
    ensures SortDesc(MapSeq(s, f), key') == MapSeq(SortDesc(s, key), f)
    decreases |s|
  {
    if s != [] {
      var init, last := s[..|s| - 1], s[|s| - 1];
      var ms := MapSeq(s, f);
      SortDescMap(init, key, f, key');
      assert ms[..|ms| - 1] == MapSeq(init, f);
      assert ms[|ms| - 1] == f(last);
      assert SortDesc(ms, key') == Insert(f(last), SortDesc(MapSeq(init, f), key'), key');
      InsertMap(last, SortDesc(init, key), key, f, key');
      assert SortDesc(s, key) == Insert(last, SortDesc(init, key), key);
    }
  }

  lemma {:induction false} InsertMap<T, U>(x: T, s: seq<T>, key: T -> real, f: T -> U, key': U -> real)
    requires forall y :: key'(f(y)) == key(y)
    ensures Insert(f(x), MapSeq(s, f), key') == MapSeq(Insert(x, s, key), f)
    decreases |s|
  {
    if s != [] {
      InsertMap(x, s[1..], key, f, key');
      assert MapSeq(s, f)[1..] == MapSeq(s[1..], f);
      if key(s[0]) >= key(x) {
        assert MapSeq([s[0]] + Insert(x, s[1..], key), f)
            == [f(s[0])] + MapSeq(Insert(x, s[1..], key), f);
      } else {
        assert MapSeq([x] + s, f) == [f(x)] + MapSeq(s, f);
      }
    }
  }

  /** `[f(x) for x in s]`. */
  function MapSeq<T, U>(s: seq<T>, f: T -> U): (r: seq<U>)
    ensures |r| == |s|
    ensures forall i | 0 <= i < |s| :: r[i] == f(s[i])
  {
    seq(|s|, i requires 0 <= i < |s| => f(s[i]))
  }

  // ---------------------------------------------------------------------------
  // Sorted sets of strings

  /** The set of elements of `s`. */
  function Elems(s: seq<string>): set<string> {
    set i | 0 <= i < |s| :: s[i]
  }

  lemma ElemsCons(x: string, s: seq<string>)
    ensures Elems([x] + s) == {x} + Elems(s)
  {
    var c := [x] + s;
    forall y | y in Elems(c) ensures y in {x} + Elems(s) {
      var i :| 0 <= i < |c| && c[i] == y;
      if i > 0 {
        assert s[i - 1] == y;
      }
    }
    forall y | y in Elems(s) ensures y in Elems(c) {
      var i :| 0 <= i < |s| && s[i] == y;
      assert c[i + 1] == y;
    }
    assert c[0] == x;
  }

  lemma ElemsHead(s: seq<string>, e: seq<string>)
    requires s != [] && e == []
    ensures s[0] in Elems(s) && Elems(e) == {}
  {
  }

  /** Strictly ascending in code-point order: sorted and free of duplicates. */
  predicate StrictlyAscending(s: seq<string>) {
    forall i, j | 0 <= i < j < |s| :: Text.Less(s[i], s[j])
  }

  /** Inserts `x` into a strictly ascending list unless it is already there. */
  function InsertUnique(x: string, s: seq<string>): (r: seq<string>)
    requires StrictlyAscending(s)
    ensures StrictlyAscending(r)
    ensures Elems(r) == Elems(s) + {x}
  {
    if s == [] then
      ElemsCons(x, []);
      [x]
    else if x == s[0] then s
    else if Text.Less(x, s[0]) then
      assert forall j | 0 < j < |s| :: Text.Less(x, s[j]) by {
        forall j | 0 < j < |s| ensures Text.Less(x, s[j]) {
          Text.LessTransitive(x, s[0], s[j]);
        }
      }
      ElemsCons(x, s);
      [x] + s
    else
      Text.LessTotal(x, s[0]);
      var t := InsertUnique(x, s[1..]);
      assert forall i | 0 <= i < |t| :: Text.Less(s[0], t[i]) by {
        forall i | 0 <= i < |t| ensures Text.Less(s[0], t[i]) {
          assert t[i] in Elems(t);
          if t[i] != x {
            var j :| 0 <= j < |s[1..]| && s[1..][j] == t[i];
            assert s[j + 1] == t[i];
          }
        }
      }
      ElemsCons(s[0], t);
      ElemsCons(s[0], s[1..]);
      assert s == [s[0]] + s[1..];
      [s[0]] + t
  }

  /** `sorted(set(names))`. */
  function SortedSet(names: seq<string>): (r: seq<string>)
    ensures StrictlyAscending(r)
    ensures Elems(r) == Elems(names)
    decreases |names|
  {
    if names == [] then []
    else
      var init := names[..|names| - 1];
      assert Elems(names) == Elems(init) + {names[|names| - 1]};
      InsertUnique(names[|names| - 1], SortedSet(init))
  }

  /** A strictly ascending list is determined by its elements, so
      `SortedSet` is the only possible result of `sorted(set(names))`. */
  lemma {:induction false} StrictlyAscendingUnique(a: seq<string>, b: seq<string>)
    requires StrictlyAscending(a) && StrictlyAscending(b)
    requires Elems(a) == Elems(b)
    ensures a == b
    decreases |a|
  {
    if a != [] && b != [] {
      var sa := Elems(a);
      assert a[0] in sa && b[0] in sa;
      if a[0] != b[0] {
        var jb :| 0 <= jb < |b| && b[jb] == a[0];
        var ja :| 0 <= ja < |a| && a[ja] == b[0];
        assert jb > 0 && ja > 0;
        Text.LessAsymmetric(b[0], a[0]);
        assert false;
      }
      assert Elems(a[1..]) == sa - {a[0]} by {
        forall i | 0 < i < |a| ensures a[i] != a[0] {
          Text.LessIrreflexive(a[0]);
        }
      }
      assert Elems(b[1..]) == sa - {b[0]} by {
        forall i | 0 < i < |b| ensures b[i] != b[0] {
          Text.LessIrreflexive(b[0]);
        }
      }
      StrictlyAscendingUnique(a[1..], b[1..]);
    } else if a != [] {
      ElemsHead(a, b);
      assert false;
    } else if b != [] {
      ElemsHead(b, a);
      assert false;
    }
  }
}
