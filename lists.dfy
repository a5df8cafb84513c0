/**
 * The Python list operations the catalog code relies on: slicing with `[:limit]`
 * and the stable `list.sort(key=...)`, here with keys that are a number followed
 * by a name, compared the way Python compares such tuples.
 */
module Lists {
  import Strings
  import opened Wrappers

  /**
   * The list a loop builds by appending `f(x)` for every `x` of `s`, in order,
   * for which `f` gives a value.
   */
  function Keep<T, U>(f: T -> Option<U>, s: seq<T>): (r: seq<U>)
    ensures |r| <= |s|
  {
    if s == [] then []
    else Keep(f, s[..|s| - 1]) + (match f(s[|s| - 1]) case Some(u) => [u] case None => [])
  }

  lemma {:induction false} KeepConcat<T, U>(f: T -> Option<U>, a: seq<T>, b: seq<T>)
    ensures Keep(f, a + b) == Keep(f, a) + Keep(f, b)
    decreases |b|
  {
    if b == [] {
      assert a + b == a;
    } else {
      var b' := b[..|b| - 1];
      assert (a + b)[..|a + b| - 1] == a + b';
      assert (a + b)[|a + b| - 1] == b[|b| - 1];
      KeepConcat(f, a, b');
    }
  }

  /** `u` is kept exactly when some element of `s` maps to it. */
  lemma {:induction false} KeepMember<T, U>(f: T -> Option<U>, s: seq<T>, u: U)
    ensures u in Keep(f, s) <==> exists i | 0 <= i < |s| :: f(s[i]) == Some(u)
  {
    if s != [] {
      var init, last := s[..|s| - 1], s[|s| - 1];
      KeepMember(f, init, u);
      var tail := match f(last) case Some(v) => [v] case None => [];
      assert Keep(f, s) == Keep(f, init) + tail;
      assert u in tail <==> f(last) == Some(u);
      if u in Keep(f, init) {
        var i :| 0 <= i < |init| && f(init[i]) == Some(u);
        assert s[i] == init[i];
      }
      if exists i | 0 <= i < |s| :: f(s[i]) == Some(u) {
        var i :| 0 <= i < |s| && f(s[i]) == Some(u);
        if i < |init| {
          assert init[i] == s[i];
        }
      }
    }
  }

  /** Every element of `s` is kept exactly when `f` gives a value for each. */
  lemma {:induction false} KeepAll<T, U>(f: T -> Option<U>, s: seq<T>)
    requires forall i | 0 <= i < |s| :: f(s[i]).Some?
    ensures |Keep(f, s)| == |s|
  {
    if s != [] {
      var init := s[..|s| - 1];
      assert forall i | 0 <= i < |init| :: init[i] == s[i];
      KeepAll(f, init);
    }
  }

  lemma MultisetRemoveAt<T>(b: seq<T>, i: nat)
    requires i < |b|
    ensures multiset(b[..i] + b[i + 1..]) == multiset(b) - multiset{b[i]}
  {
    assert b == b[..i] + [b[i]] + b[i + 1..];
    assert multiset(b) == multiset(b[..i]) + multiset{b[i]} + multiset(b[i + 1..]);
  }

  /**
   * A list is its prefix, one element and its suffix. Stated apart so that the
   * sequence equality is proved without the `Keep` facts of the caller in scope.
   */
  lemma SplitAt<T>(b: seq<T>, i: nat)
    requires i < |b|
    ensures b == b[..i] + [b[i]] + b[i + 1..]
  {
  }

  lemma KeepAround<T, U>(f: T -> Option<U>, b: seq<T>, i: nat)
    requires i < |b|
    ensures multiset(Keep(f, b)) == multiset(Keep(f, b[..i] + b[i + 1..])) + multiset(Keep(f, [b[i]]))
  {
    var b1, x, b2 := b[..i], b[i], b[i + 1..];
    SplitAt(b, i);
    KeepConcat(f, b1, b2);
    KeepConcat(f, b1 + [x], b2);
    KeepConcat(f, b1, [x]);
  }

  /** What a loop keeps depends only on which elements it visits, not on their order. */
  lemma {:induction false} KeepPermutation<T, U>(f: T -> Option<U>, a: seq<T>, b: seq<T>)
    requires multiset(a) == multiset(b)
    ensures multiset(Keep(f, a)) == multiset(Keep(f, b))
    decreases |a|
  {
    if a == [] {
      assert |b| == |multiset(b)| == 0;
    } else {
      var x := a[|a| - 1];
      var a' := a[..|a| - 1];
      assert a == a' + [x];
      MultisetRemoveAt(a, |a| - 1);
      assert x in multiset(b);
      var i :| 0 <= i < |b| && b[i] == x;
      MultisetRemoveAt(b, i);
      var rest := b[..i] + b[i + 1..];
      assert multiset(a') == multiset(rest);
      KeepPermutation(f, a', rest);
      KeepConcat(f, a', [x]);
      KeepAround(f, b, i);
      calc {
        multiset(Keep(f, a));
        multiset(Keep(f, a') + Keep(f, [x]));
        multiset(Keep(f, a')) + multiset(Keep(f, [x]));
        multiset(Keep(f, rest)) + multiset(Keep(f, [x]));
        multiset(Keep(f, b));
      }
    }
  }

  /** A generator expression `(f(x) for x in s)`, taken as a list. */
  function Map<T, U>(f: T -> U, s: seq<T>): (r: seq<U>)
    ensures |r| == |s|
    ensures forall i | 0 <= i < |s| :: r[i] == f(s[i])
  {
    seq(|s|, i requires 0 <= i < |s| => f(s[i]))
  }

  /** The end index Python uses for `xs[:limit]` when `len(xs) == n` (a negative limit counts from the end). */
  function SliceStop(limit: int, n: nat): (k: nat)
    ensures k <= n
    ensures 0 <= limit <= n ==> k == limit
  {
    if limit >= 0 then (if limit < n then limit else n)
    else if n + limit > 0 then n + limit
    else 0
  }

  /** A sort key `(primary, name)`; Python compares tuples field by field. */
  datatype SortKey = SortKey(primary: int, name: string)

  predicate KeyLess(a: SortKey, b: SortKey) {
    a.primary < b.primary || (a.primary == b.primary && Strings.Less(a.name, b.name))
  }

  lemma KeyLessIrreflexive(a: SortKey)
    ensures !KeyLess(a, a)
  {
    Strings.LessIrreflexive(a.name);
  }

  lemma KeyLessTransitive(a: SortKey, b: SortKey, c: SortKey)
    requires KeyLess(a, b) && KeyLess(b, c)
    ensures KeyLess(a, c)
  {
    if a.primary == b.primary == c.primary {
      Strings.LessTransitive(a.name, b.name, c.name);
    }
  }

  lemma KeyLessTotal(a: SortKey, b: SortKey)
    ensures a == b || KeyLess(a, b) || KeyLess(b, a)
  {
    Strings.LessTotal(a.name, b.name);
  }

  /** No element is ordered strictly before an element to its left. */
  ghost predicate SortedBy<T>(s: seq<T>, key: T -> SortKey) {
    forall i, j | 0 <= i < j < |s| :: !KeyLess(key(s[j]), key(s[i]))
  }

  /** Inserts `x` after every element whose key is not greater than its own. */
  function Insert<T>(x: T, s: seq<T>, key: T -> SortKey): (r: seq<T>)
    ensures |r| == |s| + 1
  {
    if s == [] then [x]
    else if KeyLess(key(x), key(s[0])) then [x] + s
    else [s[0]] + Insert(x, s[1..], key)
  }

  /** `sorted(s, key=key)`: a stable insertion sort. */
  function Sort<T>(s: seq<T>, key: T -> SortKey): (r: seq<T>)
    ensures |r| == |s|
    decreases |s|
  {
    if s == [] then [] else Insert(s[|s| - 1], Sort(s[..|s| - 1], key), key)
  }

  lemma {:induction false} InsertPermutes<T>(x: T, s: seq<T>, key: T -> SortKey)
    ensures multiset(Insert(x, s, key)) == multiset(s) + multiset{x}
  {
    if s != [] && !KeyLess(key(x), key(s[0])) {
      var rest := Insert(x, s[1..], key);
      InsertPermutes(x, s[1..], key);
      assert Insert(x, s, key) == [s[0]] + rest;
      assert multiset([s[0]] + rest) == multiset{s[0]} + multiset(rest);
      assert s == [s[0]] + s[1..];
      assert multiset(s) == multiset{s[0]} + multiset(s[1..]);
    }
  }

  lemma {:induction false} InsertSorted<T>(x: T, s: seq<T>, key: T -> SortKey)
    requires SortedBy(s, key)
    ensures SortedBy(Insert(x, s, key), key)
  {
    if s == [] {
    } else if KeyLess(key(x), key(s[0])) {
      forall j | 0 < j < |s| + 1
        ensures !KeyLess(key(([x] + s)[j]), key(x))
      {
        if KeyLess(key(s[j - 1]), key(x)) {
          KeyLessTransitive(key(s[j - 1]), key(x), key(s[0]));
          if j - 1 == 0 {
            KeyLessIrreflexive(key(s[0]));
          }
        }
      }
    } else {
      InsertSorted(x, s[1..], key);
      var tail := Insert(x, s[1..], key);
      InsertPermutes(x, s[1..], key);
      forall j | 0 <= j < |tail|
        ensures !KeyLess(key(tail[j]), key(s[0]))
      {
        assert tail[j] in multiset(s[1..]) + multiset{x};
        if tail[j] != x {
          assert tail[j] in s[1..];
          var k :| 0 <= k < |s[1..]| && s[1..][k] == tail[j];
          assert s[k + 1] == tail[j];
        }
      }
    }
  }

  /** The sort returns its input in order, as a permutation. */
  lemma {:induction false} SortSortedPermutation<T>(s: seq<T>, key: T -> SortKey)
    ensures SortedBy(Sort(s, key), key)
    ensures multiset(Sort(s, key)) == multiset(s)
    decreases |s|
  {
    if s != [] {
      var init := s[..|s| - 1];
      SortSortedPermutation(init, key);
      InsertSorted(s[|s| - 1], Sort(init, key), key);
      InsertPermutes(s[|s| - 1], Sort(init, key), key);
      assert s == init + [s[|s| - 1]];
    }
  }

  /** Distinct elements of `s` have distinct keys. */
  ghost predicate KeysDistinct<T>(s: seq<T>, key: T -> SortKey) {
    forall i, j | 0 <= i < |s| && 0 <= j < |s| && s[i] != s[j] :: key(s[i]) != key(s[j])
  }

  /** Two sorted arrangements of the same elements start with the same element. */
  lemma SortedSameHead<T>(a: seq<T>, b: seq<T>, key: T -> SortKey)
    requires SortedBy(a, key) && SortedBy(b, key)
    requires multiset(a) == multiset(b) && a != []
    requires KeysDistinct(a, key)
    ensures b != [] && a[0] == b[0]
  {
    assert a[0] in multiset(b);
    assert b != [] && b[0] in multiset(a);
    var i :| 0 <= i < |b| && b[i] == a[0];
    var j :| 0 <= j < |a| && a[j] == b[0];
    assert !KeyLess(key(a[0]), key(b[0])) by {
      if j == 0 { KeyLessIrreflexive(key(b[0])); }
    }
    assert !KeyLess(key(b[0]), key(a[0])) by {
      if i == 0 { KeyLessIrreflexive(key(a[0])); }
    }
    KeyLessTotal(key(a[0]), key(b[0]));
  }

  lemma MultisetTail<T>(a: seq<T>, b: seq<T>)
    requires multiset(a) == multiset(b) && a != [] && b != [] && a[0] == b[0]
    ensures multiset(a[1..]) == multiset(b[1..])
  {
    assert a == [a[0]] + a[1..] && b == [b[0]] + b[1..];
    assert multiset(a[1..]) == multiset(a) - multiset{a[0]};
    assert multiset(b[1..]) == multiset(b) - multiset{b[0]};
  }

  /**
   * Two sorted arrangements of the same elements are the same sequence when
   * distinct elements have distinct keys: the order of the input is forgotten.
   */
  lemma {:induction false} SortedUnique<T>(a: seq<T>, b: seq<T>, key: T -> SortKey)
    requires SortedBy(a, key) && SortedBy(b, key)
    requires multiset(a) == multiset(b)
    requires KeysDistinct(a, key)
    ensures a == b
    decreases |a|
  {
    if a == [] {
      assert |b| == |multiset(b)| == 0;
    } else {
      SortedSameHead(a, b, key);
      MultisetTail(a, b);
      var a', b' := a[1..], b[1..];
      assert SortedBy(a', key) by {
        forall i, j | 0 <= i < j < |a'| ensures !KeyLess(key(a'[j]), key(a'[i])) {
          assert a'[i] == a[i + 1] && a'[j] == a[j + 1];
        }
      }
      assert SortedBy(b', key) by {
        forall i, j | 0 <= i < j < |b'| ensures !KeyLess(key(b'[j]), key(b'[i])) {
          assert b'[i] == b[i + 1] && b'[j] == b[j + 1];
        }
      }
      assert KeysDistinct(a', key) by {
        forall i, j | 0 <= i < |a'| && 0 <= j < |a'| && a'[i] != a'[j]
          ensures key(a'[i]) != key(a'[j])
        {
          assert a'[i] == a[i + 1] && a'[j] == a[j + 1];
        }
      }
      SortedUnique(a', b', key);
      assert a == [a[0]] + a' && b == [b[0]] + b';
    }
  }
}
