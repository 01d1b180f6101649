/**
 * Ranking: the bubble sort of the engine, over any key. It swaps two
 * neighbours only when the left key is strictly greater, so it is stable,
 * and its result is the one stable sort of the input: the reference
 * insertion sort below.
 */
module Sorting {

  /** Keys never decrease from left to right. */
  ghost predicate SortedBy<T>(s: seq<T>, key: T -> nat) {
    forall i, j :: 0 <= i < j < |s| ==> key(s[i]) <= key(s[j])
  }

  /** The elements of `s` whose key is `v`, in their order in `s`. */
  function Class<T>(s: seq<T>, key: T -> nat, v: nat): seq<T> {
    if s == [] then []
    else (if key(s[0]) == v then [s[0]] else []) + Class(s[1..], key, v)
  }

  /** Within every key, the two sequences list the same elements in the same order. */
  ghost predicate SameClasses<T>(s: seq<T>, t: seq<T>, key: T -> nat) {
    forall v :: Class(s, key, v) == Class(t, key, v)
  }

  lemma {:induction false} ClassMembers<T>(s: seq<T>, key: T -> nat, v: nat, x: T)
    ensures x in Class(s, key, v) <==> x in s && key(x) == v
  {
    if s != [] {
      ClassMembers(s[1..], key, v, x);
      assert s == [s[0]] + s[1..];
    }
  }

  lemma {:induction false} ClassConcat<T>(s: seq<T>, t: seq<T>, key: T -> nat, v: nat)
    ensures Class(s + t, key, v) == Class(s, key, v) + Class(t, key, v)
  {
    if s == [] {
      assert s + t == t;
    } else {
      var st, head := s + t, if key(s[0]) == v then [s[0]] else [];
      assert st[0] == s[0] && st[1..] == s[1..] + t;
      assert Class(st, key, v) == head + Class(s[1..] + t, key, v);
      ClassConcat(s[1..], t, key, v);
    }
  }

  /** Put `x` before the first element whose key is not smaller: the stable place for an element that came first. */
  function Insert<T>(x: T, s: seq<T>, key: T -> nat): seq<T> {
    if s == [] then [x]
    else if key(x) <= key(s[0]) then [x] + s
    else [s[0]] + Insert(x, s[1..], key)
  }

  /** Sort by inserting each head into the sorted rest. */
  function InsertionSort<T>(s: seq<T>, key: T -> nat): seq<T> {
    if s == [] then [] else Insert(s[0], InsertionSort(s[1..], key), key)
  }

  lemma {:induction false} InsertPermutes<T>(x: T, s: seq<T>, key: T -> nat)
    ensures multiset(Insert(x, s, key)) == multiset(s) + multiset{x}
  {
    if s != [] && key(x) > key(s[0]) {
      InsertPermutes(x, s[1..], key);
      assert s == [s[0]] + s[1..];
    }
  }

  lemma {:induction false} InsertSorted<T>(x: T, s: seq<T>, key: T -> nat)
    requires SortedBy(s, key)
    ensures SortedBy(Insert(x, s, key), key)
  {
    if s != [] && key(x) > key(s[0]) {
      var rest := Insert(x, s[1..], key);
      InsertSorted(x, s[1..], key);
      InsertPermutes(x, s[1..], key);
      forall k | 0 <= k < |rest|
        ensures key(s[0]) <= key(rest[k])
      {
        assert rest[k] in multiset(rest);
        if rest[k] != x {
          assert rest[k] in s[1..];
        }
      }
    }
  }

  lemma {:induction false} InsertClasses<T>(x: T, s: seq<T>, key: T -> nat, v: nat)
    ensures Class(Insert(x, s, key), key, v) == (if key(x) == v then [x] else []) + Class(s, key, v)
  {
    if s == [] {
    } else if key(x) <= key(s[0]) {
      ClassConcat([x], s, key, v);
    } else {
      InsertClasses(x, s[1..], key, v);
      ClassConcat([s[0]], Insert(x, s[1..], key), key, v);
      ClassConcat([s[0]], s[1..], key, v);
      assert [s[0]] + s[1..] == s;
    }
  }

  lemma {:induction false} InsertionSortSorted<T>(s: seq<T>, key: T -> nat)
    ensures SortedBy(InsertionSort(s, key), key)
  {
    if s != [] {
      InsertionSortSorted(s[1..], key);
      InsertSorted(s[0], InsertionSort(s[1..], key), key);
    }
  }

  lemma {:induction false} InsertionSortClass<T>(s: seq<T>, key: T -> nat, v: nat)
    ensures Class(InsertionSort(s, key), key, v) == Class(s, key, v)
  {
    if s != [] {
      InsertionSortClass(s[1..], key, v);
      InsertClasses(s[0], InsertionSort(s[1..], key), key, v);
    }
  }

  lemma {:induction false} InsertionSortPermutes<T>(s: seq<T>, key: T -> nat)
    ensures multiset(InsertionSort(s, key)) == multiset(s)
  {
    if s != [] {
      InsertionSortPermutes(s[1..], key);
      InsertPermutes(s[0], InsertionSort(s[1..], key), key);
      assert s == [s[0]] + s[1..];
    }
  }

  /** The reference sort is sorted, a permutation of its input, and keeps the order within every key. */
  lemma InsertionSortIsStableSort<T>(s: seq<T>, key: T -> nat)
    ensures SortedBy(InsertionSort(s, key), key)
    ensures multiset(InsertionSort(s, key)) == multiset(s)
    ensures SameClasses(InsertionSort(s, key), s, key)
  {
    InsertionSortSorted(s, key);
    InsertionSortPermutes(s, key);
    forall v {
      InsertionSortClass(s, key, v);
    }
  }

  /** A sequence already sorted by the key is left as it is. */
  lemma {:induction false} SortedIsFixed<T>(s: seq<T>, key: T -> nat)
    requires SortedBy(s, key)
    ensures InsertionSort(s, key) == s
  {
    if s != [] {
      assert SortedBy(s[1..], key);
      SortedIsFixed(s[1..], key);
      assert s == [s[0]] + s[1..];
    }
  }

  /** In a sorted sequence the first key is the least one. */
  lemma FirstKeyIsLeast<T>(p: seq<T>, key: T -> nat, x: T)
    requires SortedBy(p, key) && x in p
    ensures key(p[0]) <= key(x)
  {
  }

  /** Two sorted sequences with the same classes start with the same element, and their tails again have the same classes. */
  lemma HeadsAgree<T>(p: seq<T>, q: seq<T>, key: T -> nat)
    requires p != [] && q != []
    requires SortedBy(p, key) && SortedBy(q, key)
    requires SameClasses(p, q, key)
    ensures p[0] == q[0]
    ensures SameClasses(p[1..], q[1..], key)
  {
    var m := key(p[0]);
    ClassMembers(q, key, key(q[0]), q[0]);
    ClassMembers(p, key, key(q[0]), q[0]);
    ClassMembers(p, key, m, p[0]);
    ClassMembers(q, key, m, p[0]);
    FirstKeyIsLeast(p, key, q[0]);
    FirstKeyIsLeast(q, key, p[0]);
    assert key(q[0]) == m;
    assert Class(p, key, m) == [p[0]] + Class(p[1..], key, m);
    assert Class(q, key, m) == [q[0]] + Class(q[1..], key, m);
    assert Class(p, key, m) == Class(q, key, m);
    assert Class(p, key, m)[0] == p[0] && Class(q, key, m)[0] == q[0];
    forall v
      ensures Class(p[1..], key, v) == Class(q[1..], key, v)
    {
      assert Class(p, key, v) == Class(q, key, v);
      if v == m {
        assert Class(p[1..], key, v) == Class(p, key, v)[1..];
        assert Class(q[1..], key, v) == Class(q, key, v)[1..];
      } else {
        assert Class(p[1..], key, v) == Class(p, key, v);
        assert Class(q[1..], key, v) == Class(q, key, v);
      }
    }
  }

  /** A sorted order that keeps the order within every key is unique. */
  lemma {:induction false} StableSortUnique<T>(p: seq<T>, q: seq<T>, key: T -> nat)
    requires SortedBy(p, key) && SortedBy(q, key)
    requires SameClasses(p, q, key)
    ensures p == q
    decreases |p|
  {
    if p != [] && q != [] {
      HeadsAgree(p, q, key);
      StableSortUnique(p[1..], q[1..], key);
      assert p == [p[0]] + p[1..] && q == [q[0]] + q[1..];
    } else if p != [] {
      ClassMembers(p, key, key(p[0]), p[0]);
    } else if q != [] {
      ClassMembers(q, key, key(q[0]), q[0]);
    }
  }

  /** Exchanging two neighbours with different keys changes no class. */
  lemma SwapKeepsClasses<T>(s: seq<T>, j: nat, key: T -> nat)
    requires j + 1 < |s| && key(s[j]) != key(s[j + 1])
    ensures SameClasses(s[j := s[j + 1]][j + 1 := s[j]], s, key)
  {
    var t := s[j := s[j + 1]][j + 1 := s[j]];
    assert s == s[..j] + [s[j], s[j + 1]] + s[j + 2..];
    assert t == s[..j] + [s[j + 1], s[j]] + s[j + 2..];
    forall v
      ensures Class(t, key, v) == Class(s, key, v)
    {
      ClassConcat(s[..j] + [s[j], s[j + 1]], s[j + 2..], key, v);
      ClassConcat(s[..j], [s[j], s[j + 1]], key, v);
      ClassConcat(s[..j] + [s[j + 1], s[j]], s[j + 2..], key, v);
      ClassConcat(s[..j], [s[j + 1], s[j]], key, v);
      assert [s[j], s[j + 1]][1..] == [s[j + 1]] && [s[j + 1], s[j]][1..] == [s[j]];
    }
  }

  /** From position `b` on, keys never decrease. */
  ghost predicate SortedFrom<T>(s: seq<T>, key: T -> nat, b: nat) {
    forall k, m :: b <= k < m < |s| ==> key(s[k]) <= key(s[m])
  }

  /** No key before position `b` exceeds a key from `b` on. */
  ghost predicate SplitAt<T>(s: seq<T>, key: T -> nat, b: nat) {
    forall k, m :: 0 <= k < b <= m < |s| ==> key(s[k]) <= key(s[m])
  }

  /** Position `j` holds a greatest key of `s[..j + 1]`. */
  ghost predicate TopAt<T>(s: seq<T>, key: T -> nat, j: nat)
    requires j < |s|
  {
    forall k :: 0 <= k <= j ==> key(s[k]) <= key(s[j])
  }

  /** One comparison of the inner loop: exchange `j` and `j + 1` when the left key is strictly greater. */
  function Step<T>(s: seq<T>, key: T -> nat, j: nat): seq<T>
    requires j + 1 < |s|
  {
    if key(s[j]) > key(s[j + 1]) then s[j := s[j + 1]][j + 1 := s[j]] else s
  }

  lemma SameClassesChain<T>(r: seq<T>, s: seq<T>, t: seq<T>, key: T -> nat)
    requires SameClasses(r, s, key) && SameClasses(s, t, key)
    ensures SameClasses(r, t, key)
  {
  }

  /** An exchange only ever happens in front of the sorted tail, and it carries the greater key right. */
  lemma SwapStepKeeps<T>(s: seq<T>, key: T -> nat, b: nat, j: nat)
    requires 1 <= b <= |s| && j + 1 < |s| && key(s[j]) > key(s[j + 1])
    requires TopAt(s, key, j) && SortedFrom(s, key, b) && SplitAt(s, key, b)
    ensures j + 1 < b
    ensures var t := Step(s, key, j);
      TopAt(t, key, j + 1) && SortedFrom(t, key, b) && SplitAt(t, key, b) &&
      (j + 1 >= b - 1 ==> TopAt(t, key, b - 1)) && SameClasses(t, s, key)
  {
    var t := Step(s, key, j);
    forall k, m | 0 <= k < b <= m < |t|
      ensures key(t[k]) <= key(t[m])
    {
      assert t[m] == s[m];
      if k == j {
        assert t[k] == s[j + 1];
      } else if k == j + 1 {
        assert t[k] == s[j];
      } else {
        assert t[k] == s[k];
      }
    }
    SwapKeepsClasses(s, j, key);
  }

  /** Without an exchange the greater key is already on the right. */
  lemma StillStepKeeps<T>(s: seq<T>, key: T -> nat, b: nat, j: nat)
    requires 1 <= b <= |s| && j + 1 < |s| && key(s[j]) <= key(s[j + 1])
    requires TopAt(s, key, j) && (j >= b - 1 ==> TopAt(s, key, b - 1))
    ensures TopAt(s, key, j + 1)
    ensures j + 1 >= b - 1 ==> TopAt(s, key, b - 1)
  {
  }

  /**
   * One pass of the inner loop `for j in range(len(domains) - 1)`, with the
   * boundary `b = n - i` of the outer loop: it carries a greatest key of
   * `a[..b]` to `a[b - 1]` and leaves the sorted tail alone.
   */
  method Pass<T>(a: array<T>, key: T -> nat, b: nat)
    requires 1 <= b <= a.Length
    requires SortedFrom(a[..], key, b) && SplitAt(a[..], key, b)
    modifies a
    ensures SortedFrom(a[..], key, b - 1) && SplitAt(a[..], key, b - 1)
    ensures SameClasses(a[..], old(a[..]), key)
  {
    var n := a.Length;
    for j := 0 to n - 1
      invariant TopAt(a[..], key, j)
      invariant SortedFrom(a[..], key, b) && SplitAt(a[..], key, b)
      invariant j >= b - 1 ==> TopAt(a[..], key, b - 1)
      invariant SameClasses(a[..], old(a[..]), key)
    {
      ghost var s := a[..];
      if key(a[j]) > key(a[j + 1]) {
        SwapStepKeeps(s, key, b, j);
        a[j], a[j + 1] := a[j + 1], a[j];
        assert a[..] == Step(s, key, j);
        SameClassesChain(a[..], s, old(a[..]), key);
      } else {
        StillStepKeeps(s, key, b, j);
      }
    }
    PassEnds(a[..], key, b);
  }

  /** After the pass, the tail sorted from `b` grows by position `b - 1`. */
  lemma PassEnds<T>(s: seq<T>, key: T -> nat, b: nat)
    requires 1 <= b <= |s|
    requires SortedFrom(s, key, b) && SplitAt(s, key, b) && TopAt(s, key, b - 1)
    ensures SortedFrom(s, key, b - 1) && SplitAt(s, key, b - 1)
  {
  }

  /**
   * The engine's sorter, `for i in range(len(domains))` around one pass:
   * the array ends sorted by key, with the order within each key kept, which
   * makes it exactly the reference stable sort of what it held.
   */
  method BubbleSort<T>(a: array<T>, key: T -> nat)
    modifies a
    ensures SortedBy(a[..], key)
    ensures SameClasses(a[..], old(a[..]), key)
    ensures multiset(a[..]) == multiset(old(a[..]))
    ensures a[..] == InsertionSort(old(a[..]), key)
  {
    var n := a.Length;
    for i := 0 to n
      invariant SortedFrom(a[..], key, n - i) && SplitAt(a[..], key, n - i)
      invariant SameClasses(a[..], old(a[..]), key)
    {
      Pass(a, key, n - i);
    }
    assert SortedBy(a[..], key);
    InsertionSortIsStableSort(old(a[..]), key);
    StableSortUnique(a[..], InsertionSort(old(a[..]), key), key);
  }
}
