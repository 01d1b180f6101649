/**
 * `itertools.permutations(pool, r)` over the positions of the pool: every
 * ordered selection of `r` distinct positions, in lexicographic order of the
 * positions picked. Positions are distinct; the values at them may repeat.
 */
module Permutations {

  /** m * (m - 1) * ... * (m - r + 1) */
  function Falling(m: nat, r: nat): nat {
    if r == 0 then 1 else if m == 0 then 0 else m * Falling(m - 1, r - 1)
  }

  function Factorial(n: nat): nat {
    if n == 0 then 1 else n * Factorial(n - 1)
  }

  /** For r <= m the falling factorial is m! / (m - r)!. */
  lemma {:induction false} FallingIsFactorialQuotient(m: nat, r: nat)
    requires r <= m
    ensures Falling(m, r) * Factorial(m - r) == Factorial(m)
  {
    if r > 0 {
      var a, b := Falling(m - 1, r - 1), Factorial(m - r);
      FallingIsFactorialQuotient(m - 1, r - 1);
      assert a * b == Factorial(m - 1);
      assert Falling(m, r) == m * a;
      calc {
        Falling(m, r) * b;
        (m * a) * b;
        m * (a * b);
        m * Factorial(m - 1);
      }
    }
  }

  /** No selection of r positions exists from fewer than r. */
  lemma {:induction false} FallingBeyondPool(m: nat, r: nat)
    requires m < r
    ensures Falling(m, r) == 0
  {
    if m > 0 {
      FallingBeyondPool(m - 1, r - 1);
    }
  }

  predicate Distinct(s: seq<nat>) {
    forall i, j :: 0 <= i < j < |s| ==> s[i] != s[j]
  }

  /** The positions 0, 1, ..., m - 1. */
  function Positions(m: nat): seq<nat> {
    seq(m, i requires 0 <= i < m => i)
  }

  function Remove(s: seq<nat>, i: nat): seq<nat>
    requires i < |s|
  {
    s[..i] + s[i + 1..]
  }

  function Prepend(x: nat, ss: seq<seq<nat>>): seq<seq<nat>> {
    seq(|ss|, k requires 0 <= k < |ss| => [x] + ss[k])
  }

  /** Every ordered selection of r entries of `avail`, taken at distinct indices of `avail`. */
  function Selections(avail: seq<nat>, r: nat): (sels: seq<seq<nat>>)
    ensures forall k :: 0 <= k < |sels| ==> |sels[k]| == r
    ensures forall k, q :: 0 <= k < |sels| && 0 <= q < |sels[k]| ==> sels[k][q] in avail
    decreases r, 1
  {
    if r == 0 then [[]] else Branches(avail, r, 0)
  }

  /** The selections whose first entry is `avail[j]` for some j >= i, grouped by j in increasing order. */
  function Branches(avail: seq<nat>, r: nat, i: nat): (sels: seq<seq<nat>>)
    requires 0 < r && i <= |avail|
    ensures forall k :: 0 <= k < |sels| ==> |sels[k]| == r
    ensures forall k, q :: 0 <= k < |sels| && 0 <= q < |sels[k]| ==> sels[k][q] in avail
    decreases r, 0, |avail| - i
  {
    if i == |avail| then []
    else
      var rest := Remove(avail, i);
      assert forall x :: x in rest ==> x in avail;
      Prepend(avail[i], Selections(rest, r - 1)) + Branches(avail, r, i + 1)
  }

  lemma PrependMembers(x: nat, ss: seq<seq<nat>>, y: seq<nat>)
    ensures y in Prepend(x, ss) <==> |y| > 0 && y[0] == x && y[1..] in ss
  {
    var p := Prepend(x, ss);
    if y in p {
      var k :| 0 <= k < |p| && p[k] == y;
      assert y[1..] == ss[k];
    }
    if |y| > 0 && y[0] == x && y[1..] in ss {
      var k :| 0 <= k < |ss| && ss[k] == y[1..];
      assert p[k] == [x] + y[1..] == y;
    }
  }

  /** A selection lies in `Branches(avail, r, i)` exactly when it lies in the group of some j >= i. */
  lemma {:induction false} BranchesMembers(avail: seq<nat>, r: nat, i: nat, sel: seq<nat>)
    requires 0 < r && i <= |avail|
    ensures sel in Branches(avail, r, i) <==>
      exists j :: i <= j < |avail| && sel in Prepend(avail[j], Selections(Remove(avail, j), r - 1))
    decreases |avail| - i
  {
    if i < |avail| {
      BranchesMembers(avail, r, i + 1, sel);
    }
  }

  /** |Branches(avail, r, i)| counts |avail| - i groups of Falling(|avail| - 1, r - 1) each. */
  lemma {:induction false} BranchesCount(avail: seq<nat>, r: nat, i: nat)
    requires 0 < r && i <= |avail| && |avail| > 0
    ensures |Branches(avail, r, i)| == (|avail| - i) * Falling(|avail| - 1, r - 1)
    decreases r, 0, |avail| - i
  {
    if i < |avail| {
      SelectionCount(Remove(avail, i), r - 1);
      BranchesCount(avail, r, i + 1);
      var f := Falling(|avail| - 1, r - 1);
      assert (|avail| - i) * f == f + (|avail| - (i + 1)) * f;
    }
  }

  /** There are m! / (m - r)! selections of r out of m, and none when m < r. */
  lemma {:induction false} SelectionCount(avail: seq<nat>, r: nat)
    ensures |Selections(avail, r)| == Falling(|avail|, r)
    decreases r, 1
  {
    if r > 0 && |avail| > 0 {
      BranchesCount(avail, r, 0);
    }
  }

  lemma RemoveMembers(avail: seq<nat>, j: nat, x: nat)
    requires Distinct(avail) && j < |avail|
    ensures Distinct(Remove(avail, j))
    ensures x in Remove(avail, j) <==> x in avail && x != avail[j]
  {
    var rest := Remove(avail, j);
    assert forall k :: 0 <= k < |rest| ==> rest[k] == if k < j then avail[k] else avail[k + 1];
    if x in avail && x != avail[j] {
      var k :| 0 <= k < |avail| && avail[k] == x;
      if k < j {
        assert rest[k] == x;
      } else {
        assert rest[k - 1] == x;
      }
    }
  }

  /** Drawing from distinct entries, every selection picks distinct entries. */
  /** A non-empty selection starts with some `avail[j]` and goes on with a selection from the rest. */
  lemma FirstPick(avail: seq<nat>, r: nat, sel: seq<nat>) returns (j: nat)
    requires r > 0 && sel in Selections(avail, r)
    ensures j < |avail| && |sel| > 0 && sel[0] == avail[j]
    ensures sel[1..] in Selections(Remove(avail, j), r - 1)
  {
    BranchesMembers(avail, r, 0, sel);
    j :| 0 <= j < |avail| && sel in Prepend(avail[j], Selections(Remove(avail, j), r - 1));
    PrependMembers(avail[j], Selections(Remove(avail, j), r - 1), sel);
  }

  /** Every entry of a selection is drawn from `avail`. */
  lemma SelectionEntry(avail: seq<nat>, r: nat, sel: seq<nat>, q: nat)
    requires sel in Selections(avail, r) && q < |sel|
    ensures sel[q] in avail
  {
    var sels := Selections(avail, r);
    var k :| 0 <= k < |sels| && sels[k] == sel;
  }

  lemma {:induction false} SelectionsAreDistinct(avail: seq<nat>, r: nat, sel: seq<nat>)
    requires Distinct(avail)
    requires sel in Selections(avail, r)
    ensures Distinct(sel)
    decreases r
  {
    if r > 0 {
      var j := FirstPick(avail, r, sel);
      var rest, tail := Remove(avail, j), sel[1..];
      RemoveMembers(avail, j, avail[j]);
      SelectionsAreDistinct(rest, r - 1, tail);
      forall q | 0 <= q < |tail|
        ensures tail[q] != avail[j]
      {
        SelectionEntry(rest, r - 1, tail, q);
        RemoveMembers(avail, j, tail[q]);
      }
      forall p, p' | 0 <= p < p' < |sel|
        ensures sel[p] != sel[p']
      {
        assert sel[p'] == tail[p' - 1];
        if p > 0 {
          assert sel[p] == tail[p - 1];
        }
      }
    }
  }

  /** Every sequence of r distinct entries of `avail` is one of the selections. */
  lemma {:induction false} SelectionsAreComplete(avail: seq<nat>, r: nat, sel: seq<nat>)
    requires Distinct(avail)
    requires |sel| == r && Distinct(sel)
    requires forall q :: 0 <= q < |sel| ==> sel[q] in avail
    ensures sel in Selections(avail, r)
    decreases r
  {
    if r == 0 {
      assert sel == [];
    } else {
      var j :| 0 <= j < |avail| && avail[j] == sel[0];
      var rest := Remove(avail, j);
      var tail := sel[1..];
      RemoveMembers(avail, j, avail[j]);
      forall q | 0 <= q < |tail|
        ensures tail[q] in rest
      {
        assert tail[q] == sel[q + 1] != sel[0];
        RemoveMembers(avail, j, tail[q]);
      }
      SelectionsAreComplete(rest, r - 1, tail);
      PrependMembers(avail[j], Selections(rest, r - 1), sel);
      BranchesMembers(avail, r, 0, sel);
    }
  }

  /**
   * The permutation loop ranges over exactly the sequences of r distinct
   * positions of an m-element pool, and there are Falling(m, r) of them.
   */
  lemma PermutationSpace(m: nat, r: nat, sel: seq<nat>)
    ensures |Selections(Positions(m), r)| == Falling(m, r)
    ensures sel in Selections(Positions(m), r) <==>
      |sel| == r && Distinct(sel) && forall q :: 0 <= q < |sel| ==> sel[q] < m
  {
    var avail := Positions(m);
    SelectionCount(avail, r);
    assert forall x: nat :: x in avail <==> x < m by {
      forall x: nat | x < m ensures x in avail { assert avail[x] == x; }
    }
    if sel in Selections(avail, r) {
      SelectionsAreDistinct(avail, r, sel);
    }
    if |sel| == r && Distinct(sel) && forall q :: 0 <= q < |sel| ==> sel[q] < m {
      SelectionsAreComplete(avail, r, sel);
    }
  }

  lemma PrependOne(x: nat, y: seq<nat>)
    ensures Prepend(x, [y]) == [[x] + y]
  {
    assert Prepend(x, [y])[0] == [x] + y;
  }

  /** One entry gives one selection of one. */
  lemma SingleSelection(x: nat)
    ensures Selections([x], 1) == [[x]]
  {
    assert Selections([x], 1) == Branches([x], 1, 0);
    assert Remove([x], 0) == [];
    assert Selections([], 0) == [[]];
    PrependOne(x, []);
    assert [x] + [] == [x];
    assert Branches([x], 1, 1) == [];
  }

  /** Two fragments give two orderings, `(f0, f1)` and then `(f1, f0)`. */
  lemma TwoOrders(m: nat)
    requires m == 2
    ensures Selections(Positions(m), 2) == [[0, 1], [1, 0]]
  {
    var avail := Positions(m);
    assert avail == [0, 1];
    assert Remove(avail, 0) == [1] && Remove(avail, 1) == [0];
    SingleSelection(1);
    SingleSelection(0);
    PrependOne(0, [1]);
    PrependOne(1, [0]);
    assert [0] + [1] == [0, 1] && [1] + [0] == [1, 0];
    assert Branches(avail, 2, 2) == [];
    assert Branches(avail, 2, 1) == Prepend(avail[1], Selections(Remove(avail, 1), 1)) + Branches(avail, 2, 2);
    assert Branches(avail, 2, 0) == Prepend(avail[0], Selections(Remove(avail, 0), 1)) + Branches(avail, 2, 1);
  }
}
