/**
 * The ranking distance: `edit_distance(s, d, transpositions=True)`, the
 * optimal-string-alignment distance. Insertion, deletion, substitution of a
 * character and the swap of two adjacent characters each cost one, and no
 * substring is edited twice.
 */
module Distance {

  function Min(x: nat, y: nat): nat {
    if x <= y then x else y
  }

  /** The two last characters of `a` are those of `b`, crossed. */
  predicate CrossedEnds(a: string, b: string) {
    |a| > 1 && |b| > 1 && a[|a| - 2] == b[|b| - 1] && a[|a| - 1] == b[|b| - 2]
  }

  /**
   * The distance of the whole of `a` to the whole of `b`, by the recurrence
   * the table is filled with: cell (i, j) is the cheapest of dropping the
   * last of `a`, dropping the last of `b`, matching or substituting the two
   * last characters, and, when they are crossed, swapping them.
   */
  function Osa(a: string, b: string): nat
    decreases |a| + |b|
  {
    if |a| == 0 then |b|
    else if |b| == 0 then |a|
    else
      var i, j := |a|, |b|;
      var drop := Osa(a[..i - 1], b) + 1;
      var insert := Osa(a, b[..j - 1]) + 1;
      var replace := Osa(a[..i - 1], b[..j - 1]) + (if a[i - 1] == b[j - 1] then 0 else 1);
      var best := Min(Min(drop, insert), replace);
      if CrossedEnds(a, b) then Min(best, Osa(a[..i - 2], b[..j - 2]) + 1) else best
  }

  /** A string is at distance zero from itself. */
  lemma {:induction false} OsaSelf(a: string)
    ensures Osa(a, a) == 0
    decreases |a|
  {
    if |a| > 0 {
      OsaSelf(a[..|a| - 1]);
    }
  }

  /** Distance zero means the two strings are equal. */
  lemma {:induction false} OsaZeroMeansEqual(a: string, b: string)
    requires Osa(a, b) == 0
    ensures a == b
    decreases |a| + |b|
  {
    if |a| > 0 && |b| > 0 {
      var i, j := |a|, |b|;
      assert Osa(a[..i - 1], b[..j - 1]) == 0 && a[i - 1] == b[j - 1];
      OsaZeroMeansEqual(a[..i - 1], b[..j - 1]);
      assert a == a[..i - 1] + [a[i - 1]] && b == b[..j - 1] + [b[j - 1]];
    }
  }

  /** The distance is zero exactly when the strings are equal. */
  lemma OsaZeroIffEqual(a: string, b: string)
    ensures Osa(a, b) == 0 <==> a == b
  {
    if Osa(a, b) == 0 {
      OsaZeroMeansEqual(a, b);
    }
    if a == b {
      OsaSelf(a);
    }
  }

  function Max(x: nat, y: nat): nat {
    if x >= y then x else y
  }

  /** Never more than the longer length: substitute along the shorter one, then insert or drop the rest. */
  lemma {:induction false} OsaAtMostLonger(a: string, b: string)
    ensures Osa(a, b) <= Max(|a|, |b|)
    decreases |a| + |b|
  {
    if |a| > 0 && |b| > 0 {
      var i, j := |a|, |b|;
      if i == j {
        OsaAtMostLonger(a[..i - 1], b[..j - 1]);
        ReplaceLastBound(a, b);
      } else if i > j {
        OsaAtMostLonger(a[..i - 1], b);
        DropLastBound(a, b);
      } else {
        OsaAtMostLonger(a, b[..j - 1]);
        InsertLastBound(a, b);
      }
    }
  }

  function Gap(x: nat, y: nat): nat {
    if x >= y then x - y else y - x
  }

  /** Never less than the difference of the lengths: each step changes the length by at most one. */
  lemma {:induction false} OsaAtLeastGap(a: string, b: string)
    ensures Osa(a, b) >= Gap(|a|, |b|)
    decreases |a| + |b|
  {
    if |a| > 0 && |b| > 0 {
      var i, j := |a|, |b|;
      OsaAtLeastGap(a[..i - 1], b);
      OsaAtLeastGap(a, b[..j - 1]);
      OsaAtLeastGap(a[..i - 1], b[..j - 1]);
      if CrossedEnds(a, b) {
        OsaAtLeastGap(a[..i - 2], b[..j - 2]);
      }
    }
  }

  /** The distance does not depend on which string is the keyword. */
  lemma {:induction false} OsaSymmetric(a: string, b: string)
    ensures Osa(a, b) == Osa(b, a)
    decreases |a| + |b|
  {
    if |a| > 0 && |b| > 0 {
      var i, j := |a|, |b|;
      OsaSymmetric(a[..i - 1], b);
      OsaSymmetric(a, b[..j - 1]);
      OsaSymmetric(a[..i - 1], b[..j - 1]);
      OsaUnfold(a, b);
      OsaUnfold(b, a);
      if CrossedEnds(a, b) {
        assert CrossedEnds(b, a);
        OsaSymmetric(a[..i - 2], b[..j - 2]);
      } else {
        assert !CrossedEnds(b, a);
      }
    }
  }

  /** The cheapest of the four ways to finish an alignment, given what each leaves to align. */
  function Cheapest(drop: nat, insert: nat, replace: nat, same: bool, crossed: bool, swap: nat): nat {
    var best := Min(Min(drop + 1, insert + 1), replace + (if same then 0 else 1));
    if crossed then Min(best, swap + 1) else best
  }

  /** One step of the recurrence, with the four smaller distances as plain values. */
  lemma OsaUnfold(a: string, b: string)
    requires |a| > 0 && |b| > 0
    ensures var i, j := |a|, |b|;
      Osa(a, b) == Cheapest(Osa(a[..i - 1], b), Osa(a, b[..j - 1]), Osa(a[..i - 1], b[..j - 1]),
        a[i - 1] == b[j - 1], CrossedEnds(a, b), if CrossedEnds(a, b) then Osa(a[..i - 2], b[..j - 2]) else 0)
  {
  }

  /** Matching or substituting the last two characters is always an option. */
  lemma ReplaceLastBound(a: string, b: string)
    requires |a| > 0 && |b| > 0
    ensures Osa(a, b) <= Osa(a[..|a| - 1], b[..|b| - 1]) + (if a[|a| - 1] == b[|b| - 1] then 0 else 1)
  {
  }

  /** Dropping the last character of `a` is always an option. */
  lemma DropLastBound(a: string, b: string)
    requires |a| > 0
    ensures Osa(a, b) <= Osa(a[..|a| - 1], b) + 1
  {
  }

  /** Inserting the last character of `b` is always an option. */
  lemma InsertLastBound(a: string, b: string)
    requires |b| > 0
    ensures Osa(a, b) <= Osa(a, b[..|b| - 1]) + 1
  {
  }

  /** A common ending never adds to the distance. */
  lemma {:induction false} CommonSuffixBound(x: string, y: string, v: string)
    ensures Osa(x + v, y + v) <= Osa(x, y)
    decreases |v|
  {
    if |v| == 0 {
      assert x + v == x && y + v == y;
    } else {
      var w := v[..|v| - 1];
      var xv, yv := x + v, y + v;
      assert xv[..|xv| - 1] == x + w;
      assert yv[..|yv| - 1] == y + w;
      assert xv[|xv| - 1] == yv[|yv| - 1];
      CommonSuffixBound(x, y, w);
      ReplaceLastBound(xv, yv);
    }
  }

  /** Strings that differ in one character are at distance one. */
  lemma OneSubstitution(u: string, c: char, d: char, v: string)
    requires c != d
    ensures Osa(u + [c] + v, u + [d] + v) == 1
  {
    var x, y := u + [c], u + [d];
    CommonSuffixBound(x, y, v);
    ReplaceLastBound(x, y);
    assert x[..|x| - 1] == u && y[..|y| - 1] == u;
    OsaSelf(u);
    assert (x + v)[|u|] != (y + v)[|u|];
    OsaZeroIffEqual(x + v, y + v);
  }

  /** Strings that differ by swapping two adjacent, different characters are at distance one. */
  lemma OneSwap(u: string, c: char, d: char, v: string)
    requires c != d
    ensures Osa(u + [c, d] + v, u + [d, c] + v) == 1
  {
    var x, y := u + [c, d], u + [d, c];
    CommonSuffixBound(x, y, v);
    assert CrossedEnds(x, y);
    assert x[..|x| - 2] == u && y[..|y| - 2] == u;
    OsaSelf(u);
    assert Osa(x, y) <= 1;
    assert (x + v)[|u|] != (y + v)[|u|];
    OsaZeroIffEqual(x + v, y + v);
  }

  /** Swapping two adjacent characters costs one, where plain Levenshtein distance would charge two. */
  lemma SwapCostsOne()
    ensures Osa("ab", "ba") == 1
  {
    assert CrossedEnds("ab", "ba");
    assert "ab"[..0] == "" && "ba"[..0] == "";
    OsaZeroIffEqual("ab", "ba");
  }

  /** Equal-length strings that differ only at position `k` are at distance one. */
  lemma SubstitutedAt(a: string, b: string, k: nat)
    requires |a| == |b| && k < |a| && a[k] != b[k]
    requires a[..k] == b[..k] && a[k + 1..] == b[k + 1..]
    ensures Osa(a, b) == 1
  {
    var u, v := a[..k], a[k + 1..];
    assert a == u + [a[k]] + v by {
      assert a == a[..k] + a[k..] && a[k..] == [a[k]] + a[k + 1..];
    }
    assert b == u + [b[k]] + v by {
      assert b == b[..k] + b[k..] && b[k..] == [b[k]] + b[k + 1..];
    }
    OneSubstitution(u, a[k], b[k], v);
  }

  /** `bat` and `cot` are each one substitution away from `cat`; `dog` is not `cat`. */
  lemma CatDistances(keyword: string, b: string, c: string, d: string)
    requires keyword == "cat" && b == "bat" && c == "cot" && d == "dog"
    ensures Osa(keyword, b) == 1 && Osa(keyword, c) == 1 && Osa(keyword, d) >= 1
  {
    SubstitutedAt(keyword, b, 0);
    SubstitutedAt(keyword, c, 1);
    OsaZeroIffEqual(keyword, d);
  }
}
