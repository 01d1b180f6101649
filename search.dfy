/**
 * The permutation search of `gen_domains`: for every ordered selection of
 * r fragment positions and every corpus file, the file's matches, cut by
 * the optional length filter, appended in loop order.
 */
module Search {
  import opened Text
  import opened Permutations
  import opened Matching

  /** `check_lengh`: shorter than `length` plus the length of the whole zone argument. */
  predicate Fits(c: string, length: int, zoneArg: string) {
    |c| < length + |zoneArg|
  }

  /** `filter(check_lengh, matches)`. */
  function KeepFitting(ms: seq<string>, length: int, zoneArg: string): seq<string> {
    if ms == [] then []
    else (if Fits(ms[0], length, zoneArg) then [ms[0]] else []) + KeepFitting(ms[1..], length, zoneArg)
  }

  /** The filter keeps every fitting occurrence and nothing else, so also no duplicate is lost. */
  lemma {:induction false} KeepFittingCounts(ms: seq<string>, length: int, zoneArg: string)
    ensures forall k :: 0 <= k < |KeepFitting(ms, length, zoneArg)| ==> Fits(KeepFitting(ms, length, zoneArg)[k], length, zoneArg)
    ensures forall c :: multiset(KeepFitting(ms, length, zoneArg))[c] == if Fits(c, length, zoneArg) then multiset(ms)[c] else 0
  {
    if ms != [] {
      KeepFittingCounts(ms[1..], length, zoneArg);
      assert ms == [ms[0]] + ms[1..];
    }
  }

  lemma KeepFittingMembers(ms: seq<string>, length: int, zoneArg: string, c: string)
    ensures c in KeepFitting(ms, length, zoneArg) <==> c in ms && Fits(c, length, zoneArg)
  {
    KeepFittingCounts(ms, length, zoneArg);
    assert c in KeepFitting(ms, length, zoneArg) <==> multiset(KeepFitting(ms, length, zoneArg))[c] > 0;
  }

  /** The filter works element by element, so it keeps the input order. */
  lemma {:induction false} KeepFittingSplits(a: seq<string>, b: seq<string>, length: int, zoneArg: string)
    ensures KeepFitting(a + b, length, zoneArg) == KeepFitting(a, length, zoneArg) + KeepFitting(b, length, zoneArg)
  {
    if a == [] {
      assert a + b == b;
    } else {
      assert (a + b)[0] == a[0] && (a + b)[1..] == a[1..] + b;
      KeepFittingSplits(a[1..], b, length, zoneArg);
    }
  }

  /** When every match fits, the filter removes nothing. */
  lemma {:induction false} KeepFittingKeepsFitting(ms: seq<string>, length: int, zoneArg: string)
    requires forall k :: 0 <= k < |ms| ==> Fits(ms[k], length, zoneArg)
    ensures KeepFitting(ms, length, zoneArg) == ms
  {
    if ms != [] {
      KeepFittingKeepsFitting(ms[1..], length, zoneArg);
    }
  }

  /** What one corpus file yields for one permutation: its matches, filtered when a length is given. */
  function FileMatches(blob: string, frags: seq<string>, length: int, zoneArg: string): seq<string> {
    var matches := FindAll(blob, frags);
    if length != 0 then KeepFitting(matches, length, zoneArg) else matches
  }

  /** The concatenation of the parts, in order. */
  function Flatten<T>(parts: seq<seq<T>>): seq<T> {
    if parts == [] then [] else Flatten(parts[..|parts| - 1]) + parts[|parts| - 1]
  }

  lemma {:induction false} FlattenMembers<T>(parts: seq<seq<T>>, x: T)
    ensures x in Flatten(parts) <==> exists k :: 0 <= k < |parts| && x in parts[k]
  {
    if parts != [] {
      var init := parts[..|parts| - 1];
      FlattenMembers(init, x);
      assert forall k :: 0 <= k < |init| ==> init[k] == parts[k];
    }
  }

  /** What each corpus file yields for one permutation, in file order. */
  function FileYields(corpus: seq<string>, frags: seq<string>, length: int, zoneArg: string): seq<seq<string>> {
    seq(|corpus|, j requires 0 <= j < |corpus| => FileMatches(corpus[j], frags, length, zoneArg))
  }

  function PermutationMatches(corpus: seq<string>, frags: seq<string>, length: int, zoneArg: string): seq<string> {
    Flatten(FileYields(corpus, frags, length, zoneArg))
  }

  /** Every position of `sel` is a position of an m-element pool. */
  predicate Within(sel: seq<nat>, m: nat) {
    forall q :: 0 <= q < |sel| ==> sel[q] < m
  }

  predicate AllWithin(perms: seq<seq<nat>>, m: nat) {
    forall k :: 0 <= k < |perms| ==> Within(perms[k], m)
  }

  /** The fragments at the selected positions: the tuple itertools yields. */
  function Pick(pool: seq<string>, sel: seq<nat>): seq<string>
    requires Within(sel, |pool|)
  {
    seq(|sel|, q requires 0 <= q < |sel| => pool[sel[q]])
  }

  /** What each permutation yields over the whole corpus, in permutation order. */
  function PermutationYields(perms: seq<seq<nat>>, pool: seq<string>, corpus: seq<string>, length: int, zoneArg: string): seq<seq<string>>
    requires AllWithin(perms, |pool|)
  {
    seq(|perms|, k requires 0 <= k < |perms| => PermutationMatches(corpus, Pick(pool, perms[k]), length, zoneArg))
  }

  lemma SelectionsWithin(m: nat, r: nat)
    ensures AllWithin(Selections(Positions(m), r), m)
  {
    var perms := Selections(Positions(m), r);
    forall k, q | 0 <= k < |perms| && 0 <= q < |perms[k]|
      ensures perms[k][q] < m
    {
      assert perms[k][q] in Positions(m);
    }
  }

  /** Everything the search loop collects, duplicates included, in loop order. */
  function Candidates(pool: seq<string>, r: nat, corpus: seq<string>, length: int, zoneArg: string): seq<string> {
    var perms := Selections(Positions(|pool|), r);
    SelectionsWithin(|pool|, r);
    Flatten(PermutationYields(perms, pool, corpus, length, zoneArg))
  }

  /** The permutation loop of `gen_domains`. */
  method Search(pool: seq<string>, r: nat, corpus: seq<string>, length: int, zoneArg: string)
    returns (domains: seq<string>)
    ensures domains == Candidates(pool, r, corpus, length, zoneArg)
  {
    var perms := Selections(Positions(|pool|), r);
    SelectionsWithin(|pool|, r);
    ghost var parts := PermutationYields(perms, pool, corpus, length, zoneArg);
    domains := [];
    var i := 0;
    while i < |perms|
      invariant 0 <= i <= |perms|
      invariant domains == Flatten(parts[..i])
    {
      var subset := Pick(pool, perms[i]);
      var found := SearchFiles(corpus, subset, length, zoneArg);
      assert parts[..i + 1][..i] == parts[..i];
      domains := domains + found;
      i := i + 1;
    }
    assert parts[..i] == parts;
  }

  /** The file loop inside the permutation loop: each file's matches, filtered when a length is given. */
  method SearchFiles(corpus: seq<string>, subset: seq<string>, length: int, zoneArg: string)
    returns (found: seq<string>)
    ensures found == PermutationMatches(corpus, subset, length, zoneArg)
  {
    ghost var parts := FileYields(corpus, subset, length, zoneArg);
    found := [];
    var j := 0;
    while j < |corpus|
      invariant 0 <= j <= |corpus|
      invariant found == Flatten(parts[..j])
    {
      assert parts[..j + 1][..j] == parts[..j];
      assert Flatten(parts[..j + 1]) == Flatten(parts[..j]) + parts[j];
      var matches := FindAll(corpus[j], subset);
      if length != 0 {
        matches := KeepFitting(matches, length, zoneArg);
      }
      found := found + matches;
      j := j + 1;
    }
    assert parts[..j] == parts;
  }

  lemma FileMatchesMembers(blob: string, frags: seq<string>, length: int, zoneArg: string, c: string)
    ensures c in FileMatches(blob, frags, length, zoneArg) <==>
      c in FindAll(blob, frags) && (length != 0 ==> Fits(c, length, zoneArg))
  {
    KeepFittingMembers(FindAll(blob, frags), length, zoneArg, c);
  }

  lemma PermutationMatchesMembers(corpus: seq<string>, frags: seq<string>, length: int, zoneArg: string, c: string)
    ensures c in PermutationMatches(corpus, frags, length, zoneArg) <==>
      exists j :: 0 <= j < |corpus| && c in FileMatches(corpus[j], frags, length, zoneArg)
  {
    var parts := FileYields(corpus, frags, length, zoneArg);
    FlattenMembers(parts, c);
    assert forall j :: 0 <= j < |corpus| ==> parts[j] == FileMatches(corpus[j], frags, length, zoneArg);
  }

  lemma AllMatchesMembers(perms: seq<seq<nat>>, pool: seq<string>, corpus: seq<string>, length: int, zoneArg: string, c: string)
    requires AllWithin(perms, |pool|)
    ensures c in Flatten(PermutationYields(perms, pool, corpus, length, zoneArg)) <==>
      exists k :: 0 <= k < |perms| && c in PermutationMatches(corpus, Pick(pool, perms[k]), length, zoneArg)
  {
    var parts := PermutationYields(perms, pool, corpus, length, zoneArg);
    FlattenMembers(parts, c);
    assert forall k :: 0 <= k < |perms| ==> parts[k] == PermutationMatches(corpus, Pick(pool, perms[k]), length, zoneArg);
  }

  /**
   * What one permutation (the fragments at positions `sel`) and one corpus
   * file let through: a line of the file holding those fragments in order
   * (or, with no fragments, the empty match), within the length bound when
   * one is given.
   */
  ghost predicate FoundBy(c: string, pool: seq<string>, sel: seq<nat>, blob: string, length: int, zoneArg: string)
    requires Within(sel, |pool|)
  {
    && ((c in Lines(blob) && ContainsInOrder(c, Pick(pool, sel))) || (sel == [] && c == ""))
    && (length != 0 ==> Fits(c, length, zoneArg))
  }

  lemma CandidatesAreFound(pool: seq<string>, r: nat, corpus: seq<string>, length: int, zoneArg: string, c: string)
    requires c in Candidates(pool, r, corpus, length, zoneArg)
    ensures exists sel, blob :: |sel| == r && Distinct(sel) && Within(sel, |pool|) && blob in corpus
                                && FoundBy(c, pool, sel, blob, length, zoneArg)
  {
    var perms := Selections(Positions(|pool|), r);
    SelectionsWithin(|pool|, r);
    AllMatchesMembers(perms, pool, corpus, length, zoneArg, c);
    var k :| 0 <= k < |perms| && c in PermutationMatches(corpus, Pick(pool, perms[k]), length, zoneArg);
    var sel := perms[k];
    var frags := Pick(pool, sel);
    PermutationMatchesMembers(corpus, frags, length, zoneArg, c);
    var j :| 0 <= j < |corpus| && c in FileMatches(corpus[j], frags, length, zoneArg);
    FileMatchesMembers(corpus[j], frags, length, zoneArg, c);
    FindAllMembers(corpus[j], frags, c);
    PermutationSpace(|pool|, r, sel);
    assert frags == [] ==> sel == [];
    assert FoundBy(c, pool, sel, corpus[j], length, zoneArg);
  }

  lemma FoundAreCandidates(pool: seq<string>, r: nat, corpus: seq<string>, length: int, zoneArg: string,
                           c: string, sel: seq<nat>, blob: string)
    requires |sel| == r && Distinct(sel) && Within(sel, |pool|) && blob in corpus
    requires FoundBy(c, pool, sel, blob, length, zoneArg)
    ensures c in Candidates(pool, r, corpus, length, zoneArg)
  {
    var perms := Selections(Positions(|pool|), r);
    SelectionsWithin(|pool|, r);
    PermutationSpace(|pool|, r, sel);
    var k :| 0 <= k < |perms| && perms[k] == sel;
    var frags := Pick(pool, sel);
    var j :| 0 <= j < |corpus| && corpus[j] == blob;
    FindAllMembers(blob, frags, c);
    FileMatchesMembers(blob, frags, length, zoneArg, c);
    PermutationMatchesMembers(corpus, frags, length, zoneArg, c);
    AllMatchesMembers(perms, pool, corpus, length, zoneArg, c);
  }

  /**
   * A string is collected exactly when some sequence of r distinct pool
   * positions and some corpus file let it through.
   */
  lemma CandidatesAre(pool: seq<string>, r: nat, corpus: seq<string>, length: int, zoneArg: string, c: string)
    ensures c in Candidates(pool, r, corpus, length, zoneArg) <==>
      exists sel, blob :: |sel| == r && Distinct(sel) && Within(sel, |pool|) && blob in corpus
                          && FoundBy(c, pool, sel, blob, length, zoneArg)
  {
    if c in Candidates(pool, r, corpus, length, zoneArg) {
      CandidatesAreFound(pool, r, corpus, length, zoneArg, c);
    }
    if exists sel, blob :: |sel| == r && Distinct(sel) && Within(sel, |pool|) && blob in corpus
                           && FoundBy(c, pool, sel, blob, length, zoneArg) {
      var sel, blob :| |sel| == r && Distinct(sel) && Within(sel, |pool|) && blob in corpus
                       && FoundBy(c, pool, sel, blob, length, zoneArg);
      FoundAreCandidates(pool, r, corpus, length, zoneArg, c, sel, blob);
    }
  }

  /** Nothing is collected exactly when no selection and no corpus file let any string through. */
  lemma NothingFoundIff(pool: seq<string>, r: nat, corpus: seq<string>, length: int, zoneArg: string)
    ensures Candidates(pool, r, corpus, length, zoneArg) == [] <==>
      !exists c, sel, blob :: |sel| == r && Distinct(sel) && Within(sel, |pool|) && blob in corpus
                              && FoundBy(c, pool, sel, blob, length, zoneArg)
  {
    var found := Candidates(pool, r, corpus, length, zoneArg);
    if found != [] {
      CandidatesAreFound(pool, r, corpus, length, zoneArg, found[0]);
    }
    forall c, sel, blob | |sel| == r && Distinct(sel) && Within(sel, |pool|) && blob in corpus
                          && FoundBy(c, pool, sel, blob, length, zoneArg)
      ensures c in found
    {
      FoundAreCandidates(pool, r, corpus, length, zoneArg, c, sel, blob);
    }
  }
}
