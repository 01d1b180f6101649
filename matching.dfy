/**
 * The corpus search for one permutation. The engine compiles
 * `.*?f1.*f2 ... .*fr.*` with `re.I` and runs `findall` over a whole corpus
 * file. Here the fragments are literal text, and the effect of that pattern
 * is stated directly: `.` cannot cross a line break, so each match is one
 * whole line that holds f1, ..., fr in that order, ignoring ASCII case.
 */
module Matching {
  import opened Text
  import opened Wrappers

  /** `f` occurs at position `k` of `line`, ignoring ASCII case. */
  predicate OccursAt(line: string, f: string, k: nat) {
    k + |f| <= |line| && Fold(line[k..k + |f|]) == Fold(f)
  }

  /** The fragments occur in `line` one after another, without overlapping, ignoring case. */
  ghost predicate ContainsInOrder(line: string, frags: seq<string>)
    decreases |frags|
  {
    frags == [] ||
    exists k: nat :: OccursAt(line, frags[0], k) && ContainsInOrder(line[k + |frags[0]|..], frags[1..])
  }

  /** The leftmost occurrence of `f` in `line` at or after `k`. */
  function FindFrom(line: string, f: string, k: nat): (r: Option<nat>)
    ensures r.Some? ==> k <= r.value && OccursAt(line, f, r.value)
    ensures forall j: nat :: k <= j && (r.None? || j < r.value) ==> !OccursAt(line, f, j)
    decreases |line| - k
  {
    if k + |f| > |line| then None
    else if OccursAt(line, f, k) then Some(k)
    else FindFrom(line, f, k + 1)
  }

  /** Whether the line holds the fragments in order, taking the leftmost occurrence of each in turn. */
  function MatchesInOrder(line: string, frags: seq<string>): bool
    decreases |frags|
  {
    if frags == [] then true
    else
      match FindFrom(line, frags[0], 0)
      case None => false
      case Some(k) => MatchesInOrder(line[k + |frags[0]|..], frags[1..])
  }

  lemma ContainsInSuffix(line: string, d: nat, frags: seq<string>)
    requires d <= |line| && ContainsInOrder(line[d..], frags)
    ensures ContainsInOrder(line, frags)
  {
    if frags != [] {
      var f := frags[0];
      var k: nat :| OccursAt(line[d..], f, k) && ContainsInOrder(line[d..][k + |f|..], frags[1..]);
      assert line[d..][k..k + |f|] == line[d + k..d + k + |f|];
      assert line[d..][k + |f|..] == line[d + k + |f|..];
      assert OccursAt(line, f, d + k);
    }
  }

  lemma {:induction false} GreedyMatchIsSound(line: string, frags: seq<string>)
    requires MatchesInOrder(line, frags)
    ensures ContainsInOrder(line, frags)
    decreases |frags|
  {
    if frags != [] {
      var f := frags[0];
      var j := FindFrom(line, f, 0).value;
      GreedyMatchIsSound(line[j + |f|..], frags[1..]);
    }
  }

  /** An occurrence at `k` means the leftmost search succeeds, at or before `k`. */
  lemma LeftmostIsNoLater(line: string, f: string, k: nat) returns (j: nat)
    requires OccursAt(line, f, k)
    ensures FindFrom(line, f, 0) == Some(j) && j <= k
  {
    var r := FindFrom(line, f, 0);
    if r.None? {
      assert false;
    }
    j := r.value;
  }

  /** Where the first fragment sits in a line that holds all of them in order. */
  lemma FirstOccurrence(line: string, frags: seq<string>) returns (k: nat)
    requires frags != [] && ContainsInOrder(line, frags)
    ensures OccursAt(line, frags[0], k) && ContainsInOrder(line[k + |frags[0]|..], frags[1..])
  {
    k :| OccursAt(line, frags[0], k) && ContainsInOrder(line[k + |frags[0]|..], frags[1..]);
  }

  lemma {:induction false} GreedyMatchIsComplete(line: string, frags: seq<string>)
    requires ContainsInOrder(line, frags)
    ensures MatchesInOrder(line, frags)
    decreases |frags|
  {
    if frags != [] {
      var f, rest := frags[0], frags[1..];
      var k := FirstOccurrence(line, frags);
      var j := LeftmostIsNoLater(line, f, k);
      var tail := line[j + |f|..];
      assert tail[k - j..] == line[k + |f|..];
      ContainsInSuffix(tail, k - j, rest);
      GreedyMatchIsComplete(tail, rest);
    }
  }

  /** Taking leftmost occurrences greedily decides the in-order predicate exactly. */
  lemma GreedyMatchIsExact(line: string, frags: seq<string>)
    ensures MatchesInOrder(line, frags) <==> ContainsInOrder(line, frags)
  {
    if MatchesInOrder(line, frags) {
      GreedyMatchIsSound(line, frags);
    }
    if ContainsInOrder(line, frags) {
      GreedyMatchIsComplete(line, frags);
    }
  }

  /** The lines of a blob: the stretches a `.` can range over. */
  function Lines(blob: string): seq<string> {
    SplitOn(blob, '\n')
  }

  /**
   * `findall` of `.*?.*` (a blank keyword, no fragments): each non-empty line,
   * then the empty match at its end; an empty line yields one empty match.
   */
  function EmptyPatternMatches(lines: seq<string>): seq<string> {
    if lines == [] then []
    else (if lines[0] == "" then [""] else [lines[0], ""]) + EmptyPatternMatches(lines[1..])
  }

  /** The lines that hold the fragments in order, in corpus order. */
  function MatchingLines(lines: seq<string>, frags: seq<string>): seq<string> {
    if lines == [] then []
    else (if MatchesInOrder(lines[0], frags) then [lines[0]] else []) + MatchingLines(lines[1..], frags)
  }

  /** `regex.findall(data)` for the pattern built from `frags` (non-empty fragments without line breaks). */
  function FindAll(blob: string, frags: seq<string>): seq<string> {
    if frags == [] then EmptyPatternMatches(Lines(blob)) else MatchingLines(Lines(blob), frags)
  }

  lemma {:induction false} EmptyPatternMembers(lines: seq<string>, c: string)
    requires lines != []
    ensures c in EmptyPatternMatches(lines) <==> c in lines || c == ""
  {
    if |lines| > 1 {
      EmptyPatternMembers(lines[1..], c);
    }
  }

  lemma {:induction false} MatchingLinesMembers(lines: seq<string>, frags: seq<string>, c: string)
    ensures c in MatchingLines(lines, frags) <==> c in lines && ContainsInOrder(c, frags)
  {
    if lines != [] {
      GreedyMatchIsExact(lines[0], frags);
      MatchingLinesMembers(lines[1..], frags, c);
    }
  }

  /**
   * A match for a permutation is a whole line of the blob that contains its
   * fragments in order; with no fragments every line and the empty string match.
   */
  lemma FindAllMembers(blob: string, frags: seq<string>, c: string)
    ensures c in FindAll(blob, frags) <==>
      (c in Lines(blob) && ContainsInOrder(c, frags)) || (frags == [] && c == "")
  {
    if frags == [] {
      EmptyPatternMembers(Lines(blob), c);
    } else {
      MatchingLinesMembers(Lines(blob), frags, c);
    }
  }

  /** A match never spans a line break. */
  lemma MatchesAreSingleLines(blob: string, frags: seq<string>, c: string)
    requires c in FindAll(blob, frags)
    ensures '\n' !in c
  {
    FindAllMembers(blob, frags, c);
    SplitOnPiecesHaveNoSep(blob, '\n');
  }

  /** A line holding several domain tokens is matched as a whole, not token by token. */
  lemma WholeLineIsTheMatch()
    ensures FindAll("ab.com cd.net", ["ab"]) == ["ab.com cd.net"]
  {
    var line := "ab.com cd.net";
    assert '\n' !in line;
    SplitJoinOn([line], '\n');
    assert Lines(line) == [line];
    assert line[0..2] == "ab";
    assert OccursAt(line, "ab", 0);
  }
}
