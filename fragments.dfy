/**
 * Fragment generation: the keyword's words, or, when an n-gram length is
 * given, every contiguous n-character window of every word, flattened in
 * word order.
 */
module Fragments {
  import opened Text

  /** The length-`n` windows of `w` at step 1; a word shorter than `n` has none. */
  function Windows(w: string, n: nat): (g: seq<string>)
    requires n > 0
    ensures |g| == WindowCount(w, n)
    ensures forall k :: 0 <= k < |g| ==> g[k] == w[k..k + n]
    decreases |w|
  {
    if |w| < n then [] else [w[..n]] + Windows(w[1..], n)
  }

  /** max(0, |w| - n + 1) */
  function WindowCount(w: string, n: nat): nat {
    if |w| >= n then |w| - n + 1 else 0
  }

  /** `f` is the window of `w` that starts at `k`. */
  predicate IsWindowOf(f: string, w: string, k: int, n: nat) {
    0 <= k && k + n <= |w| && f == w[k..k + n]
  }

  /** The fragments one word contributes: itself when `n` is 0, else its windows. */
  function WordFragments(w: string, n: nat): seq<string> {
    if n == 0 then [w] else Windows(w, n)
  }

  /** The flattened fragment pool of a word sequence. */
  function Pool(words: seq<string>, n: nat): seq<string> {
    if words == [] then []
    else Pool(words[..|words| - 1], n) + WordFragments(words[|words| - 1], n)
  }

  /** The sum over the words of their window counts. */
  function TotalWindows(words: seq<string>, n: nat): nat {
    if words == [] then 0
    else TotalWindows(words[..|words| - 1], n) + WindowCount(words[|words| - 1], n)
  }

  /** The fragment loop of `gen_domains`: append each word, or each of its n-grams. */
  /** The pool of one more word is the pool so far and that word's fragments. */
  lemma PoolGrows(words: seq<string>, i: nat, n: nat)
    requires i < |words|
    ensures Pool(words[..i + 1], n) == Pool(words[..i], n) + WordFragments(words[i], n)
  {
    assert words[..i + 1][..i] == words[..i];
  }

  /** One more window, the one starting at `k`. */
  lemma WindowsGrow(w: string, n: nat, k: nat)
    requires n > 0 && k + n <= |w|
    ensures Windows(w, n)[..k + 1] == Windows(w, n)[..k] + [w[k..k + n]]
  {
  }

  method GenerateFragments(keyword: string, n: nat) returns (grams: seq<string>)
    ensures grams == Pool(Words(keyword), n)
  {
    var words := Words(keyword);
    grams := [];
    var i := 0;
    while i < |words|
      invariant 0 <= i <= |words|
      invariant grams == Pool(words[..i], n)
    {
      PoolGrows(words, i, n);
      grams := AddWordFragments(grams, words[i], n);
      i := i + 1;
    }
    assert words[..i] == words;
  }

  /** One word's turn: its windows one by one, or the word itself when no window length is given. */
  method AddWordFragments(grams: seq<string>, word: string, n: nat) returns (out: seq<string>)
    ensures out == grams + WordFragments(word, n)
  {
    out := grams;
    if n != 0 {
      var k := 0;
      while k + n <= |word|
        invariant 0 <= k <= WindowCount(word, n)
        invariant out == grams + Windows(word, n)[..k]
      {
        WindowsGrow(word, n, k);
        out := out + [word[k..k + n]];
        k := k + 1;
      }
      assert Windows(word, n)[..k] == Windows(word, n);
    } else {
      out := out + [word];
    }
  }


  /** Without an n-gram length the pool is the words themselves, in order. */
  lemma {:induction false} PoolWithoutNgrams(words: seq<string>)
    ensures Pool(words, 0) == words
  {
    if words != [] {
      PoolWithoutNgrams(words[..|words| - 1]);
      assert words[..|words| - 1] + [words[|words| - 1]] == words;
    }
  }

  /** With an n-gram length the pool holds max(0, |w| - n + 1) fragments per word. */
  lemma {:induction false} PoolSize(words: seq<string>, n: nat)
    requires n > 0
    ensures |Pool(words, n)| == TotalWindows(words, n)
  {
    if words != [] {
      PoolSize(words[..|words| - 1], n);
    }
  }

  lemma WindowMembers(w: string, n: nat, f: string)
    requires n > 0
    ensures f in Windows(w, n) <==> exists k :: IsWindowOf(f, w, k, n)
  {
    var g := Windows(w, n);
    if f in g {
      var k :| 0 <= k < |g| && g[k] == f;
      assert IsWindowOf(f, w, k, n);
    }
    if exists k :: IsWindowOf(f, w, k, n) {
      var k :| IsWindowOf(f, w, k, n);
      assert g[k] == f;
    }
  }

  /** A fragment of the pool is a window of some word. */
  lemma {:induction false} PoolWindowOrigin(words: seq<string>, n: nat, f: string) returns (i: nat, k: int)
    requires n > 0 && f in Pool(words, n)
    ensures i < |words| && IsWindowOf(f, words[i], k, n)
  {
    var init, last := words[..|words| - 1], words[|words| - 1];
    assert Pool(words, n) == Pool(init, n) + Windows(last, n);
    if f in Pool(init, n) {
      i, k := PoolWindowOrigin(init, n, f);
      assert words[i] == init[i];
    } else {
      WindowMembers(last, n, f);
      i := |words| - 1;
      k :| IsWindowOf(f, last, k, n);
    }
  }

  /** Every window of every word is in the pool. */
  lemma {:induction false} WindowInPool(words: seq<string>, n: nat, f: string, i: nat, k: int)
    requires n > 0 && i < |words| && IsWindowOf(f, words[i], k, n)
    ensures f in Pool(words, n)
  {
    var init, last := words[..|words| - 1], words[|words| - 1];
    assert Pool(words, n) == Pool(init, n) + Windows(last, n);
    if i < |init| {
      assert init[i] == words[i];
      WindowInPool(init, n, f, i, k);
    } else {
      WindowMembers(last, n, f);
    }
  }

  /** With an n-gram length a fragment is in the pool exactly when it is a window of some word. */
  lemma PoolMembers(words: seq<string>, n: nat, f: string)
    requires n > 0
    ensures f in Pool(words, n) <==> exists i, k :: 0 <= i < |words| && IsWindowOf(f, words[i], k, n)
  {
    if f in Pool(words, n) {
      var i, k := PoolWindowOrigin(words, n, f);
    }
    if exists i, k :: 0 <= i < |words| && IsWindowOf(f, words[i], k, n) {
      var i, k :| 0 <= i < |words| && IsWindowOf(f, words[i], k, n);
      WindowInPool(words, n, f, i, k);
    }
  }

  /** Fragments of real words are themselves words: non-empty, with no whitespace, so no line break. */
  lemma {:induction false} PoolHoldsWords(words: seq<string>, n: nat)
    requires forall i :: 0 <= i < |words| ==> IsWord(words[i])
    ensures forall k :: 0 <= k < |Pool(words, n)| ==> IsWord(Pool(words, n)[k])
  {
    if words != [] {
      var init, last := words[..|words| - 1], words[|words| - 1];
      PoolHoldsWords(init, n);
      var p := Pool(words, n);
      forall k | 0 <= k < |p|
        ensures IsWord(p[k])
      {
        if k >= |Pool(init, n)| {
          var g := WordFragments(last, n);
          var m := k - |Pool(init, n)|;
          assert p[k] == g[m];
          if n > 0 {
            assert g[m] == last[m..m + n];
            assert forall q :: 0 <= q < n ==> g[m][q] == last[m + q];
          }
        } else {
          assert p[k] == Pool(init, n)[k];
        }
      }
    }
  }

  /** "ab cd" with 2-grams: each word is one window, so the pool is ["ab", "cd"]. */
  lemma TwoWordBigrams()
    ensures Pool(Words("ab cd"), 2) == ["ab", "cd"]
  {
    assert JoinWords(["ab", "cd"]) == "ab cd";
    WordsOfJoined(["ab", "cd"]);
    var words := ["ab", "cd"];
    assert words[..1] == ["ab"];
    assert "ab"[0..2] == "ab" && "cd"[0..2] == "cd";
    assert Windows("ab", 2) == ["ab"];
    assert Windows("cd", 2) == ["cd"];
    assert Pool(words[..1], 2) == Pool([], 2) + Windows("ab", 2);
  }
}
