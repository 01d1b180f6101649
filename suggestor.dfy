/**
 * `Domainer.gen_domains` and `Domainer.levsort`: fragments of the keyword,
 * the permutation search over the corpus, the `None` answer when nothing is
 * found, the optional ranking by distance to the keyword, removal of the
 * found zones and attachment of the requested ones.
 */
module Suggestor {
  import opened Wrappers
  import opened Text
  import opened Fragments
  import opened Permutations
  import opened Matching
  import opened Search
  import opened Zones
  import opened Distance
  import opened Sorting

  /** The ranking key of `levsort`: the distance from the keyword to a name with its zone removed. */
  function DistanceKey(keyword: string): string -> nat {
    x => Osa(keyword, StripZone(x))
  }

  /** `map(get_str, domains)`. */
  function StripAll(domains: seq<string>): (names: seq<string>)
    ensures |names| == |domains|
    ensures forall k :: 0 <= k < |domains| ==> names[k] == StripZone(domains[k])
  {
    seq(|domains|, k requires 0 <= k < |domains| => StripZone(domains[k]))
  }

  /**
   * `set(domains)`, listed in the order of first occurrence: each found
   * domain once, and nothing else.
   */
  function Dedup(s: seq<string>): seq<string> {
    if s == [] then []
    else
      var d := Dedup(s[..|s| - 1]);
      if s[|s| - 1] in d then d else d + [s[|s| - 1]]
  }

  /** The deduplicated list holds each found domain exactly once, and nothing else. */
  lemma {:induction false} DedupIsSet(s: seq<string>)
    ensures forall x :: x in Dedup(s) <==> x in s
    ensures forall i, j :: 0 <= i < j < |Dedup(s)| ==> Dedup(s)[i] != Dedup(s)[j]
  {
    if s != [] {
      var init := s[..|s| - 1];
      DedupIsSet(init);
      assert s == init + [s[|s| - 1]];
    }
  }

  /** What `levsort` returns: the names with their zones removed, in the stable order of their distance. */
  function Ranked(keyword: string, domains: seq<string>): seq<string> {
    InsertionSort(StripAll(domains), DistanceKey(keyword))
  }

  /**
   * `levsort`: strip the zones into a list, then bubble-sort it in place by
   * the distance of each (again stripped) name to the keyword.
   */
  method LevSort(keyword: string, domains: seq<string>) returns (names: seq<string>)
    ensures names == Ranked(keyword, domains)
    ensures |names| == |domains|
    ensures multiset(names) == multiset(StripAll(domains))
    ensures SortedBy(names, DistanceKey(keyword))
    ensures SameClasses(names, StripAll(domains), DistanceKey(keyword))
  {
    var arr := new string[|domains|](k requires 0 <= k < |domains| => StripZone(domains[k]));
    assert arr[..] == StripAll(domains);
    BubbleSort(arr, DistanceKey(keyword));
    names := arr[..];
  }

  /** Whether the found domains go through `levsort`: `sort and grams_length`. */
  predicate RankingPath(gramsLength: nat, sort: bool) {
    sort && gramsLength != 0
  }

  /** The bare names the zones are attached to, before the final `map(get_str, domains)`. */
  function Chosen(keyword: string, found: seq<string>, gramsLength: nat, sort: bool): seq<string> {
    if RankingPath(gramsLength, sort) then Ranked(keyword, Dedup(found)) else found
  }

  /** All candidates of a keyword against a corpus, before ranking. */
  function Found(keyword: string, gramsLength: nat, zoneArg: string, length: int, corpus: seq<string>): seq<string> {
    var words := Words(keyword);
    Candidates(Pool(words, gramsLength), |words|, corpus, length, zoneArg)
  }

  /** The answer for the found domains: `None` when there are none, otherwise the names with every requested zone. */
  function Answer(keyword: string, found: seq<string>, gramsLength: nat, sort: bool, zoneArg: string): Option<seq<string>> {
    if found == [] then None
    else Some(Expansion(StripAll(Chosen(keyword, found, gramsLength, sort)), SplitOn(zoneArg, ',')))
  }

  /** `gen_domains` as one value. */
  function Suggestions(keyword: string, gramsLength: nat, zoneArg: string, length: int, sort: bool,
                       corpus: seq<string>): Option<seq<string>>
  {
    Answer(keyword, Found(keyword, gramsLength, zoneArg, length, corpus), gramsLength, sort, zoneArg)
  }

  /**
   * `gen_domains`, with the corpus files given as their contents, and with
   * the zone loop attaching every zone to every name.
   */
  method GenDomains(keyword: string, gramsLength: nat, zoneArg: string, length: int, sort: bool,
                    corpus: seq<string>) returns (result: Option<seq<string>>)
    ensures result == Suggestions(keyword, gramsLength, zoneArg, length, sort, corpus)
  {
    var grams := GenerateFragments(keyword, gramsLength);
    var domains := Search.Search(grams, |Words(keyword)|, corpus, length, zoneArg);
    if domains == [] {
      return None;
    }
    if sort && gramsLength != 0 {
      domains := LevSort(keyword, Dedup(domains));
    }
    var names := StripAll(domains);
    var out := ExpandZones(names, SplitOn(zoneArg, ','));
    return Some(out);
  }

  /** No string of `s` holds a line break. */
  ghost predicate LineFree(s: seq<string>) {
    forall k :: 0 <= k < |s| ==> '\n' !in s[k]
  }

  /**
   * On lines, the stripped list is settled: stripping it again (as the
   * ranking key and the final `map(get_str, domains)` do) changes nothing,
   * each name is a prefix of its domain, and no name holds a line break.
   */
  lemma StripAllSettles(domains: seq<string>)
    requires LineFree(domains)
    ensures LineFree(StripAll(domains))
    ensures StripAll(StripAll(domains)) == StripAll(domains)
    ensures forall k :: 0 <= k < |domains| ==> StripAll(domains)[k] <= domains[k]
  {
    var names := StripAll(domains);
    forall k | 0 <= k < |domains|
      ensures '\n' !in names[k] && StripZone(names[k]) == names[k] && names[k] <= domains[k]
    {
      StripZoneIdempotent(domains[k]);
      StripZoneRemovesTrailingRun(domains[k]);
    }
  }

  /** Every found domain is one line of a corpus file, or empty: it holds no line break. */
  lemma FoundHasNoNewline(pool: seq<string>, r: nat, corpus: seq<string>, length: int, zoneArg: string, c: string)
    requires c in Candidates(pool, r, corpus, length, zoneArg)
    ensures '\n' !in c
  {
    CandidatesAreFound(pool, r, corpus, length, zoneArg, c);
    var sel, blob :| |sel| == r && Distinct(sel) && Within(sel, |pool|) && blob in corpus
                     && FoundBy(c, pool, sel, blob, length, zoneArg);
    if c in Lines(blob) {
      SplitOnPiecesHaveNoSep(blob, '\n');
    }
  }

  lemma FoundIsLineFree(keyword: string, gramsLength: nat, zoneArg: string, length: int, corpus: seq<string>)
    ensures LineFree(Found(keyword, gramsLength, zoneArg, length, corpus))
  {
    var words := Words(keyword);
    var pool := Pool(words, gramsLength);
    var found := Found(keyword, gramsLength, zoneArg, length, corpus);
    forall k | 0 <= k < |found|
      ensures '\n' !in found[k]
    {
      FoundHasNoNewline(pool, |words|, corpus, length, zoneArg, found[k]);
    }
  }

  /**
   * The answer is `None` exactly when no permutation of the fragments and no
   * corpus file let any string through.
   */
  lemma NoneIffNothingFound(keyword: string, gramsLength: nat, zoneArg: string, length: int, sort: bool,
                            corpus: seq<string>)
    ensures var words := Words(keyword);
      var pool := Pool(words, gramsLength);
      Suggestions(keyword, gramsLength, zoneArg, length, sort, corpus).None? <==>
      !exists c, sel, blob :: |sel| == |words| && Distinct(sel) && Within(sel, |pool|) && blob in corpus
                              && FoundBy(c, pool, sel, blob, length, zoneArg)
  {
    var words := Words(keyword);
    SuggestionsNoneIff(keyword, gramsLength, zoneArg, length, sort, corpus);
    NothingFoundIff(Pool(words, gramsLength), |words|, corpus, length, zoneArg);
  }

  lemma SuggestionsNoneIff(keyword: string, gramsLength: nat, zoneArg: string, length: int, sort: bool,
                           corpus: seq<string>)
    ensures var words := Words(keyword);
      Suggestions(keyword, gramsLength, zoneArg, length, sort, corpus).None? <==>
      Candidates(Pool(words, gramsLength), |words|, corpus, length, zoneArg) == []
  {
  }

  /**
   * Without ranking, the answer lists the found domains in search order,
   * duplicates kept, each with its zone removed and then each requested zone
   * attached in turn.
   */
  lemma UnrankedShape(keyword: string, found: seq<string>, gramsLength: nat, sort: bool, zoneArg: string, i: nat, j: nat)
    requires !RankingPath(gramsLength, sort) && found != []
    ensures |Answer(keyword, found, gramsLength, sort, zoneArg).value| == |found| * |SplitOn(zoneArg, ',')|
    ensures i < |found| && j < |SplitOn(zoneArg, ',')| ==>
      i * |SplitOn(zoneArg, ',')| + j < |Answer(keyword, found, gramsLength, sort, zoneArg).value|
    ensures i < |found| && j < |SplitOn(zoneArg, ',')| ==>
      Answer(keyword, found, gramsLength, sort, zoneArg).value[i * |SplitOn(zoneArg, ',')| + j]
      == Attach(StripZone(found[i]), SplitOn(zoneArg, ',')[j])
  {
    var zones := SplitOn(zoneArg, ',');
    var names := StripAll(found);
    assert Answer(keyword, found, gramsLength, sort, zoneArg).value == Expansion(names, zones);
    ExpansionLength(names, zones);
    assert |names| == |found|;
    if i < |found| && j < |zones| {
      ExpansionAt(names, zones, i, j);
      assert names[i] == StripZone(found[i]);
    }
  }

  /** Ranking reorders the stripped names and adds or loses none. */
  lemma RankedMembers(keyword: string, domains: seq<string>, x: string)
    ensures x in Ranked(keyword, domains) <==> x in StripAll(domains)
  {
    var stripped := StripAll(domains);
    InsertionSortPermutes(stripped, DistanceKey(keyword));
    assert x in Ranked(keyword, domains) <==> x in multiset(Ranked(keyword, domains));
    assert x in stripped <==> x in multiset(stripped);
  }

  /** `order` lists the members of `found`, each once: a listing `set(found)` may iterate in. */
  ghost predicate ListsOnce(order: seq<string>, found: seq<string>) {
    && (forall x :: x in order <==> x in found)
    && (forall i, j :: 0 <= i < j < |order| ==> order[i] != order[j])
  }

  /** A name ranked from any listing of found domains is one of them stripped; stripping it again changes nothing. */
  lemma RankedOrderNameOrigin(keyword: string, found: seq<string>, order: seq<string>, x: string) returns (d: string)
    requires LineFree(found) && ListsOnce(order, found) && x in Ranked(keyword, order)
    ensures d in found && x == StripZone(d) && StripZone(x) == x
  {
    var stripped := StripAll(order);
    RankedMembers(keyword, order, x);
    var t :| 0 <= t < |stripped| && stripped[t] == x;
    d := order[t];
    assert d in found;
    var k :| 0 <= k < |found| && found[k] == d;
    StripZoneIdempotent(d);
  }

  /** A ranked name is a distinct found domain with its zone removed; stripping it again changes nothing. */
  lemma RankedNameOrigin(keyword: string, found: seq<string>, x: string) returns (d: string)
    requires LineFree(found) && x in Ranked(keyword, Dedup(found))
    ensures d in found && x == StripZone(d) && StripZone(x) == x
  {
    DedupIsSet(found);
    d := RankedOrderNameOrigin(keyword, found, Dedup(found), x);
  }

  /**
   * Whatever order `set(domains)` lists the distinct found domains in, the
   * ranked names are those domains stripped, ordered by distance to the
   * keyword, ties in the listing's order.
   */
  lemma RankedShapeForOrder(keyword: string, found: seq<string>, order: seq<string>)
    requires LineFree(found) && ListsOnce(order, found)
    ensures var names := Ranked(keyword, order);
      && |names| == |order|
      && multiset(names) == multiset(StripAll(order))
      && SameClasses(names, StripAll(order), DistanceKey(keyword))
      && (forall k, m :: 0 <= k < m < |names| ==> Osa(keyword, names[k]) <= Osa(keyword, names[m]))
  {
    var names := Ranked(keyword, order);
    var key := DistanceKey(keyword);
    InsertionSortIsStableSort(StripAll(order), key);
    assert |names| == |multiset(names)|;
    forall k | 0 <= k < |names|
      ensures key(names[k]) == Osa(keyword, names[k])
    {
      var d := RankedOrderNameOrigin(keyword, found, order, names[k]);
    }
  }

  /**
   * With ranking, the names are the distinct found domains with their zones
   * removed, ordered by distance to the keyword, ties in first-found order.
   */
  lemma RankedShape(keyword: string, found: seq<string>)
    requires LineFree(found)
    ensures var names := Ranked(keyword, Dedup(found));
      && |names| == |Dedup(found)|
      && multiset(names) == multiset(StripAll(Dedup(found)))
      && SameClasses(names, StripAll(Dedup(found)), DistanceKey(keyword))
      && (forall k, m :: 0 <= k < m < |names| ==> Osa(keyword, names[k]) <= Osa(keyword, names[m]))
  {
    DedupIsSet(found);
    RankedShapeForOrder(keyword, found, Dedup(found));
  }

  /**
   * Deduplication works on the found domains, not on the names: one name
   * found with two different zones (`ab.com`, `ab.net`) survives as two
   * domains, so the ranked names hold it twice.
   */
  lemma StrippedNamesCanRepeat(keyword: string, name: string, zone1: string, zone2: string)
    requires '.' !in name && IsGroup("." + zone1) && IsGroup("." + zone2) && zone1 != zone2
    ensures multiset(Ranked(keyword, Dedup([Attach(name, zone1), Attach(name, zone2)])))[name] == 2
  {
    var d1, d2 := Attach(name, zone1), Attach(name, zone2);
    var found := [d1, d2];
    assert d1[|name| + 1..] == zone1 && d2[|name| + 1..] == zone2;
    assert d1 != d2;
    StripAttachedZone(name, zone1);
    StripAttachedZone(name, zone2);
    assert found[..1] == [d1] && Dedup([d1]) == [d1];
    assert Dedup(found) == found;
    assert StripAll(found) == [name, name];
    InsertionSortPermutes(StripAll(found), DistanceKey(keyword));
  }

  /** The instance `ab.com`, `ab.net`. */
  lemma AbTwice(keyword: string, name: string, zone1: string, zone2: string)
    requires name == "ab" && zone1 == "com" && zone2 == "net"
    ensures multiset(Ranked(keyword, Dedup([Attach(name, zone1), Attach(name, zone2)])))[name] == 2
  {
    assert ("." + zone1)[1..] == zone1 && ("." + zone2)[1..] == zone2;
    StrippedNamesCanRepeat(keyword, name, zone1, zone2);
  }

  lemma ChosenNameOrigin(keyword: string, found: seq<string>, gramsLength: nat, sort: bool, i: nat) returns (d: string)
    requires LineFree(found) && i < |Chosen(keyword, found, gramsLength, sort)|
    ensures d in found && StripAll(Chosen(keyword, found, gramsLength, sort))[i] == StripZone(d)
  {
    var chosen := Chosen(keyword, found, gramsLength, sort);
    if RankingPath(gramsLength, sort) {
      d := RankedNameOrigin(keyword, found, chosen[i]);
    } else {
      d := found[i];
    }
  }

  lemma ChosenNameOf(keyword: string, found: seq<string>, gramsLength: nat, sort: bool, d: string) returns (i: nat)
    requires LineFree(found) && d in found
    ensures i < |Chosen(keyword, found, gramsLength, sort)|
    ensures StripAll(Chosen(keyword, found, gramsLength, sort))[i] == StripZone(d)
  {
    var chosen := Chosen(keyword, found, gramsLength, sort);
    if RankingPath(gramsLength, sort) {
      StrippedIsChosen(keyword, found, d);
      i :| i < |chosen| && chosen[i] == StripZone(d);
    } else {
      i :| i < |found| && found[i] == d;
    }
  }

  /** On the ranking path every found domain, stripped, is ranked, and stripping it once more changes nothing. */
  lemma StrippedIsChosen(keyword: string, found: seq<string>, d: string)
    requires LineFree(found) && d in found
    ensures StripZone(d) in Ranked(keyword, Dedup(found))
    ensures StripZone(StripZone(d)) == StripZone(d)
  {
    var unique := Dedup(found);
    DedupIsSet(found);
    var t :| 0 <= t < |unique| && unique[t] == d;
    assert StripAll(unique)[t] == StripZone(d);
    RankedMembers(keyword, unique, StripZone(d));
    var k :| 0 <= k < |found| && found[k] == d;
    StripZoneIdempotent(d);
  }

  /** `c` is some found domain with its zone removed and the `j`-th requested zone attached, for some `j`. */
  ghost predicate FromFound(c: string, found: seq<string>, zones: seq<string>) {
    exists d, j :: d in found && 0 <= j < |zones| && c == Attach(StripZone(d), zones[j])
  }

  /** Every suggestion is a found domain with its zone removed and one requested zone attached. */
  lemma AnswerFromFound(keyword: string, found: seq<string>, gramsLength: nat, sort: bool, zoneArg: string, c: string)
    requires LineFree(found) && found != []
    requires c in Answer(keyword, found, gramsLength, sort, zoneArg).value
    ensures FromFound(c, found, SplitOn(zoneArg, ','))
  {
    var zones := SplitOn(zoneArg, ',');
    var names := StripAll(Chosen(keyword, found, gramsLength, sort));
    assert c in Expansion(names, zones);
    ExpansionEntries(names, zones, c);
    var i, j :| 0 <= i < |names| && 0 <= j < |zones| && c == Attach(names[i], zones[j]);
    var d := ChosenNameOrigin(keyword, found, gramsLength, sort, i);
    assert c == Attach(StripZone(d), zones[j]);
  }

  /** Every found domain, with its zone removed, is suggested with each requested zone. */
  lemma FoundInAnswer(keyword: string, found: seq<string>, gramsLength: nat, sort: bool, zoneArg: string,
                      d: string, j: nat)
    requires LineFree(found) && found != [] && d in found && j < |SplitOn(zoneArg, ',')|
    ensures Attach(StripZone(d), SplitOn(zoneArg, ',')[j]) in Answer(keyword, found, gramsLength, sort, zoneArg).value
  {
    var zones := SplitOn(zoneArg, ',');
    var names := StripAll(Chosen(keyword, found, gramsLength, sort));
    var i := ChosenNameOf(keyword, found, gramsLength, sort, d);
    ExpansionHas(names, zones, i, j);
    AnswerValue(keyword, found, gramsLength, sort, zoneArg);
  }

  lemma AnswerValue(keyword: string, found: seq<string>, gramsLength: nat, sort: bool, zoneArg: string)
    requires found != []
    ensures Answer(keyword, found, gramsLength, sort, zoneArg)
      == Some(Expansion(StripAll(Chosen(keyword, found, gramsLength, sort)), SplitOn(zoneArg, ',')))
  {
  }

  /**
   * Whatever the path, a suggestion is some found domain with its zone
   * removed and one requested zone attached, and every such combination is
   * suggested.
   */
  lemma AnswerMembers(keyword: string, found: seq<string>, gramsLength: nat, sort: bool, zoneArg: string, c: string)
    requires LineFree(found) && found != []
    ensures c in Answer(keyword, found, gramsLength, sort, zoneArg).value <==> FromFound(c, found, SplitOn(zoneArg, ','))
  {
    var zones := SplitOn(zoneArg, ',');
    if c in Answer(keyword, found, gramsLength, sort, zoneArg).value {
      AnswerFromFound(keyword, found, gramsLength, sort, zoneArg, c);
    }
    if FromFound(c, found, zones) {
      var d, j :| d in found && 0 <= j < |zones| && c == Attach(StripZone(d), zones[j]);
      FoundInAnswer(keyword, found, gramsLength, sort, zoneArg, d, j);
    }
  }

  /** For `gen_domains`: every suggestion comes from a found domain, and all combinations are there. */
  lemma SuggestionsAre(keyword: string, gramsLength: nat, zoneArg: string, length: int, sort: bool,
                       corpus: seq<string>, c: string)
    requires Suggestions(keyword, gramsLength, zoneArg, length, sort, corpus).Some?
    ensures c in Suggestions(keyword, gramsLength, zoneArg, length, sort, corpus).value <==>
      FromFound(c, Found(keyword, gramsLength, zoneArg, length, corpus), SplitOn(zoneArg, ','))
  {
    var found := Found(keyword, gramsLength, zoneArg, length, corpus);
    FoundIsLineFree(keyword, gramsLength, zoneArg, length, corpus);
    AnswerMembers(keyword, found, gramsLength, sort, zoneArg, c);
  }

  /** For `gen_domains` with ranking: the ranked names are ordered by distance to the keyword. */
  lemma SuggestionsRanked(keyword: string, gramsLength: nat, zoneArg: string, length: int, sort: bool,
                          corpus: seq<string>)
    requires RankingPath(gramsLength, sort)
    ensures var names := Ranked(keyword, Dedup(Found(keyword, gramsLength, zoneArg, length, corpus)));
      forall k, m :: 0 <= k < m < |names| ==> Osa(keyword, names[k]) <= Osa(keyword, names[m])
  {
    FoundIsLineFree(keyword, gramsLength, zoneArg, length, corpus);
    RankedShape(keyword, Found(keyword, gramsLength, zoneArg, length, corpus));
  }

  /** Ranking `bat`, `cot`, `dog` against `cat`: the tied `bat` and `cot` keep their order, `dog` comes last. */
  lemma CatRanking(keyword: string, names: seq<string>)
    requires keyword == "cat" && names == ["bat", "cot", "dog"]
    ensures Ranked(keyword, names) == names
  {
    StripWithoutDot(names[0]);
    StripWithoutDot(names[1]);
    StripWithoutDot(names[2]);
    CatDistances(keyword, names[0], names[1], names[2]);
    RankedInOrder(keyword, names);
  }

  /** Zone-free names already in order of distance are ranked as they are. */
  lemma RankedInOrder(keyword: string, names: seq<string>)
    requires forall k :: 0 <= k < |names| ==> StripZone(names[k]) == names[k]
    requires forall k :: 0 <= k < |names| - 1 ==> Osa(keyword, names[k]) <= Osa(keyword, names[k + 1])
    ensures Ranked(keyword, names) == names
  {
    var key := DistanceKey(keyword);
    assert StripAll(names) == names;
    forall k, m | 0 <= k < m < |names|
      ensures key(names[k]) <= key(names[m])
    {
      ChainOrder(keyword, names, k, m);
    }
    SortedIsFixed(names, key);
  }

  lemma {:induction false} ChainOrder(keyword: string, names: seq<string>, k: nat, m: nat)
    requires k <= m < |names|
    requires forall k :: 0 <= k < |names| - 1 ==> Osa(keyword, names[k]) <= Osa(keyword, names[k + 1])
    ensures Osa(keyword, names[k]) <= Osa(keyword, names[m])
    decreases m - k
  {
    if k < m {
      ChainOrder(keyword, names, k + 1, m);
    }
  }
}
