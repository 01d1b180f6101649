/**
 * Zones: removing the trailing zone from a found domain
 * (`re.sub('([.][a-z]{2,4})+$', '', domain)`), and appending the requested
 * zones to the bare names.
 */
module Zones {
  import opened Text

  /** A lower-case ASCII letter, the class `[a-z]` (the pattern is case-sensitive). */
  predicate IsLowerLetter(c: char) {
    'a' <= c <= 'z'
  }

  /** One group `[.][a-z]{2,4}`: a dot followed by two to four lower-case letters. */
  predicate IsGroup(u: string) {
    3 <= |u| <= 5 && u[0] == '.' && forall i :: 1 <= i < |u| ==> IsLowerLetter(u[i])
  }

  /** `t` is one or more groups, one after another: `([.][a-z]{2,4})+` matching all of `t`. */
  predicate IsZoneRun(t: string)
    decreases |t|, 1
  {
    GroupThenRun(t, 3) || GroupThenRun(t, 4) || GroupThenRun(t, 5)
  }

  /** `t` opens with a group of width `w`, and what follows is empty or again a run. */
  predicate GroupThenRun(t: string, w: nat)
    requires 3 <= w <= 5
    decreases |t|, 0
  {
    w <= |t| && IsGroup(t[..w]) && (w == |t| || IsZoneRun(t[w..]))
  }

  /** The width of the first group of a run. */
  function FirstWidth(t: string): (w: nat)
    requires IsZoneRun(t)
    ensures 3 <= w <= 5 && GroupThenRun(t, w)
  {
    if GroupThenRun(t, 3) then 3 else if GroupThenRun(t, 4) then 4 else 5
  }

  /** Two runs side by side are a run. */
  lemma {:induction false} RunConcat(a: string, b: string)
    requires IsZoneRun(a) && IsZoneRun(b)
    ensures IsZoneRun(a + b)
    decreases |a|
  {
    var w := FirstWidth(a);
    assert (a + b)[..w] == a[..w];
    if w == |a| {
      assert (a + b)[w..] == b;
    } else {
      RunConcat(a[w..], b);
      assert (a + b)[w..] == a[w..] + b;
    }
    assert GroupThenRun(a + b, w);
  }

  /** A run never holds a line break. */
  lemma {:induction false} RunHasNoNewline(t: string)
    requires IsZoneRun(t)
    ensures '\n' !in t
    decreases |t|
  {
    var w := FirstWidth(t);
    assert t == t[..w] + t[w..];
    if w < |t| {
      RunHasNoNewline(t[w..]);
    }
  }

  /** The leftmost position at or after `p` where a run reaching the end of `s` starts, or `|s|`. */
  function RunStart(s: string, p: nat): (q: nat)
    requires p <= |s|
    ensures p <= q <= |s|
    ensures q < |s| ==> IsZoneRun(s[q..])
    ensures forall i :: p <= i < q ==> !IsZoneRun(s[i..])
    decreases |s| - p
  {
    if p == |s| then p
    else if IsZoneRun(s[p..]) then p
    else RunStart(s, p + 1)
  }

  /** `s` with its trailing run removed, for `$` matching at the very end. */
  function StripTail(s: string): string {
    s[..RunStart(s, 0)]
  }

  /**
   * `re.sub('([.][a-z]{2,4})+$', '', s)`. The leftmost place where the pattern
   * matches is the leftmost start of a run that reaches the end of `s`; `$`
   * also matches just before a final line break, which then stays.
   */
  function StripZone(s: string): string {
    if |s| > 0 && s[|s| - 1] == '\n' then StripTail(s[..|s| - 1]) + "\n"
    else StripTail(s)
  }

  /** No suffix of a stripped string is a run. */
  lemma StripTailLeavesNoRun(s: string)
    ensures forall i :: 0 <= i < |StripTail(s)| ==> !IsZoneRun(StripTail(s)[i..])
  {
    var q := RunStart(s, 0);
    var u := s[..q];
    forall i | 0 <= i < |u|
      ensures !IsZoneRun(u[i..])
    {
      if q == |s| {
        assert u[i..] == s[i..];
      } else {
        assert s[i..] == u[i..] + s[q..];
        if IsZoneRun(u[i..]) {
          RunConcat(u[i..], s[q..]);
        }
      }
    }
  }

  /**
   * For a string without line breaks (every found line is one): the result is
   * a prefix, what was removed is nothing or a run, and the result no longer
   * ends in a group (no suffix of it is a run).
   */
  lemma StripZoneRemovesTrailingRun(s: string)
    requires '\n' !in s
    ensures StripZone(s) == StripTail(s)
    ensures StripZone(s) <= s
    ensures |StripZone(s)| == |s| || IsZoneRun(s[|StripZone(s)|..])
    ensures forall i :: 0 <= i < |StripZone(s)| ==> !IsZoneRun(StripZone(s)[i..])
  {
    if |s| > 0 {
      assert s[|s| - 1] in s;
    }
    StripTailLeavesNoRun(s);
  }

  /** Stripping a line-free string twice is stripping it once. */
  lemma StripZoneIdempotent(s: string)
    requires '\n' !in s
    ensures '\n' !in StripZone(s)
    ensures StripZone(StripZone(s)) == StripZone(s)
  {
    StripZoneRemovesTrailingRun(s);
    var r := StripZone(s);
    assert forall c :: c in r ==> c in s;
    StripTailLeavesNoRun(s);
    StripZoneRemovesTrailingRun(r);
  }

  /** Both groups of a two-group zone such as `co.uk` go. */
  lemma StripTwoGroups()
    ensures StripZone("ab.co.uk") == "ab"
  {
    var s := "ab.co.uk";
    assert s[2..][..3] == ".co" && s[2..][3..] == ".uk" && s[2..][3..][..3] == ".uk";
    assert IsZoneRun(s[2..][3..]);
    assert GroupThenRun(s[2..], 3);
    assert !IsZoneRun(s[0..]) && !IsZoneRun(s[1..]);
    assert RunStart(s, 0) == 2;
    assert s[..2] == "ab";
  }

  /** The letter class is lower-case only: `COM` is not a group. */
  lemma StripKeepsUpperCase()
    ensures StripZone("ab.COM") == "ab.COM"
  {
    var s := "ab.COM";
    assert s[2..][1] == 'C' && !IsLowerLetter('C');
    assert !IsZoneRun(s[2..]);
    forall i | 0 <= i < |s| && i != 2
      ensures !IsZoneRun(s[i..])
    {
      assert s[i..][0] != '.';
    }
    assert RunStart(s, 0) == |s|;
  }

  /** A run opens with the dot of its first group. */
  lemma RunOpensWithDot(t: string)
    requires IsZoneRun(t)
    ensures |t| > 0 && t[0] == '.'
  {
    var w := FirstWidth(t);
    assert t[..w][0] == t[0];
  }

  /** What does not open with a dot is not a run. */
  lemma NoDotNoRun(t: string)
    requires |t| == 0 || t[0] != '.'
    ensures !IsZoneRun(t)
  {
    if IsZoneRun(t) {
      RunOpensWithDot(t);
    }
  }

  /** A string without a dot has no zone to remove. */
  lemma StripWithoutDot(s: string)
    requires '.' !in s
    ensures StripZone(s) == s
  {
    var u := if |s| > 0 && s[|s| - 1] == '\n' then s[..|s| - 1] else s;
    var q := RunStart(u, 0);
    if q < |u| {
      RunOpensWithDot(u[q..]);
      assert false;
    }
    assert StripTail(u) == u;
    if |s| > 0 && s[|s| - 1] == '\n' {
      assert u + "\n" == s;
    }
  }

  /** A name with a zone attached: `'{0}.{1}'.format(name, zone)`. */
  function Attach(name: string, zone: string): string {
    name + "." + zone
  }

  /** One name with each zone attached, in zone order. */
  function Suffixed(name: string, zones: seq<string>): (r: seq<string>)
    ensures |r| == |zones|
    ensures forall j :: 0 <= j < |zones| ==> r[j] == Attach(name, zones[j])
  {
    seq(|zones|, j requires 0 <= j < |zones| => Attach(name, zones[j]))
  }

  /** Stripping undoes attaching one group-shaped zone to a dot-free name. */
  lemma StripAttachedZone(name: string, zone: string)
    requires '.' !in name && IsGroup("." + zone)
    ensures StripZone(Attach(name, zone)) == name
  {
    var g := "." + zone;
    var s := Attach(name, zone);
    assert s == name + g;
    assert s[|name|..] == g;
    assert g[..|g|] == g;
    assert GroupThenRun(g, |g|);
    forall i | 0 <= i < |name|
      ensures !IsZoneRun(s[i..])
    {
      assert s[i..][0] == name[i];
      NoDotNoRun(s[i..]);
    }
    assert RunStart(s, 0) == |name|;
    assert s[|s| - 1] == g[|g| - 1];
    assert s[..|name|] == name;
  }

  /** Every name with every zone, names in order, and for each name the zones in order. */
  function Expansion(names: seq<string>, zones: seq<string>): seq<string> {
    if names == [] then []
    else Expansion(names[..|names| - 1], zones) + Suffixed(names[|names| - 1], zones)
  }

  lemma MulStep(n: nat, z: nat)
    ensures (n + 1) * z == n * z + z
  {
  }

  lemma MulBefore(i: nat, j: nat, n: nat, z: nat)
    requires i < n && j < z
    ensures i * z + j < n * z
  {
    assert i * z + z <= n * z by {
      MulStep(i, z);
      assert (i + 1) * z <= n * z;
    }
  }

  /** The expansion has `|names| * |zones|` entries. */
  lemma {:induction false} ExpansionLength(names: seq<string>, zones: seq<string>)
    ensures |Expansion(names, zones)| == |names| * |zones|
  {
    if names != [] {
      var n := |names| - 1;
      ExpansionLength(names[..n], zones);
      MulStep(n, |zones|);
    }
  }

  /** Entry `i * |zones| + j` of the expansion is name `i` with zone `j`. */
  lemma {:induction false} ExpansionAt(names: seq<string>, zones: seq<string>, i: nat, j: nat)
    requires i < |names| && j < |zones|
    ensures i * |zones| + j < |Expansion(names, zones)|
    ensures Expansion(names, zones)[i * |zones| + j] == Attach(names[i], zones[j])
  {
    var n, z := |names| - 1, |zones|;
    var init := names[..n];
    ExpansionLength(init, zones);
    ExpansionLength(names, zones);
    assert Expansion(names, zones) == Expansion(init, zones) + Suffixed(names[n], zones);
    if i < n {
      MulBefore(i, j, n, z);
      ExpansionAt(init, zones, i, j);
      assert init[i] == names[i];
    }
  }

  /** Every position below `m * z` is `i * z + j` for a name index `i` and a zone index `j`. */
  lemma SplitIndex(k: nat, m: nat, z: nat) returns (i: nat, j: nat)
    requires k < m * z
    ensures i < m && j < z && k == i * z + j
  {
    i, j := k / z, k % z;
    if i >= m {
      MulBefore(m, 0, i + 1, z);
      assert false;
    }
  }

  lemma ExpansionEntries(names: seq<string>, zones: seq<string>, c: string)
    requires c in Expansion(names, zones)
    ensures exists i, j :: 0 <= i < |names| && 0 <= j < |zones| && c == Attach(names[i], zones[j])
  {
    var e := Expansion(names, zones);
    ExpansionLength(names, zones);
    var k :| 0 <= k < |e| && e[k] == c;
    var i, j := SplitIndex(k, |names|, |zones|);
    ExpansionAt(names, zones, i, j);
    assert c == Attach(names[i], zones[j]);
  }

  /** Each name with each zone is in the expansion. */
  lemma ExpansionHas(names: seq<string>, zones: seq<string>, i: nat, j: nat)
    requires i < |names| && j < |zones|
    ensures Attach(names[i], zones[j]) in Expansion(names, zones)
  {
    ExpansionAt(names, zones, i, j);
  }

  /** Something is in the expansion exactly when it is some name with some zone attached. */
  lemma ExpansionMembers(names: seq<string>, zones: seq<string>, c: string)
    ensures c in Expansion(names, zones) <==>
      exists i, j :: 0 <= i < |names| && 0 <= j < |zones| && c == Attach(names[i], zones[j])
  {
    if c in Expansion(names, zones) {
      ExpansionEntries(names, zones, c);
    }
    forall i, j | 0 <= i < |names| && 0 <= j < |zones| && c == Attach(names[i], zones[j])
      ensures c in Expansion(names, zones)
    {
      ExpansionAt(names, zones, i, j);
    }
  }

  /** The zone loop of the corrected expansion, appending one domain at a time. */
  method ExpandZones(names: seq<string>, zones: seq<string>) returns (out: seq<string>)
    ensures out == Expansion(names, zones)
  {
    out := [];
    for i := 0 to |names|
      invariant out == Expansion(names[..i], zones)
    {
      var name := names[i];
      for k := 0 to |zones|
        invariant out == Expansion(names[..i], zones) + Suffixed(name, zones)[..k]
      {
        out := out + [Attach(name, zones[k])];
        assert Suffixed(name, zones)[..k + 1] == Suffixed(name, zones)[..k] + [Attach(name, zones[k])];
      }
      assert names[..i + 1][..i] == names[..i];
      assert Suffixed(name, zones)[..|zones|] == Suffixed(name, zones);
    }
    assert names[..|names|] == names;
  }

  /**
   * The zone loop as the engine writes it: the loop variable `zone` rebinds
   * the comma-separated argument itself, so only the first name is split on
   * the full argument; every later name is split on the last piece, which
   * has no comma, and so gets only the last zone.
   */
  function ExpandAsWritten(names: seq<string>, zoneArg: string): seq<string> {
    var pieces := SplitOn(zoneArg, ',');
    if names == [] then []
    else Suffixed(names[0], pieces) + Expansion(names[1..], [pieces[|pieces| - 1]])
  }

  /** A piece without a comma splits to itself. */
  lemma SplitPieceIsItself(piece: string)
    requires ',' !in piece
    ensures SplitOn(piece, ',') == [piece]
  {
    SplitJoinOn([piece], ',');
  }

  /** From one name to the next, the loop as written adds the first name with every zone, a later one with the last zone. */
  lemma AsWrittenGrows(names: seq<string>, zoneArg: string, i: nat)
    requires i < |names|
    ensures var pieces := SplitOn(zoneArg, ',');
      ExpandAsWritten(names[..i + 1], zoneArg) ==
      ExpandAsWritten(names[..i], zoneArg) + Suffixed(names[i], if i == 0 then pieces else [pieces[|pieces| - 1]])
  {
    if i == 0 {
      AsWrittenFirst(names, zoneArg);
    } else {
      AsWrittenLater(names, zoneArg, i);
    }
  }

  lemma AsWrittenFirst(names: seq<string>, zoneArg: string)
    requires 0 < |names|
    ensures ExpandAsWritten(names[..1], zoneArg) == Suffixed(names[0], SplitOn(zoneArg, ','))
  {
    assert names[..1] == [names[0]] && names[..1][1..] == [];
  }

  lemma AsWrittenLater(names: seq<string>, zoneArg: string, i: nat)
    requires 0 < i < |names|
    ensures var pieces := SplitOn(zoneArg, ',');
      ExpandAsWritten(names[..i + 1], zoneArg) ==
      ExpandAsWritten(names[..i], zoneArg) + Suffixed(names[i], [pieces[|pieces| - 1]])
  {
    var pieces := SplitOn(zoneArg, ',');
    var first, last := Suffixed(names[0], pieces), [pieces[|pieces| - 1]];
    var prefix, before := names[..i + 1], names[..i];
    assert ExpandAsWritten(prefix, zoneArg) == first + Expansion(prefix[1..], last) by {
      assert prefix[0] == names[0];
    }
    assert ExpandAsWritten(before, zoneArg) == first + Expansion(before[1..], last) by {
      assert before[0] == names[0];
    }
    LaterNameGrows(names, i, first, last);
  }

  /** Past the first name, each further name adds itself with the zones `last`. */
  lemma LaterNameGrows(names: seq<string>, i: nat, first: seq<string>, last: seq<string>)
    requires 0 < i < |names|
    ensures first + Expansion(names[..i + 1][1..], last) == (first + Expansion(names[..i][1..], last)) + Suffixed(names[i], last)
  {
    var later, earlier := names[..i + 1][1..], names[..i][1..];
    assert later[..|later| - 1] == earlier && later[|later| - 1] == names[i];
    ExpansionSnoc(later, last);
    SharedHead(first, Expansion(earlier, last), Suffixed(names[i], last),
      first + Expansion(later, last), first + Expansion(earlier, last));
  }

  /** The expansion of a non-empty list of names is that of all but the last, then the last with each zone. */
  lemma ExpansionSnoc(names: seq<string>, zones: seq<string>)
    requires names != []
    ensures Expansion(names, zones) == Expansion(names[..|names| - 1], zones) + Suffixed(names[|names| - 1], zones)
  {
  }

  /** Appending to what follows a common head appends to the whole. */
  lemma SharedHead(head: seq<string>, rest: seq<string>, tail: seq<string>, longer: seq<string>, shorter: seq<string>)
    requires longer == head + (rest + tail) && shorter == head + rest
    ensures longer == shorter + tail
  {
  }

  /** After the first inner loop `zone` holds the last piece, which splits to itself. */
  lemma LastPieceSplitsToItself(zoneArg: string)
    ensures var pieces := SplitOn(zoneArg, ',');
      SplitOn(pieces[|pieces| - 1], ',') == [pieces[|pieces| - 1]]
  {
    var pieces := SplitOn(zoneArg, ',');
    SplitOnPiecesHaveNoSep(zoneArg, ',');
    SplitPieceIsItself(pieces[|pieces| - 1]);
  }

  /** The inner loop `for zone in zone.split(','):` for one name; `zone` is left bound to the last piece. */
  method AttachEach(name: string, zone: string) returns (added: seq<string>, zoneAfter: string)
    ensures var split := SplitOn(zone, ',');
      added == Suffixed(name, split) && zoneAfter == split[|split| - 1]
  {
    var split := SplitOn(zone, ',');
    added := [];
    zoneAfter := zone;
    for k := 0 to |split|
      invariant added == Suffixed(name, split)[..k]
      invariant k > 0 ==> zoneAfter == split[k - 1]
    {
      zoneAfter := split[k];
      added := added + [Attach(name, zoneAfter)];
      assert Suffixed(name, split)[..k + 1] == Suffixed(name, split)[..k] + [Attach(name, zoneAfter)];
    }
    assert Suffixed(name, split)[..|split|] == Suffixed(name, split);
  }

  /** One pass of the outer loop as written, from the `zone` it starts with. */
  lemma AsWrittenStep(names: seq<string>, zoneArg: string, i: nat, zone: string)
    requires i < |names|
    requires var pieces := SplitOn(zoneArg, ','); zone == if i == 0 then zoneArg else pieces[|pieces| - 1]
    ensures var pieces, split := SplitOn(zoneArg, ','), SplitOn(zone, ',');
      ExpandAsWritten(names[..i + 1], zoneArg) == ExpandAsWritten(names[..i], zoneArg) + Suffixed(names[i], split) &&
      split[|split| - 1] == pieces[|pieces| - 1]
  {
    LastPieceSplitsToItself(zoneArg);
    AsWrittenGrows(names, zoneArg, i);
  }

  /** The shadowing loop as written: each name's inner loop rebinds `zone` for the next name. */
  method ExpandZonesAsWritten(names: seq<string>, zoneArg: string) returns (out: seq<string>)
    ensures out == ExpandAsWritten(names, zoneArg)
  {
    ghost var pieces := SplitOn(zoneArg, ',');
    ghost var last := pieces[|pieces| - 1];
    var zone := zoneArg;
    out := [];
    for i := 0 to |names|
      invariant zone == if i == 0 then zoneArg else last
      invariant out == ExpandAsWritten(names[..i], zoneArg)
    {
      AsWrittenStep(names, zoneArg, i, zone);
      var added;
      added, zone := AttachEach(names[i], zone);
      out := out + added;
    }
    assert names[..|names|] == names;
  }

  lemma FewerThanProduct(m: nat, z: nat)
    requires m >= 2 && z >= 2
    ensures z + m - 1 < m * z
  {
    MulStep(m - 1, z);
    assert (m - 1) * z >= (m - 1) * 2;
  }

  /**
   * With two or more names and two or more zones, the loop as written yields
   * `|zones| + |names| - 1` domains rather than `|names| * |zones|`.
   */
  lemma AsWrittenDropsZones(names: seq<string>, zoneArg: string)
    requires |names| >= 2 && |SplitOn(zoneArg, ',')| >= 2
    ensures |ExpandAsWritten(names, zoneArg)| == |SplitOn(zoneArg, ',')| + |names| - 1
    ensures |ExpandAsWritten(names, zoneArg)| < |names| * |SplitOn(zoneArg, ',')|
    ensures |ExpandAsWritten(names, zoneArg)| < |Expansion(names, SplitOn(zoneArg, ','))|
  {
    var pieces := SplitOn(zoneArg, ',');
    var last := [pieces[|pieces| - 1]];
    var later := Expansion(names[1..], last);
    assert ExpandAsWritten(names, zoneArg) == Suffixed(names[0], pieces) + later;
    ExpansionLength(names[1..], last);
    assert |later| == |names| - 1 by {
      assert |names[1..]| * |last| == |names[1..]| * 1;
    }
    ExpansionLength(names, pieces);
    FewerThanProduct(|names|, |pieces|);
  }

  lemma ComNetPieces()
    ensures SplitOn("com,net", ',') == ["com", "net"]
  {
    SplitJoinOn(["com", "net"], ',');
    assert JoinOn(["com", "net"], ',') == "com,net";
  }

  /** The names `a` and `b` with zones `com,net`: as written, `b.com` is never produced. */
  lemma AsWrittenExample()
    ensures ExpandAsWritten(["a", "b"], "com,net") == [Attach("a", "com"), Attach("a", "net"), Attach("b", "net")]
  {
    ComNetPieces();
    var first := Suffixed("a", ["com", "net"]);
    var later := Expansion(["b"], ["net"]);
    assert ExpandAsWritten(["a", "b"], "com,net") == first + later by {
      assert ["a", "b"][1..] == ["b"];
    }
    assert later == [Attach("b", "net")] by {
      assert ["b"][..0] == [];
    }
  }

  /** The same names and zones, expanded as intended: every name with every zone. */
  lemma ExpansionExample()
    ensures Expansion(["a", "b"], ["com", "net"]) ==
      [Attach("a", "com"), Attach("a", "net"), Attach("b", "com"), Attach("b", "net")]
  {
    assert ["a", "b"][..1] == ["a"] && ["a"][..0] == [];
  }
}
