/**
  `coalesce_commits`: a forward scan over the single-file records (oldest
  first) that gathers, behind each anchor record, the later records within the
  time fuzz that share its author and log message, agree with the group's
  symbols and touch a file the group does not touch yet. Records are named by
  their index in the input list.
 */
module Coalesce {
  import opened Commits

  /** One coalesced commit: the anchor's date, author and log, its members' indices and their symbols. */
  datatype Group = Group(dateTs: int, author: string, log: string, members: seq<nat>, symbols: set<string>)

  /** Indices into `recs`. */
  predicate Indices(recs: seq<FileCommit>, ms: seq<nat>) {
    forall k :: 0 <= k < |ms| ==> ms[k] < |recs|
  }

  predicate Increasing(ms: seq<nat>) {
    forall a, b :: 0 <= a < b < |ms| ==> ms[a] < ms[b]
  }

  /** The symbols of the records `ms`, together. */
  function SymbolsOf(recs: seq<FileCommit>, ms: seq<nat>): (syms: set<string>)
    requires Indices(recs, ms)
    ensures forall k :: 0 <= k < |ms| ==> recs[ms[k]].symbols <= syms
    decreases |ms|
  {
    if |ms| == 0 then {} else SymbolsOf(recs, ms[..|ms| - 1]) + recs[ms[|ms| - 1]].symbols
  }

  /** A symbol belongs to the records `ms` together exactly when one of them carries it. */
  lemma {:induction false} SymbolsOfExactly(recs: seq<FileCommit>, ms: seq<nat>, s: string)
    requires Indices(recs, ms)
    ensures s in SymbolsOf(recs, ms) <==> exists k :: 0 <= k < |ms| && s in recs[ms[k]].symbols
    decreases |ms|
  {
    if |ms| > 0 {
      var front := ms[..|ms| - 1];
      SymbolsOfExactly(recs, front, s);
      if s in SymbolsOf(recs, front) {
        var k :| 0 <= k < |front| && s in recs[front[k]].symbols;
        assert front[k] == ms[k];
      } else if exists k :: 0 <= k < |ms| && s in recs[ms[k]].symbols {
        var k :| 0 <= k < |ms| && s in recs[ms[k]].symbols;
        if k < |ms| - 1 {
          assert front[k] == ms[k];
        }
      }
    }
  }

  /** The file names of the records `ms`. */
  function FilenamesOf(recs: seq<FileCommit>, ms: seq<nat>): (names: set<string>)
    requires Indices(recs, ms)
    ensures forall n :: n in names <==> exists k :: 0 <= k < |ms| && recs[ms[k]].filename == n
    decreases |ms|
  {
    if |ms| == 0 then {}
    else
      var front := FilenamesOf(recs, ms[..|ms| - 1]);
      assert forall k :: 0 <= k < |ms| - 1 ==> ms[..|ms| - 1][k] == ms[k];
      front + {recs[ms[|ms| - 1]].filename}
  }

  /** The members of an increasing list that come before index `j`. */
  function Below(ms: seq<nat>, j: nat): (r: seq<nat>)
    ensures |r| <= |ms| && r == ms[..|r|]
    decreases |ms|
  {
    if |ms| == 0 || ms[|ms| - 1] < j then ms else Below(ms[..|ms| - 1], j)
  }

  /** Two symbol sets one of which holds the other. */
  predicate Comparable(a: set<string>, b: set<string>) {
    a <= b || b <= a
  }

  /**
    Whether record `j` joins the group anchored at `i` whose members so far are
    `ms`: same author and log as the anchor, symbols comparable with the
    group's (when `check` is on), and a file the group does not touch yet.
   */
  predicate Accepts(recs: seq<FileCommit>, i: nat, check: bool, ms: seq<nat>, j: nat)
    requires i < |recs| && j < |recs| && Indices(recs, ms)
  {
    && recs[j].author == recs[i].author
    && recs[j].log == recs[i].log
    && (check ==> Comparable(SymbolsOf(recs, ms), recs[j].symbols))
    && recs[j].filename !in FilenamesOf(recs, ms)
  }

  /** Within the time window of anchor `i`: at most `fuzz` seconds after it. */
  predicate InWindow(recs: seq<FileCommit>, fuzz: int, i: nat, j: nat)
    requires i < |recs| && j < |recs|
  {
    recs[j].dateTs <= recs[i].dateTs + fuzz
  }

  /** Where the scan behind anchor `i` stops: the end of the list or the first record too late, from `j` on. */
  function WindowEnd(recs: seq<FileCommit>, fuzz: int, i: nat, j: nat): (e: nat)
    requires i < j <= |recs|
    ensures j <= e <= |recs|
    ensures forall k :: j <= k < e ==> InWindow(recs, fuzz, i, k)
    ensures e < |recs| ==> !InWindow(recs, fuzz, i, e)
    decreases |recs| - j
  {
    if j == |recs| || !InWindow(recs, fuzz, i, j) then j else WindowEnd(recs, fuzz, i, j + 1)
  }

  /**
    What the scan has established after looking at the records before `j`: the
    members are `i` and then exactly the records before `j` that were accepted
    given the members before them.
   */
  predicate ScanInv(recs: seq<FileCommit>, i: nat, check: bool, j: nat, ms: seq<nat>) {
    && i < j <= |recs|
    && |ms| > 0 && ms[0] == i
    && Increasing(ms)
    && (forall k :: 0 <= k < |ms| ==> ms[k] < j)
    && (forall x :: i < x < j ==> (x in ms <==> Accepts(recs, i, check, Below(ms, x), x)))
  }

  lemma BelowAppend(ms: seq<nat>, j: nat, x: nat)
    requires forall k :: 0 <= k < |ms| ==> ms[k] < j
    requires x <= j
    ensures Below(ms + [j], x) == Below(ms, x)
    ensures Below(ms + [j], j + 1) == ms + [j]
  {
    assert (ms + [j])[..|ms|] == ms;
  }

  lemma BelowAll(ms: seq<nat>, j: nat)
    requires forall k :: 0 <= k < |ms| ==> ms[k] < j
    ensures Below(ms, j) == ms
  {
  }

  /** One more record looked at keeps `ScanInv`. */
  lemma ScanStep(recs: seq<FileCommit>, i: nat, check: bool, j: nat, ms: seq<nat>)
    requires ScanInv(recs, i, check, j, ms) && j < |recs|
    ensures Indices(recs, ms)
    ensures Accepts(recs, i, check, ms, j) ==> ScanInv(recs, i, check, j + 1, ms + [j])
    ensures !Accepts(recs, i, check, ms, j) ==> ScanInv(recs, i, check, j + 1, ms)
  {
    BelowAll(ms, j);
    if Accepts(recs, i, check, ms, j) {
      var ms' := ms + [j];
      forall x | i < x < j + 1 ensures x in ms' <==> Accepts(recs, i, check, Below(ms', x), x) {
        BelowAppend(ms, j, x);
      }
    } else {
      forall x | i < x < j + 1 ensures x in ms <==> Accepts(recs, i, check, Below(ms, x), x) {
        if x == j {
          assert j !in ms;
        }
      }
    }
  }

  /**
    The inner loop: looks at the records from `j` on while they are within
    the window, appending the accepted ones to `ms` and their symbols to `syms`.
   */
  function Scan(recs: seq<FileCommit>, fuzz: int, check: bool, i: nat, j: nat, ms: seq<nat>, syms: set<string>)
    : (r: (seq<nat>, set<string>))
    requires ScanInv(recs, i, check, j, ms) && Indices(recs, ms) && syms == SymbolsOf(recs, ms)
    ensures ScanInv(recs, i, check, WindowEnd(recs, fuzz, i, j), r.0)
    ensures Indices(recs, r.0) && r.1 == SymbolsOf(recs, r.0)
    decreases |recs| - j
  {
    if j == |recs| || !InWindow(recs, fuzz, i, j) then (ms, syms)
    else
      ScanStep(recs, i, check, j, ms);
      if Accepts(recs, i, check, ms, j) then
        assert (ms + [j])[..|ms|] == ms;
        Scan(recs, fuzz, check, i, j + 1, ms + [j], syms + recs[j].symbols)
      else Scan(recs, fuzz, check, i, j + 1, ms, syms)
  }

  /**
    The group anchored at record `i`: its members are `i` and then, in order,
    records after it; its date, author and log are the anchor's; its symbols
    are its members'.
   */
  function GroupAt(recs: seq<FileCommit>, fuzz: int, check: bool, i: nat): (g: Group)
    requires i < |recs|
    ensures g.dateTs == recs[i].dateTs && g.author == recs[i].author && g.log == recs[i].log
    ensures |g.members| > 0 && g.members[0] == i && Increasing(g.members)
    ensures Indices(recs, g.members) && g.symbols == SymbolsOf(recs, g.members)
  {
    AnchorSymbols(recs, i);
    var r := Scan(recs, fuzz, check, i, i + 1, [i], recs[i].symbols);
    Group(recs[i].dateTs, recs[i].author, recs[i].log, r.0, r.1)
  }

  lemma AnchorSymbols(recs: seq<FileCommit>, i: nat)
    requires i < |recs|
    ensures ScanInv(recs, i, false, i + 1, [i]) && ScanInv(recs, i, true, i + 1, [i])
    ensures Indices(recs, [i]) && SymbolsOf(recs, [i]) == recs[i].symbols
  {
    assert [i][..0] == [];
  }

  /**
    Which records the group at `i` takes: the records within the window after
    `i` that the scan accepts given the members before them, and no others.
   */
  lemma GroupAccepts(recs: seq<FileCommit>, fuzz: int, check: bool, i: nat)
    requires i < |recs|
    ensures var ms := GroupAt(recs, fuzz, check, i).members;
      && (forall k :: 0 <= k < |ms| ==> ms[k] < WindowEnd(recs, fuzz, i, i + 1))
      && (forall x :: i < x < WindowEnd(recs, fuzz, i, i + 1) ==> (x in ms <==> Accepts(recs, i, check, Below(ms, x), x)))
  {
    AnchorSymbols(recs, i);
    var r := Scan(recs, fuzz, check, i, i + 1, [i], recs[i].symbols);
    assert GroupAt(recs, fuzz, check, i).members == r.0;
  }

  /** Members accepted behind the anchor came before the members after them. */
  lemma BelowMember(ms: seq<nat>, k: nat)
    requires Increasing(ms) && k < |ms|
    ensures Below(ms, ms[k]) == ms[..k]
    decreases |ms|
  {
    if k < |ms| - 1 {
      assert ms[..|ms| - 1][k] == ms[k];
      BelowMember(ms[..|ms| - 1], k);
      assert ms[..|ms| - 1][..k] == ms[..k];
    }
  }

  /**
    What every member of a group has in common with the anchor and the rest:
    the anchor's author and log, a date within the window, a file no earlier
    member touches, and (with the symbol check) symbols comparable with the
    symbols gathered before it joined.
   */
  lemma GroupMembers(recs: seq<FileCommit>, fuzz: int, check: bool, i: nat)
    requires i < |recs|
    ensures var g := GroupAt(recs, fuzz, check, i);
      forall k :: 1 <= k < |g.members| ==>
        && recs[g.members[k]].author == g.author
        && recs[g.members[k]].log == g.log
        && recs[g.members[k]].dateTs <= g.dateTs + fuzz
        && (forall a :: 0 <= a < k ==> recs[g.members[a]].filename != recs[g.members[k]].filename)
        && (check ==> Comparable(SymbolsOf(recs, g.members[..k]), recs[g.members[k]].symbols))
  {
    var g := GroupAt(recs, fuzz, check, i);
    var ms := g.members;
    var e := WindowEnd(recs, fuzz, i, i + 1);
    GroupAccepts(recs, fuzz, check, i);
    forall k | 1 <= k < |ms|
      ensures recs[ms[k]].author == g.author && recs[ms[k]].log == g.log
      ensures recs[ms[k]].dateTs <= g.dateTs + fuzz
      ensures forall a :: 0 <= a < k ==> recs[ms[a]].filename != recs[ms[k]].filename
      ensures check ==> Comparable(SymbolsOf(recs, ms[..k]), recs[ms[k]].symbols)
    {
      var x := ms[k];
      assert i < x < e;
      assert InWindow(recs, fuzz, i, x);
      assert x in ms;
      BelowMember(ms, k);
      assert Accepts(recs, i, check, ms[..k], x);
      var names := FilenamesOf(recs, ms[..k]);
      assert recs[x].filename !in names;
      forall a | 0 <= a < k ensures recs[ms[a]].filename != recs[x].filename {
        assert ms[..k][a] == ms[a];
        assert recs[ms[..k][a]].filename in names;
      }
    }
  }

  // ---------------------------------------------------------------------------
  // The outer loop
  // ---------------------------------------------------------------------------

  function Last(ms: seq<nat>): nat
    requires |ms| > 0
  {
    ms[|ms| - 1]
  }

  /** The groups anchored at `i` and after: each next anchor is one past the highest member of the group before. */
  function CoalesceFrom(recs: seq<FileCommit>, fuzz: int, check: bool, i: nat): (gs: seq<Group>)
    ensures forall g :: 0 <= g < |gs| ==> |gs[g].members| > 0 && i <= gs[g].members[0] < |recs|
    decreases |recs| - i
  {
    if i >= |recs| then []
    else
      var g := GroupAt(recs, fuzz, check, i);
      [g] + CoalesceFrom(recs, fuzz, check, Last(g.members) + 1)
  }

  /** `coalesce_commits(single_commits, commit_fuzz, symbol_check, ...)`. */
  function Coalesced(recs: seq<FileCommit>, fuzz: int, check: bool): seq<Group> {
    CoalesceFrom(recs, fuzz, check, 0)
  }

  /** The first group, then the groups from one past its highest member. */
  lemma CoalesceCons(recs: seq<FileCommit>, fuzz: int, check: bool, i: nat)
    requires i < |recs|
    ensures CoalesceFrom(recs, fuzz, check, i)
      == [GroupAt(recs, fuzz, check, i)] + CoalesceFrom(recs, fuzz, check, Last(GroupAt(recs, fuzz, check, i).members) + 1)
  {
  }

  /** Every group is the group anchored at its first member. */
  lemma {:induction false} CoalesceGroups(recs: seq<FileCommit>, fuzz: int, check: bool, i: nat)
    ensures var gs := CoalesceFrom(recs, fuzz, check, i);
      forall g :: 0 <= g < |gs| ==> gs[g] == GroupAt(recs, fuzz, check, gs[g].members[0])
    decreases |recs| - i
  {
    if i < |recs| {
      var g := GroupAt(recs, fuzz, check, i);
      var next := Last(g.members) + 1;
      CoalesceCons(recs, fuzz, check, i);
      CoalesceGroups(recs, fuzz, check, next);
    }
  }

  /** The members of the group at `i` lie between `i` and its highest member. */
  lemma GroupSpan(recs: seq<FileCommit>, fuzz: int, check: bool, i: nat)
    requires i < |recs|
    ensures var ms := GroupAt(recs, fuzz, check, i).members;
      forall k :: 0 <= k < |ms| ==> i <= ms[k] <= Last(ms) < |recs|
  {
    var ms := GroupAt(recs, fuzz, check, i).members;
    forall k | 0 <= k < |ms| ensures i <= ms[k] <= Last(ms) {
      if k > 0 {
        assert ms[0] < ms[k];
      }
      if k < |ms| - 1 {
        assert ms[k] < ms[|ms| - 1];
      }
    }
  }

  /**
    The groups tile the records from `i` on: the first is anchored at `i`, each
    next one just past the highest member of the one before, and the last one
    reaches the end of the list.
   */
  lemma {:induction false} CoalesceTiles(recs: seq<FileCommit>, fuzz: int, check: bool, i: nat)
    ensures var gs := CoalesceFrom(recs, fuzz, check, i);
      && (i < |recs| <==> |gs| > 0)
      && (|gs| > 0 ==> gs[0].members[0] == i && Last(gs[|gs| - 1].members) + 1 == |recs|)
      && (forall g :: 0 <= g < |gs| - 1 ==> gs[g + 1].members[0] == Last(gs[g].members) + 1)
    decreases |recs| - i
  {
    if i < |recs| {
      var g := GroupAt(recs, fuzz, check, i);
      CoalesceCons(recs, fuzz, check, i);
      GroupSpan(recs, fuzz, check, i);
      CoalesceTiles(recs, fuzz, check, Last(g.members) + 1);
    }
  }

  /** Each group's members lie between its anchor and its highest member. */
  predicate Spans(gs: seq<Group>) {
    forall g :: 0 <= g < |gs| ==> (|gs[g].members| > 0
      && forall b :: 0 <= b < |gs[g].members| ==> gs[g].members[0] <= gs[g].members[b] <= Last(gs[g].members))
  }

  /** Each group's highest member comes before the next group's anchor. */
  ghost predicate Chained(gs: seq<Group>) {
    forall g, h :: 0 <= g < |gs| && h == g + 1 && h < |gs| ==>
      (|gs[g].members| > 0 && |gs[h].members| > 0 && Last(gs[g].members) < gs[h].members[0])
  }

  /** Groups that span and chain are disjoint and in order. */
  lemma {:induction false} ChainedOrdered(gs: seq<Group>)
    requires Spans(gs) && Chained(gs)
    ensures forall g1, g2, a, b :: 0 <= g1 < g2 < |gs| && 0 <= a < |gs[g1].members| && 0 <= b < |gs[g2].members| ==>
      gs[g1].members[a] < gs[g2].members[b]
    decreases |gs|
  {
    if |gs| > 1 {
      var front := gs[..|gs| - 1];
      assert Spans(front) && Chained(front) by {
        forall g | 0 <= g < |front| ensures front[g] == gs[g] { }
      }
      ChainedOrdered(front);
      var top := |gs| - 1;
      forall g1, g2, a, b | 0 <= g1 < g2 < |gs| && 0 <= a < |gs[g1].members| && 0 <= b < |gs[g2].members|
        ensures gs[g1].members[a] < gs[g2].members[b]
      {
        if g2 < top {
          assert front[g1] == gs[g1] && front[g2] == gs[g2];
        } else {
          var prev := gs[top - 1];
          assert Last(prev.members) < gs[top].members[0] <= gs[top].members[b];
          if g1 < top - 1 {
            assert front[g1] == gs[g1] && front[top - 1] == prev;
            assert gs[g1].members[a] < prev.members[|prev.members| - 1];
          }
        }
      }
    }
  }

  /** The groups from `i` on span their members, which are records at or after `i`. */
  lemma CoalesceWithin(recs: seq<FileCommit>, fuzz: int, check: bool, i: nat)
    ensures var gs := CoalesceFrom(recs, fuzz, check, i);
      && Spans(gs)
      && forall g :: 0 <= g < |gs| ==> (Increasing(gs[g].members)
        && forall b :: 0 <= b < |gs[g].members| ==> i <= gs[g].members[b] < |recs|)
  {
    var gs := CoalesceFrom(recs, fuzz, check, i);
    CoalesceGroups(recs, fuzz, check, i);
    forall g | 0 <= g < |gs|
      ensures Increasing(gs[g].members)
      ensures forall b :: 0 <= b < |gs[g].members| ==> i <= gs[g].members[b] < |recs|
      ensures forall b :: 0 <= b < |gs[g].members| ==> gs[g].members[0] <= gs[g].members[b] <= Last(gs[g].members)
    {
      var h := gs[g].members[0];
      assert i <= h < |recs|;
      assert gs[g] == GroupAt(recs, fuzz, check, h);
      GroupSpan(recs, fuzz, check, h);
    }
  }

  /**
    Groups are disjoint and in order: every member of an earlier group comes
    before every member of a later one.
   */
  lemma CoalesceOrdered(recs: seq<FileCommit>, fuzz: int, check: bool, i: nat)
    ensures var gs := CoalesceFrom(recs, fuzz, check, i);
      forall g1, g2, a, b :: 0 <= g1 < g2 < |gs| && 0 <= a < |gs[g1].members| && 0 <= b < |gs[g2].members| ==>
        gs[g1].members[a] < gs[g2].members[b]
  {
    CoalesceWithin(recs, fuzz, check, i);
    CoalesceTiles(recs, fuzz, check, i);
    ChainedOrdered(CoalesceFrom(recs, fuzz, check, i));
  }

  /** An increasing list of indices between `lo` and `hi` has at most `hi - lo` entries. */
  lemma {:induction false} IncreasingLength(ms: seq<nat>, lo: nat, hi: nat)
    requires lo <= hi && Increasing(ms) && forall k :: 0 <= k < |ms| ==> lo <= ms[k] < hi
    ensures |ms| <= hi - lo
    decreases |ms|
  {
    if |ms| > 0 {
      var front := ms[..|ms| - 1];
      forall k | 0 <= k < |front| ensures lo <= front[k] < ms[|ms| - 1] {
        assert front[k] == ms[k];
      }
      assert Increasing(front) by {
        forall a, b | 0 <= a < b < |front| ensures front[a] < front[b] {
          assert front[a] == ms[a] && front[b] == ms[b];
        }
      }
      IncreasingLength(front, lo, ms[|ms| - 1]);
      assert ms[|ms| - 1] < hi;
    }
  }

  /** How many records the groups hold together. */
  function MemberCount(gs: seq<Group>): nat
    decreases |gs|
  {
    if |gs| == 0 then 0 else |gs[0].members| + MemberCount(gs[1..])
  }

  /** The group at `i` holds no more records than its span. */
  lemma GroupSize(recs: seq<FileCommit>, fuzz: int, check: bool, i: nat)
    requires i < |recs|
    ensures var ms := GroupAt(recs, fuzz, check, i).members;
      0 < |ms| <= Last(ms) + 1 - i && Last(ms) < |recs|
  {
    var ms := GroupAt(recs, fuzz, check, i).members;
    GroupSpan(recs, fuzz, check, i);
    IncreasingLength(ms, i, Last(ms) + 1);
  }

  lemma MemberCountCons(g: Group, rest: seq<Group>)
    ensures MemberCount([g] + rest) == |g.members| + MemberCount(rest)
  {
    assert ([g] + rest)[1..] == rest;
  }

  /** There are no more groups, and no more memberships, than records. */
  lemma {:induction false} CoalesceCounts(recs: seq<FileCommit>, fuzz: int, check: bool, i: nat)
    requires i <= |recs|
    ensures var gs := CoalesceFrom(recs, fuzz, check, i);
      |gs| <= MemberCount(gs) <= |recs| - i
    decreases |recs| - i
  {
    if i < |recs| {
      var g := GroupAt(recs, fuzz, check, i);
      var next := Last(g.members) + 1;
      GroupSize(recs, fuzz, check, i);
      var rest := CoalesceFrom(recs, fuzz, check, next);
      assert CoalesceFrom(recs, fuzz, check, i) == [g] + rest by {
        CoalesceCons(recs, fuzz, check, i);
      }
      CoalesceCounts(recs, fuzz, check, next);
      MemberCountCons(g, rest);
    }
  }

  /** Of two groups, the earlier one is anchored at an earlier record. */
  lemma AnchorsOrdered(recs: seq<FileCommit>, fuzz: int, check: bool, g1: nat, g2: nat)
    requires g1 < g2 < |CoalesceFrom(recs, fuzz, check, 0)|
    ensures var gs := CoalesceFrom(recs, fuzz, check, 0);
      gs[g1].members[0] < gs[g2].members[0] < |recs|
  {
    CoalesceOrdered(recs, fuzz, check, 0);
  }

  /** A group is the group at its anchor, so it carries the anchor's date. */
  lemma AnchorDate(recs: seq<FileCommit>, fuzz: int, check: bool, g: nat)
    requires g < |CoalesceFrom(recs, fuzz, check, 0)|
    ensures var gs := CoalesceFrom(recs, fuzz, check, 0);
      gs[g].members[0] < |recs| && gs[g].dateTs == recs[gs[g].members[0]].dateTs
  {
    CoalesceGroups(recs, fuzz, check, 0);
  }

  /** On records sorted by date, the groups come out in non-decreasing date order. */
  lemma CoalesceDates(recs: seq<FileCommit>, fuzz: int, check: bool)
    requires SortedByDate(recs)
    ensures var gs := Coalesced(recs, fuzz, check);
      forall g1, g2 :: 0 <= g1 < g2 < |gs| ==> gs[g1].dateTs <= gs[g2].dateTs
  {
    var gs := CoalesceFrom(recs, fuzz, check, 0);
    forall g1, g2 | 0 <= g1 < g2 < |gs| ensures gs[g1].dateTs <= gs[g2].dateTs {
      AnchorsOrdered(recs, fuzz, check, g1, g2);
      AnchorDate(recs, fuzz, check, g1);
      AnchorDate(recs, fuzz, check, g2);
    }
  }

  // ---------------------------------------------------------------------------
  // Records in no group
  // ---------------------------------------------------------------------------

  /**
    A record that is passed over behind an anchor, while a later record joins
    the group, is never an anchor itself: the next anchor is past it. Three
    records at the same time, of files `a`, `b` and `c`, the middle one by
    another author: the group is the first and the third, and the second is in
    no group at all.
   */
  lemma LostRecord(a: FileCommit)
    ensures var recs := [a.(filename := "a"), a.(filename := "b", author := a.author + "x"), a.(filename := "c")];
      var gs := Coalesced(recs, 0, true);
      |gs| == 1 && gs[0].members == [0, 2]
  {
    var recs := [a.(filename := "a"), a.(filename := "b", author := a.author + "x"), a.(filename := "c")];
    var s0 := [0];
    assert SymbolsOf(recs, s0) == a.symbols by {
      assert s0[..0] == [];
    }
    assert FilenamesOf(recs, s0) == {"a"};
    assert !Accepts(recs, 0, true, s0, 1) by {
      assert |a.author + "x"| != |a.author|;
    }
    assert Accepts(recs, 0, true, s0, 2);
    assert InWindow(recs, 0, 0, 1) && InWindow(recs, 0, 0, 2);
    AnchorSymbols(recs, 0);
    ScanStep(recs, 0, true, 1, s0);
    ScanStep(recs, 0, true, 2, s0);
    var s1 := s0 + [2];
    assert s1 == [0, 2];
    var syms := a.symbols + recs[2].symbols;
    var done := Scan(recs, 0, true, 0, 3, s1, syms);
    assert done.0 == [0, 2];
    assert Scan(recs, 0, true, 0, 2, s0, a.symbols) == done;
    assert Scan(recs, 0, true, 0, 1, s0, a.symbols) == done;
    assert GroupAt(recs, 0, true, 0).members == [0, 2];
    CoalesceCons(recs, 0, true, 0);
  }

  // ---------------------------------------------------------------------------
  // One history: every record its own commit
  // ---------------------------------------------------------------------------

  /** The single-history path: one commit per record, in order. */
  function Singletons(recs: seq<FileCommit>): (gs: seq<Group>)
    ensures |gs| == |recs|
    ensures forall k :: 0 <= k < |gs| ==> gs[k].members == [k]
  {
    seq(|recs|, k requires 0 <= k < |recs| => Group(recs[k].dateTs, recs[k].author, recs[k].log, [k], recs[k].symbols))
  }

  lemma SliceCons(gs: seq<Group>, i: nat)
    requires i < |gs|
    ensures gs[i..] == [gs[i]] + gs[i + 1..]
  {
  }

  /** All records are of one file. */
  predicate OneFile(recs: seq<FileCommit>) {
    forall j, k :: 0 <= j < |recs| && 0 <= k < |recs| ==> recs[j].filename == recs[k].filename
  }

  /** With one file, the scan accepts nothing: the anchor already touches that file. */
  lemma {:induction false} ScanOneFile(recs: seq<FileCommit>, fuzz: int, check: bool, i: nat, j: nat)
    requires OneFile(recs) && i < j <= |recs|
    requires ScanInv(recs, i, check, j, [i]) && Indices(recs, [i])
    ensures Scan(recs, fuzz, check, i, j, [i], recs[i].symbols).0 == [i]
    decreases |recs| - j
  {
    assert SymbolsOf(recs, [i]) == recs[i].symbols by {
      assert [i][..0] == [];
    }
    if j < |recs| && InWindow(recs, fuzz, i, j) {
      assert recs[i].filename in FilenamesOf(recs, [i]);
      assert !Accepts(recs, i, check, [i], j);
      ScanStep(recs, i, check, j, [i]);
      ScanOneFile(recs, fuzz, check, i, j + 1);
    }
  }

  /**
    With one file, coalescing makes the same commits as the single-history path:
    the two paths of the driver agree where they overlap.
   */
  lemma {:induction false} CoalesceOneFile(recs: seq<FileCommit>, fuzz: int, check: bool, i: nat)
    requires OneFile(recs) && i <= |recs|
    ensures CoalesceFrom(recs, fuzz, check, i) == Singletons(recs)[i..]
    decreases |recs| - i
  {
    if i < |recs| {
      var g := GroupAt(recs, fuzz, check, i);
      assert g == Singletons(recs)[i] by {
        assert SymbolsOf(recs, [i]) == recs[i].symbols by {
          assert [i][..0] == [];
        }
        ScanOneFile(recs, fuzz, check, i, i + 1);
      }
      assert Last(g.members) + 1 == i + 1;
      CoalesceCons(recs, fuzz, check, i);
      CoalesceOneFile(recs, fuzz, check, i + 1);
      SliceCons(Singletons(recs), i);
    }
  }
}
