/**
  Single-file commits: one record per RCS revision of one file, with the
  defaults `SingleFileCommit` fills in, the `--skip-branches` filter, and the
  flattening of all histories into one list ordered by date.
 */
module Commits {
  import opened Wrappers
  import opened Text
  import opened Rlog

  /** One revision of one file, ready to become (part of) a git commit. */
  datatype FileCommit = FileCommit(
    filename: string,
    rcsPath: string,
    revId: string,
    author: string,
    dateTs: int,
    log: string,
    symbols: set<string>,
    branches: seq<string>,
    content: string)

  const UnknownAuthor: string := "unknown"

  /**
    The record for revision `rev` of a file: a missing or empty author becomes
    `unknown`, a missing or zero date becomes `now` (the clock), and everything
    else is taken over as it is.
   */
  function Normalize(filename: string, rcsPath: string, rev: Revision, content: string, now: int): (c: FileCommit)
    ensures c.filename == filename && c.rcsPath == rcsPath && c.content == content
    ensures c.revId == rev.rev && c.log == rev.log && c.symbols == rev.symbols && c.branches == rev.branches
    ensures |c.author| > 0
    ensures rev.author == Some(c.author) || (c.author == UnknownAuthor && rev.author in {None, Some("")})
    ensures (rev.dateTs == Some(c.dateTs) && c.dateTs != 0) || (c.dateTs == now && rev.dateTs in {None, Some(0)})
  {
    var author := if rev.author.Some? && |rev.author.value| > 0 then rev.author.value else UnknownAuthor;
    var date := if rev.dateTs.Some? && rev.dateTs.value != 0 then rev.dateTs.value else now;
    FileCommit(filename, rcsPath, rev.rev, author, date, rev.log, rev.symbols, rev.branches, content)
  }

  /** A record whose author and date are already filled in. */
  predicate Complete(c: FileCommit) {
    |c.author| > 0 && c.dateTs != 0
  }

  /** The revision a record came from, with only the fields the record keeps. */
  function RevisionOf(c: FileCommit): Revision {
    Revision(c.revId, None, Some(c.dateTs), Some(c.author), None, c.branches, c.symbols, c.log)
  }

  /** The defaults only fill in what is missing: a complete record is normalized to itself, whatever the clock says. */
  lemma NormalizeComplete(c: FileCommit, now: int)
    requires Complete(c)
    ensures Normalize(c.filename, c.rcsPath, RevisionOf(c), c.content, now) == c
  {
  }

  /** Normalizing twice is normalizing once. */
  lemma NormalizeIdempotent(filename: string, rcsPath: string, rev: Revision, content: string, now: int, later: int)
    requires now != 0
    ensures var c := Normalize(filename, rcsPath, rev, content, now);
      Normalize(filename, rcsPath, RevisionOf(c), content, later) == c
  {
    var c := Normalize(filename, rcsPath, rev, content, now);
    NormalizeComplete(c, later);
  }

  // ---------------------------------------------------------------------------
  // --skip-branches
  // ---------------------------------------------------------------------------

  /** The revisions that name no branch, in their order. */
  function SkipBranches(revs: seq<Revision>): (out: seq<Revision>)
    ensures |out| <= |revs|
    ensures forall r :: r in out <==> r in revs && |r.branches| == 0
    decreases |revs|
  {
    if |revs| == 0 then []
    else if |revs[0].branches| == 0 then [revs[0]] + SkipBranches(revs[1..])
    else SkipBranches(revs[1..])
  }

  /** The filter keeps order: filtering a concatenation filters each part. */
  lemma {:induction false} SkipBranchesAppend(a: seq<Revision>, b: seq<Revision>)
    ensures SkipBranches(a + b) == SkipBranches(a) + SkipBranches(b)
    decreases |a|
  {
    if |a| > 0 {
      assert (a + b)[1..] == a[1..] + b;
      SkipBranchesAppend(a[1..], b);
    } else {
      assert a + b == b;
    }
  }

  /** A revision list with no branch revisions is left as it is. */
  lemma {:induction false} SkipBranchesNone(revs: seq<Revision>)
    requires forall k :: 0 <= k < |revs| ==> |revs[k].branches| == 0
    ensures SkipBranches(revs) == revs
    decreases |revs|
  {
    if |revs| > 0 {
      SkipBranchesNone(revs[1..]);
    }
  }

  /** Filtering twice is filtering once. */
  lemma SkipBranchesIdempotent(revs: seq<Revision>)
    ensures SkipBranches(SkipBranches(revs)) == SkipBranches(revs)
  {
    var out := SkipBranches(revs);
    forall k | 0 <= k < |out| ensures |out[k].branches| == 0 {
      assert out[k] in out;
    }
    SkipBranchesNone(out);
  }

  /**
    A history as the directory walk collects it: with `--skip-branches`, its
    revisions that name a branch are dropped. (Files named one by one on the
    command line are not filtered.)
   */
  function Collected(fh: FileHistory, skipBranches: bool, inDirectory: bool): (out: FileHistory)
    ensures out.rcsPath == fh.rcsPath && out.filename == fh.filename && out.symbols == fh.symbols
    ensures out.revisions == if skipBranches && inDirectory then SkipBranches(fh.revisions) else fh.revisions
  {
    if skipBranches && inDirectory then fh.(revisions := SkipBranches(fh.revisions)) else fh
  }

  // ---------------------------------------------------------------------------
  // All single-file commits, oldest first
  // ---------------------------------------------------------------------------

  /** The text of revision `rev` of `rcsPath` as `co` prints it; when `co` fails, the empty text. */
  function ContentOf(co: (string, string) -> Option<string>, rcsPath: string, rev: string): string {
    co(rcsPath, rev).GetOr("")
  }

  /** The records of one history, in the order of its revisions. */
  function FileCommitsOf(fh: FileHistory, co: (string, string) -> Option<string>, now: int): (r: seq<FileCommit>)
    ensures |r| == |fh.revisions|
    ensures forall k :: 0 <= k < |r| ==>
      r[k] == Normalize(fh.filename, fh.rcsPath, fh.revisions[k], ContentOf(co, fh.rcsPath, fh.revisions[k].rev), now)
  {
    seq(|fh.revisions|, k requires 0 <= k < |fh.revisions| =>
      Normalize(fh.filename, fh.rcsPath, fh.revisions[k], ContentOf(co, fh.rcsPath, fh.revisions[k].rev), now))
  }

  /**
    The record of a revision carries the text `co` printed for that very file
    and revision, or the empty text when `co` failed.
   */
  lemma RecordContent(fh: FileHistory, co: (string, string) -> Option<string>, now: int, k: nat)
    requires k < |fh.revisions|
    ensures var c := FileCommitsOf(fh, co, now)[k];
      && c.rcsPath == fh.rcsPath && c.revId == fh.revisions[k].rev
      && (co(c.rcsPath, c.revId).Some? ==> c.content == co(c.rcsPath, c.revId).value)
      && (co(c.rcsPath, c.revId).None? ==> c.content == "")
  {
  }

  /** How many revisions the histories hold together. */
  function RevisionCount(hs: seq<FileHistory>): nat
    decreases |hs|
  {
    if |hs| == 0 then 0 else |hs[0].revisions| + RevisionCount(hs[1..])
  }

  /** The records of all histories, history by history. */
  function AllFileCommits(hs: seq<FileHistory>, co: (string, string) -> Option<string>, now: int): (r: seq<FileCommit>)
    ensures |r| == RevisionCount(hs)
    decreases |hs|
  {
    if |hs| == 0 then [] else FileCommitsOf(hs[0], co, now) + AllFileCommits(hs[1..], co, now)
  }

  /** Every record comes from a revision of some history, under that history's file name. */
  lemma {:induction false} AllFileCommitsFrom(hs: seq<FileHistory>, co: (string, string) -> Option<string>, now: int, c: FileCommit)
    requires c in AllFileCommits(hs, co, now)
    ensures exists h, k :: (0 <= h < |hs| && 0 <= k < |hs[h].revisions| && c.filename == hs[h].filename
      && c.revId == hs[h].revisions[k].rev && c.rcsPath == hs[h].rcsPath)
    decreases |hs|
  {
    var first := FileCommitsOf(hs[0], co, now);
    if c in first {
      var k :| 0 <= k < |first| && first[k] == c;
      assert 0 <= 0 < |hs| && 0 <= k < |hs[0].revisions|;
    } else {
      AllFileCommitsFrom(hs[1..], co, now, c);
      var h, k :| 0 <= h < |hs[1..]| && 0 <= k < |hs[1..][h].revisions| && c.filename == hs[1..][h].filename
        && c.revId == hs[1..][h].revisions[k].rev && c.rcsPath == hs[1..][h].rcsPath;
      assert hs[1..][h] == hs[h + 1];
    }
  }

  /** Records in non-decreasing date order. */
  predicate SortedByDate(cs: seq<FileCommit>) {
    forall i, j :: 0 <= i < j < |cs| ==> cs[i].dateTs <= cs[j].dateTs
  }

  /** `x` placed into sorted `cs` after every record not later than it (so equal dates keep their order). */
  function InsertByDate(cs: seq<FileCommit>, x: FileCommit): (r: seq<FileCommit>)
    requires SortedByDate(cs)
    ensures SortedByDate(r)
    ensures multiset(r) == multiset(cs) + multiset{x}
    ensures |r| == |cs| + 1
    decreases |cs|
  {
    if |cs| == 0 then [x]
    else
      var last := cs[|cs| - 1];
      if last.dateTs <= x.dateTs then
        AppendLater(cs, x);
        cs + [x]
      else
        var front := cs[..|cs| - 1];
        assert cs == front + [last];
        var r := InsertByDate(front, x);
        InsertedBefore(r, front, x, last);
        r + [last]
  }

  /** A record not earlier than the last of a sorted list extends it sorted. */
  lemma AppendLater(cs: seq<FileCommit>, x: FileCommit)
    requires SortedByDate(cs) && |cs| > 0 && cs[|cs| - 1].dateTs <= x.dateTs
    ensures SortedByDate(cs + [x])
  {
    forall i | 0 <= i < |cs| ensures (cs + [x])[i].dateTs <= x.dateTs {
      assert cs[i].dateTs <= cs[|cs| - 1].dateTs;
    }
  }

  /** Every record of an insertion is at most `last` when every record before it and `x` are. */
  lemma InsertedBefore(r: seq<FileCommit>, front: seq<FileCommit>, x: FileCommit, last: FileCommit)
    requires SortedByDate(r) && multiset(r) == multiset(front) + multiset{x}
    requires forall k :: 0 <= k < |front| ==> front[k].dateTs <= last.dateTs
    requires x.dateTs <= last.dateTs
    ensures SortedByDate(r + [last])
  {
    forall k | 0 <= k < |r| ensures r[k].dateTs <= last.dateTs {
      assert r[k] in multiset(r);
      if r[k] != x {
        assert r[k] in multiset(front);
        var j :| 0 <= j < |front| && front[j] == r[k];
      }
    }
  }

  /** A stable sort by date: `sfcs.sort(key=date_ts)`. */
  function SortByDate(cs: seq<FileCommit>): (r: seq<FileCommit>)
    ensures SortedByDate(r)
    ensures multiset(r) == multiset(cs)
    ensures |r| == |cs|
    decreases |cs|
  {
    if |cs| == 0 then []
    else
      var front := cs[..|cs| - 1];
      assert cs == front + [cs[|cs| - 1]];
      InsertByDate(SortByDate(front), cs[|cs| - 1])
  }

  /** The records of `cs` dated `d`, in their order in `cs`. */
  function OfDate(cs: seq<FileCommit>, d: int): (r: seq<FileCommit>)
    ensures forall k :: 0 <= k < |r| ==> r[k].dateTs == d
    decreases |cs|
  {
    if |cs| == 0 then []
    else (if cs[0].dateTs == d then [cs[0]] else []) + OfDate(cs[1..], d)
  }

  lemma {:induction false} OfDateAppend(a: seq<FileCommit>, b: seq<FileCommit>, d: int)
    ensures OfDate(a + b, d) == OfDate(a, d) + OfDate(b, d)
    decreases |a|
  {
    if |a| == 0 {
      assert a + b == b;
    } else {
      var head := if a[0].dateTs == d then [a[0]] else [];
      assert (a + b)[0] == a[0] && (a + b)[1..] == a[1..] + b;
      assert OfDate(a + b, d) == head + OfDate(a[1..] + b, d);
      OfDateAppend(a[1..], b, d);
      assert head + (OfDate(a[1..], d) + OfDate(b, d)) == (head + OfDate(a[1..], d)) + OfDate(b, d);
    }
  }

  lemma OfDateOne(x: FileCommit, d: int)
    ensures OfDate([x], d) == if x.dateTs == d then [x] else []
  {
    assert [x][1..] == [];
  }

  /** Inserting `x` puts it after every record of its date already there. */
  lemma {:induction false} InsertStable(cs: seq<FileCommit>, x: FileCommit, d: int)
    requires SortedByDate(cs)
    ensures OfDate(InsertByDate(cs, x), d) == OfDate(cs, d) + OfDate([x], d)
    decreases |cs|
  {
    if |cs| == 0 {
      assert OfDate(cs, d) == [];
      assert InsertByDate(cs, x) == [x];
    } else {
      var last := cs[|cs| - 1];
      if last.dateTs <= x.dateTs {
        assert InsertByDate(cs, x) == cs + [x];
        OfDateAppend(cs, [x], d);
      } else {
        var front := cs[..|cs| - 1];
        assert cs == front + [last];
        var r := InsertByDate(front, x);
        assert InsertByDate(cs, x) == r + [last];
        var xs := OfDate([x], d);
        var ls := OfDate([last], d);
        assert xs == [] || ls == [] by {
          OfDateOne(x, d);
          OfDateOne(last, d);
        }
        assert OfDate(r + [last], d) == (OfDate(front, d) + xs) + ls by {
          InsertStable(front, x, d);
          OfDateAppend(r, [last], d);
        }
        assert OfDate(cs, d) == OfDate(front, d) + ls by {
          OfDateAppend(front, [last], d);
        }
        SwapEmpty(OfDate(front, d), xs, ls);
      }
    }
  }

  lemma SwapEmpty(f: seq<FileCommit>, xs: seq<FileCommit>, ls: seq<FileCommit>)
    requires xs == [] || ls == []
    ensures (f + xs) + ls == (f + ls) + xs
  {
    if xs == [] {
      assert (f + xs) + ls == f + ls == (f + ls) + xs;
    } else {
      assert (f + xs) + ls == f + xs && (f + ls) + xs == f + xs;
    }
  }

  /**
    The sort is stable: for every date, the records of that date come out in
    the order they went in.
   */
  lemma {:induction false} SortStable(cs: seq<FileCommit>, d: int)
    ensures OfDate(SortByDate(cs), d) == OfDate(cs, d)
    decreases |cs|
  {
    if |cs| > 0 {
      var front := cs[..|cs| - 1];
      var x := cs[|cs| - 1];
      assert cs == front + [x];
      SortStable(front, d);
      InsertStable(SortByDate(front), x, d);
      OfDateAppend(front, [x], d);
    }
  }

  /** All single-file commits of the histories, oldest first. */
  function BuildFileCommits(hs: seq<FileHistory>, co: (string, string) -> Option<string>, now: int): (r: seq<FileCommit>)
    ensures SortedByDate(r)
    ensures multiset(r) == multiset(AllFileCommits(hs, co, now))
    ensures |r| == RevisionCount(hs)
  {
    SortByDate(AllFileCommits(hs, co, now))
  }

  /** With a clock that is not zero, every record is complete. */
  lemma BuildComplete(hs: seq<FileHistory>, co: (string, string) -> Option<string>, now: int)
    requires now != 0
    ensures forall c :: c in BuildFileCommits(hs, co, now) ==> Complete(c)
  {
    forall c | c in BuildFileCommits(hs, co, now) ensures Complete(c) {
      assert c in multiset(BuildFileCommits(hs, co, now));
      assert c in multiset(AllFileCommits(hs, co, now));
      AllFileCommitsNormalized(hs, co, now, c);
    }
  }

  /** Every record of the flattening is a normalized revision. */
  lemma {:induction false} AllFileCommitsNormalized(hs: seq<FileHistory>, co: (string, string) -> Option<string>, now: int, c: FileCommit)
    requires c in AllFileCommits(hs, co, now)
    ensures exists f, p, rev, t :: c == Normalize(f, p, rev, t, now)
    decreases |hs|
  {
    var first := FileCommitsOf(hs[0], co, now);
    if c in first {
      var k :| 0 <= k < |first| && first[k] == c;
      var rev := hs[0].revisions[k];
      assert c == Normalize(hs[0].filename, hs[0].rcsPath, rev, ContentOf(co, hs[0].rcsPath, rev.rev), now);
    } else {
      AllFileCommitsNormalized(hs[1..], co, now, c);
    }
  }
}
