/**
  The pure part of `main`: the single-file commits of every history, oldest
  first; one commit per record when there is only one history, the
  coalescer's groups otherwise; then every commit through a fresh emitter.
  The histories, `co`'s output, the clock and the author table come in as
  parameters.
 */
module Pipeline {
  import opened Wrappers
  import opened Text
  import opened Rlog
  import opened Commits
  import opened Coalesce
  import opened Emitter

  /** The options that reach the core: `--rcs-commit-fuzz`, the symbol check, and the emitter's switches. */
  datatype Options = Options(fuzz: int, symbolCheck: bool, settings: Settings)

  /** The command line's defaults: a 300-second window, the symbol check on, every switch off. */
  const Defaults := Options(300, true, Settings(false, false, false))

  /** What a run writes: the commits, and the whole stream of events they belong to. */
  datatype Output = Output(commits: seq<Event>, events: seq<Event>)

  /** The message of a run that found nothing to import. */
  const NoHistories := "No RCS histories found."

  /** The records of a group are records of the list. */
  predicate GroupsIn(recs: seq<FileCommit>, gs: seq<Group>) {
    forall g :: 0 <= g < |gs| ==> Indices(recs, gs[g].members)
  }

  /**
    The commits `main` hands to `emit_all`: with one history, every record
    alone; with more, the coalescer's groups.
   */
  function GroupsFor(histories: nat, recs: seq<FileCommit>, fuzz: int, check: bool): (gs: seq<Group>)
    ensures GroupsIn(recs, gs) && |gs| <= |recs|
    ensures histories == 1 ==> |gs| == |recs| && forall k :: 0 <= k < |gs| ==> gs[k].members == [k]
  {
    if histories == 1 then Singletons(recs)
    else
      CoalesceWithin(recs, fuzz, check, 0);
      CoalesceCounts(recs, fuzz, check, 0);
      Coalesced(recs, fuzz, check)
  }

  /** The commit dictionaries of the groups, in order. */
  function ChangesetsOf(recs: seq<FileCommit>, gs: seq<Group>): (cs: seq<Changeset>)
    requires GroupsIn(recs, gs)
    ensures |cs| == |gs|
    ensures forall k :: 0 <= k < |gs| ==> cs[k].files == seq(|gs[k].members|, a requires 0 <= a < |gs[k].members| => recs[gs[k].members[a]])
  {
    seq(|gs|, k requires 0 <= k < |gs| => ChangesetOf(recs, gs[k]))
  }

  /** The changesets of a run: the records of every history, oldest first, grouped as `main` groups them. */
  function RunChangesets(hs: seq<FileHistory>, co: (string, string) -> Option<string>, now: int, opts: Options): seq<Changeset> {
    var recs := BuildFileCommits(hs, co, now);
    ChangesetsOf(recs, GroupsFor(|hs|, recs, opts.fuzz, opts.symbolCheck))
  }

  /** `main` from the collected histories on: no history stops the run with a message. */
  function Run(hs: seq<FileHistory>, co: (string, string) -> Option<string>, now: int,
               authors: map<string, string>, gitIdent: GitVar, opts: Options): (r: Result<Output, string>)
    ensures r.Failure? <==> |hs| == 0
    ensures r.Failure? ==> r.error == NoHistories
  {
    if |hs| == 0 then Failure(NoHistories)
    else
      var out := EmitAll(Start(authors), opts.settings, gitIdent, RunChangesets(hs, co, now, opts));
      Success(Output(out.value, out.events))
  }

  /**
    One `,v` file as the walk finds it: its path, the lines `rlog` prints for
    it (`None` when `rlog` fails and `parse_rlog` raises), and whether it was
    found inside a directory.
   */
  datatype RcsFile = RcsFile(rcsPath: string, rlog: Option<seq<string>>, inDirectory: bool)

  /**
    A history as `collect_histories` keeps it: the `rlog` output read by the
    parser `mode` selects, branch revisions dropped when asked; nothing when
    the parse raises.
   */
  function History(f: RcsFile, skipBranches: bool, mode: Mode, env: DateEnv): (h: Option<FileHistory>)
    ensures h.Some? <==> f.rlog.Some?
    ensures h.Some? ==> h.value.rcsPath == f.rcsPath && h.value.filename == Filename(f.rcsPath)
  {
    match f.rlog
    case None => None
    case Some(lines) => Some(Collected(Parse(f.rcsPath, lines, mode, env), skipBranches, f.inDirectory))
  }

  /** The values that are present, in order. */
  function Present<T>(opts: seq<Option<T>>): (r: seq<T>)
    ensures |r| <= |opts|
    ensures |r| == 0 <==> forall k :: 0 <= k < |opts| ==> opts[k].None?
    ensures forall k :: 0 <= k < |opts| && opts[k].Some? ==> opts[k].value in r
    ensures forall x :: x in r ==> exists k :: 0 <= k < |opts| && opts[k] == Some(x)
    decreases |opts|
  {
    if |opts| == 0 then []
    else
      var rest := Present(opts[1..]);
      assert forall k :: 1 <= k < |opts| ==> opts[k] == opts[1..][k - 1];
      match opts[0]
      case Some(x) => [x] + rest
      case None => rest
  }

  /** Keeping the present values of two lists one after the other keeps their order. */
  lemma {:induction false} PresentAppend<T>(a: seq<Option<T>>, b: seq<Option<T>>)
    ensures Present(a + b) == Present(a) + Present(b)
    decreases |a|
  {
    if |a| == 0 {
      assert a + b == b;
    } else {
      assert (a + b)[0] == a[0];
      assert (a + b)[1..] == a[1..] + b;
      PresentAppend(a[1..], b);
    }
  }

  /** The outcome of reading every file, in order. */
  function Histories(files: seq<RcsFile>, skipBranches: bool, mode: Mode, env: DateEnv): (os: seq<Option<FileHistory>>)
    ensures |os| == |files|
    ensures forall k :: 0 <= k < |files| ==> os[k] == History(files[k], skipBranches, mode, env)
    decreases |files|
  {
    if |files| == 0 then []
    else
      var rest := Histories(files[1..], skipBranches, mode, env);
      var os := [History(files[0], skipBranches, mode, env)] + rest;
      assert forall k :: 1 <= k < |files| ==> os[k] == rest[k - 1] && files[1..][k - 1] == files[k];
      os
  }

  /** `collect_histories` after the walk: the history of every file whose parse succeeds, in order. */
  function Collect(files: seq<RcsFile>, skipBranches: bool, mode: Mode, env: DateEnv): (hs: seq<FileHistory>)
    ensures |hs| <= |files|
    ensures |hs| == 0 <==> forall k :: 0 <= k < |files| ==> files[k].rlog.None?
    ensures forall k :: 0 <= k < |files| && files[k].rlog.Some? ==>
      History(files[k], skipBranches, mode, env).value in hs
    ensures forall h :: h in hs ==>
      exists k :: 0 <= k < |files| && History(files[k], skipBranches, mode, env) == Some(h)
  {
    Present(Histories(files, skipBranches, mode, env))
  }

  /** Collecting files one list after another gives their histories one after another: the order is kept. */
  lemma CollectAppend(a: seq<RcsFile>, b: seq<RcsFile>, skipBranches: bool, mode: Mode, env: DateEnv)
    ensures Collect(a + b, skipBranches, mode, env) == Collect(a, skipBranches, mode, env) + Collect(b, skipBranches, mode, env)
  {
    HistoriesAppend(a, b, skipBranches, mode, env);
    PresentAppend(Histories(a, skipBranches, mode, env), Histories(b, skipBranches, mode, env));
  }

  lemma {:induction false} HistoriesAppend(a: seq<RcsFile>, b: seq<RcsFile>, skipBranches: bool, mode: Mode, env: DateEnv)
    ensures Histories(a + b, skipBranches, mode, env) == Histories(a, skipBranches, mode, env) + Histories(b, skipBranches, mode, env)
    decreases |a|
  {
    if |a| == 0 {
      assert a + b == b;
    } else {
      assert (a + b)[0] == a[0];
      assert (a + b)[1..] == a[1..] + b;
      HistoriesAppend(a[1..], b, skipBranches, mode, env);
    }
  }

  /**
    A collected history holds the revision blocks of the output, oldest first;
    the parser as written never holds more revisions than there are revision
    lines, the corrected one holds one per revision line; with
    `--skip-branches` a file found in a directory keeps exactly those that name
    no branch.
   */
  lemma HistoryRevisions(f: RcsFile, skipBranches: bool, mode: Mode, env: DateEnv)
    requires f.rlog.Some?
    ensures var h := History(f, skipBranches, mode, env).value;
      var parsed := Parse(f.rcsPath, f.rlog.value, mode, env);
      var labels := RevisionLabels(ReadLines(f.rlog.value));
      && |parsed.revisions| <= |labels|
      && (mode == EndAtRevision ==> Labels(parsed.revisions) == Reverse(labels))
      && (!(skipBranches && f.inDirectory) ==> h.revisions == parsed.revisions)
      && (skipBranches && f.inDirectory ==> forall r :: r in h.revisions <==> r in parsed.revisions && |r.branches| == 0)
  {
    ParseAtMostRevisions(f.rcsPath, f.rlog.value, mode, env);
    ParseRlogRevisions(f.rcsPath, f.rlog.value, env);
  }

  /** `main` from the files found on: no file that parses stops the run with a message. */
  function Main(files: seq<RcsFile>, skipBranches: bool, mode: Mode, env: DateEnv, co: (string, string) -> Option<string>,
                authors: map<string, string>, gitIdent: GitVar, opts: Options): (r: Result<Output, string>)
    ensures r.Failure? <==> forall k :: 0 <= k < |files| ==> files[k].rlog.None?
    ensures r.Failure? ==> r.error == NoHistories
  {
    Run(Collect(files, skipBranches, mode, env), co, env.now, authors, gitIdent, opts)
  }

  /**
    A run writes one commit per group, never more than there are revisions,
    and exactly one per revision when there is one history; commit marks rise
    and each parent comes before its commit.
   */
  lemma RunCommits(hs: seq<FileHistory>, co: (string, string) -> Option<string>, now: int,
                   authors: map<string, string>, gitIdent: GitVar, opts: Options)
    requires |hs| > 0
    ensures var r := Run(hs, co, now, authors, gitIdent, opts);
      && r.Success?
      && |r.value.commits| <= RevisionCount(hs)
      && (|hs| == 1 ==> |r.value.commits| == RevisionCount(hs))
      && Chain(r.value.commits)
  {
    var cs := RunChangesets(hs, co, now, opts);
    assert |cs| <= RevisionCount(hs) && (|hs| == 1 ==> |cs| == RevisionCount(hs));
    StreamCommits(authors, opts.settings, gitIdent, cs);
  }

  /** Commit events whose marks are at least 1 and rise, each parent before its commit. */
  predicate Chain(commits: seq<Event>) {
    && (forall k :: 0 <= k < |commits| ==>
          && commits[k].Commit? && commits[k].mark >= 1
          && (commits[k].parent.Some? ==> commits[k].parent.value < commits[k].mark))
    && (forall i, j :: 0 <= i < j < |commits| ==> commits[i].mark < commits[j].mark)
  }

  /** Commits within the marks from 1 form a chain. */
  lemma WithinChain(commits: seq<Event>, hi: nat)
    requires CommitsWithin(commits, 1, hi)
    ensures Chain(commits)
  {
    CommitsOrdered(commits, 1, hi);
  }

  /** From a fresh emitter: one commit per changeset, in a chain. */
  lemma StreamCommits(authors: map<string, string>, settings: Settings, gitIdent: GitVar, cs: seq<Changeset>)
    ensures var out := EmitAll(Start(authors), settings, gitIdent, cs);
      |out.value| == |cs| && Chain(out.value)
  {
    var out := EmitAll(Start(authors), settings, gitIdent, cs);
    AllCommits(Start(authors), settings, gitIdent, cs);
    WithinChain(out.value, out.st.nextMark);
  }

  /** The marks of a run are 1, 2, 3, … with none skipped and none repeated. */
  lemma RunMarks(hs: seq<FileHistory>, co: (string, string) -> Option<string>, now: int,
                 authors: map<string, string>, gitIdent: GitVar, opts: Options)
    requires |hs| > 0
    ensures var r := Run(hs, co, now, authors, gitIdent, opts);
      && r.Success?
      && Allocated(r.value.events) == Range(1, 1 + |Allocated(r.value.events)|)
  {
    StreamMarks(authors, opts.settings, gitIdent, RunChangesets(hs, co, now, opts));
  }

  /** From a fresh emitter the marks of any changesets are 1, 2, 3, …. */
  lemma StreamMarks(authors: map<string, string>, settings: Settings, gitIdent: GitVar, cs: seq<Changeset>)
    ensures var out := EmitAll(Start(authors), settings, gitIdent, cs);
      Allocated(out.events) == Range(1, 1 + |Allocated(out.events)|)
  {
    AllAllocate(Start(authors), settings, gitIdent, cs);
  }

  /** Across a run no (file, revision) is written as a blob twice. */
  lemma RunOnce(hs: seq<FileHistory>, co: (string, string) -> Option<string>, now: int,
                authors: map<string, string>, gitIdent: GitVar, opts: Options)
    requires |hs| > 0
    ensures var r := Run(hs, co, now, authors, gitIdent, opts);
      r.Success? && OnceEach(r.value.events)
  {
    AllOnce(Start(authors), opts.settings, gitIdent, RunChangesets(hs, co, now, opts));
  }

  /** The records of one history all carry its file name. */
  lemma {:induction false} OneHistoryOneFile(h: FileHistory, co: (string, string) -> Option<string>, now: int)
    ensures OneFile(BuildFileCommits([h], co, now))
  {
    var recs := BuildFileCommits([h], co, now);
    var all := AllFileCommits([h], co, now);
    assert all == FileCommitsOf(h, co, now) + AllFileCommits([h][1..], co, now);
    assert [h][1..] == [];
    forall k | 0 <= k < |recs| ensures recs[k].filename == h.filename {
      assert recs[k] in multiset(recs);
      var c := recs[k];
      assert c in multiset(all);
      var a :| 0 <= a < |all| && all[a] == c;
    }
  }

  /**
    With one history the coalescer would make the very commits the
    single-history path makes: choosing that path changes nothing.
   */
  lemma OneHistoryAgrees(h: FileHistory, co: (string, string) -> Option<string>, now: int, fuzz: int, check: bool)
    ensures var recs := BuildFileCommits([h], co, now);
      GroupsFor(1, recs, fuzz, check) == Coalesced(recs, fuzz, check)
  {
    var recs := BuildFileCommits([h], co, now);
    OneHistoryOneFile(h, co, now);
    CoalesceOneFile(recs, fuzz, check, 0);
    assert Singletons(recs)[0..] == Singletons(recs);
  }
}
