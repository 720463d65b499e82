/**
  `FastImportEmitter` and `emit_all`: the bookkeeping behind the fast-import
  stream. Marks come from one counter; blobs are written once per
  (file, revision) and found again in a table; each path remembers the mark
  of the last commit that touched it, and a commit's parent is the latest of
  those over its files. The stream itself is a list of abstract events, and
  the emitter's state is a value threaded through every step.
 */
module Emitter {
  import opened Wrappers
  import opened Text
  import opened Commits
  import opened Coalesce

  /** The emitter's switches: `author_is_committer`, `tag_each_rev`, `log_filename`. */
  datatype Settings = Settings(authorIsCommitter: bool, tagEachRev: bool, logFilename: bool)

  /**
    The emitter's mutable fields: the next mark, the blob mark of each
    (file, revision), the mark of the last commit of each path, and the author
    identities known so far.
   */
  datatype State = State(
    nextMark: nat,
    blobMarks: map<(string, string), nat>,
    lastCommit: map<string, nat>,
    authors: map<string, string>)

  /** A fresh emitter: marks start at 1, both tables empty. */
  function Start(authors: map<string, string>): State {
    State(1, map[], map[], authors)
  }

  /** Every mark in the tables has been handed out: at least 1 and below the next mark. */
  predicate Valid(st: State) {
    && st.nextMark >= 1
    && (forall key :: key in st.blobMarks ==> 1 <= st.blobMarks[key] < st.nextMark)
    && (forall p :: p in st.lastCommit ==> 1 <= st.lastCommit[p] < st.nextMark)
  }

  /** A committer line: the author's identity and date, or the identity git reports. */
  datatype Committer = AsAuthor | Ident(ident: string)

  /** A tree entry `M <mode> :<mark> <path>`. */
  datatype Entry = Entry(path: string, mark: nat, mode: string)

  /** What the stream says, in order. */
  datatype Event =
    | Blob(mark: nat, file: string, rev: string, content: string)
    | Commit(mark: nat, author: string, committer: Committer, dateTs: int, message: string,
             parent: Option<nat>, entries: seq<Entry>, tags: seq<string>)
    | TagReset(name: string, mark: nat)

  /** A result value together with the state after it and the events written on the way. */
  datatype Emitted<T> = Emitted(value: T, st: State, events: seq<Event>)

  // ---------------------------------------------------------------------------
  // Marks
  // ---------------------------------------------------------------------------

  /** The mark an event allocates, if any: blobs and commits take one, resets none. */
  function MarkOf(e: Event): seq<nat> {
    match e
    case Blob(m, _, _, _) => [m]
    case Commit(m, _, _, _, _, _, _, _) => [m]
    case TagReset(_, _) => []
  }

  /** The marks the events allocate, in order. */
  function Allocated(evs: seq<Event>): (ms: seq<nat>)
    ensures |ms| <= |evs|
    decreases |evs|
  {
    if |evs| == 0 then [] else MarkOf(evs[0]) + Allocated(evs[1..])
  }

  lemma {:induction false} AllocatedAppend(a: seq<Event>, b: seq<Event>)
    ensures Allocated(a + b) == Allocated(a) + Allocated(b)
    decreases |a|
  {
    if |a| > 0 {
      assert (a + b)[0] == a[0];
      assert (a + b)[1..] == a[1..] + b;
      AllocatedAppend(a[1..], b);
    } else {
      assert a + b == b;
    }
  }

  /** The marks `lo`, `lo + 1`, ..., `hi - 1`. */
  function Range(lo: nat, hi: nat): (r: seq<nat>)
    requires lo <= hi
    ensures |r| == hi - lo && forall k :: 0 <= k < |r| ==> r[k] == lo + k
  {
    seq(hi - lo, k requires 0 <= k < hi - lo => lo + k)
  }

  lemma RangeAppend(lo: nat, mid: nat, hi: nat)
    requires lo <= mid <= hi
    ensures Range(lo, mid) + Range(mid, hi) == Range(lo, hi)
  {
  }

  lemma RangeOne(m: nat)
    ensures Range(m, m + 1) == [m]
  {
  }

  /** `_alloc_mark`: hands out the counter and moves it on by one; nothing else changes. */
  function AllocMark(st: State): (r: (nat, State))
    ensures r.1.nextMark == r.0 + 1 && r.0 == st.nextMark
    ensures r.1.blobMarks == st.blobMarks && r.1.lastCommit == st.lastCommit && r.1.authors == st.authors
  {
    (st.nextMark, st.(nextMark := st.nextMark + 1))
  }

  // ---------------------------------------------------------------------------
  // Authors
  // ---------------------------------------------------------------------------

  /** The identity made up for a user name with no mapping. */
  function DefaultIdent(user: string): string {
    user + " <" + user + "@example.com>"
  }

  /**
    `author_for`: the mapped identity of `user`; a user with none gets the
    made-up identity, which is remembered.
   */
  function AuthorFor(st: State, user: string): (r: (string, State))
    ensures user in r.1.authors && r.0 == r.1.authors[user]
    ensures user in st.authors ==> r.0 == st.authors[user] && r.1 == st
    ensures user !in st.authors ==> r.0 == DefaultIdent(user) && r.1 == st.(authors := st.authors[user := r.0])
  {
    if user in st.authors then (st.authors[user], st)
    else (DefaultIdent(user), st.(authors := st.authors[user := DefaultIdent(user)]))
  }

  /** Asking twice gives the same identity, and the second time changes nothing. */
  lemma AuthorForAgain(st: State, user: string)
    ensures var (ident, st') := AuthorFor(st, user);
      AuthorFor(st', user) == (ident, st')
  {
  }

  // ---------------------------------------------------------------------------
  // Blobs
  // ---------------------------------------------------------------------------

  /**
    `emit_blob`: the blob of `rev` of `file`. One already written is found in
    the table and nothing is written; otherwise it gets the next mark, which the
    table remembers, and a blob event.
   */
  function EmitBlob(st: State, file: string, rev: string, content: string): (r: Emitted<nat>)
    requires Valid(st)
    ensures Valid(r.st)
    ensures (file, rev) in r.st.blobMarks && r.st.blobMarks[(file, rev)] == r.value
    ensures (file, rev) in st.blobMarks ==> r.value == st.blobMarks[(file, rev)] && r.st == st && r.events == []
    ensures (file, rev) !in st.blobMarks ==>
      && r.value == st.nextMark
      && r.st == st.(nextMark := st.nextMark + 1, blobMarks := st.blobMarks[(file, rev) := r.value])
      && r.events == [Blob(r.value, file, rev, content)]
  {
    if (file, rev) in st.blobMarks then Emitted(st.blobMarks[(file, rev)], st, [])
    else
      var (m, st1) := AllocMark(st);
      Emitted(m, st1.(blobMarks := st1.blobMarks[(file, rev) := m]), [Blob(m, file, rev, content)])
  }

  /** A blob takes the next mark, or none when it is already written. */
  lemma BlobAllocates(st: State, file: string, rev: string, content: string)
    requires Valid(st)
    ensures var r := EmitBlob(st, file, rev, content);
      Allocated(r.events) == Range(st.nextMark, r.st.nextMark)
  {
    var r := EmitBlob(st, file, rev, content);
    if (file, rev) !in st.blobMarks {
      assert Allocated(r.events) == [st.nextMark] by {
        assert r.events[1..] == [];
      }
      RangeOne(st.nextMark);
    }
  }

  /** A repeated (file, revision) gets the mark it got the first time and allocates nothing. */
  lemma EmitBlobAgain(st: State, file: string, rev: string, content: string, content': string)
    requires Valid(st)
    ensures var first := EmitBlob(st, file, rev, content);
      EmitBlob(first.st, file, rev, content') == Emitted(first.value, first.st, [])
  {
  }

  /** The blob table after `st'` keeps every entry of the table of `st`. */
  predicate Extends(st: State, st': State) {
    forall key :: key in st.blobMarks ==> key in st'.blobMarks && st'.blobMarks[key] == st.blobMarks[key]
  }

  /** `sf.content.startswith("#!")` makes an executable. */
  function ModeFor(content: string): string {
    if StartsWith(content, "#!") then "755" else "644"
  }

  /**
    The blobs of a commit's files, in order, and its tree entries: each file's
    path, its blob's mark and its mode.
   */
  function EmitBlobs(st: State, files: seq<FileCommit>): (r: Emitted<seq<Entry>>)
    requires Valid(st)
    ensures Valid(r.st) && st.nextMark <= r.st.nextMark && |r.value| == |files|
    decreases |files|
  {
    if |files| == 0 then Emitted([], st, [])
    else
      var f := files[0];
      var b := EmitBlob(st, f.filename, f.revId, f.content);
      var rest := EmitBlobs(b.st, files[1..]);
      Emitted([Entry(f.filename, b.value, ModeFor(f.content))] + rest.value, rest.st, b.events + rest.events)
  }

  /** Writing blobs keeps every blob mark already known and touches neither the last commits nor the authors. */
  lemma {:induction false} BlobsKeep(st: State, files: seq<FileCommit>)
    requires Valid(st)
    ensures var r := EmitBlobs(st, files);
      Extends(st, r.st) && r.st.lastCommit == st.lastCommit && r.st.authors == st.authors
    decreases |files|
  {
    if |files| > 0 {
      var f := files[0];
      var b := EmitBlob(st, f.filename, f.revId, f.content);
      BlobsKeep(b.st, files[1..]);
    }
  }

  /** Writing blobs writes nothing but blobs. */
  lemma {:induction false} BlobsEvents(st: State, files: seq<FileCommit>)
    requires Valid(st)
    ensures var r := EmitBlobs(st, files);
      forall e :: e in r.events ==> e.Blob?
    decreases |files|
  {
    if |files| > 0 {
      var f := files[0];
      var b := EmitBlob(st, f.filename, f.revId, f.content);
      var rest := EmitBlobs(b.st, files[1..]);
      assert EmitBlobs(st, files).events == b.events + rest.events;
      assert forall e :: e in b.events ==> e.Blob?;
      BlobsEvents(b.st, files[1..]);
    }
  }

  /** The blobs written take the marks from the old counter up to the new one, in order. */
  lemma {:induction false} BlobsAllocate(st: State, files: seq<FileCommit>)
    requires Valid(st)
    ensures var r := EmitBlobs(st, files);
      Allocated(r.events) == Range(st.nextMark, r.st.nextMark)
    decreases |files|
  {
    if |files| > 0 {
      var f := files[0];
      var b := EmitBlob(st, f.filename, f.revId, f.content);
      var rest := EmitBlobs(b.st, files[1..]);
      var r := EmitBlobs(st, files);
      assert r.events == b.events + rest.events && r.st == rest.st;
      BlobAllocates(st, f.filename, f.revId, f.content);
      BlobsAllocate(b.st, files[1..]);
      AllocatedAppend(b.events, rest.events);
      RangeAppend(st.nextMark, b.st.nextMark, rest.st.nextMark);
    }
  }

  /**
    Entry `k` is file `k`'s path, the mark the blob table holds for its
    revision (a mark already handed out) and the mode its content asks for.
   */
  lemma {:induction false} BlobsEntries(st: State, files: seq<FileCommit>)
    requires Valid(st)
    ensures var r := EmitBlobs(st, files);
      forall k :: 0 <= k < |files| ==>
        && r.value[k].path == files[k].filename
        && r.value[k].mode == ModeFor(files[k].content)
        && (files[k].filename, files[k].revId) in r.st.blobMarks
        && r.value[k].mark == r.st.blobMarks[(files[k].filename, files[k].revId)]
        && 1 <= r.value[k].mark < r.st.nextMark
    decreases |files|
  {
    if |files| > 0 {
      var r := EmitBlobs(st, files);
      var f := files[0];
      var b := EmitBlob(st, f.filename, f.revId, f.content);
      var rest := EmitBlobs(b.st, files[1..]);
      assert r.value == [Entry(f.filename, b.value, ModeFor(f.content))] + rest.value && r.st == rest.st;
      BlobsEntries(b.st, files[1..]);
      BlobsKeep(b.st, files[1..]);
      assert (f.filename, f.revId) in b.st.blobMarks && b.st.blobMarks[(f.filename, f.revId)] == b.value;
      forall k | 0 < k < |files|
        ensures r.value[k] == rest.value[k - 1] && files[k] == files[1..][k - 1]
      {
      }
    }
  }

  // ---------------------------------------------------------------------------
  // Commits
  // ---------------------------------------------------------------------------

  /** The paths of some tree entries. */
  function Paths(entries: seq<Entry>): set<string> {
    set e | e in entries :: e.path
  }

  /**
    The `_last_commit_mark_for_file` update: every path of the commit now maps
    to the commit's mark; every other path keeps what it had.
   */
  function Touch(lc: map<string, nat>, entries: seq<Entry>, mark: nat): (r: map<string, nat>)
    ensures r.Keys == lc.Keys + Paths(entries)
    ensures forall p :: p in Paths(entries) ==> r[p] == mark
    ensures forall p :: p in lc && p !in Paths(entries) ==> r[p] == lc[p]
    decreases |entries|
  {
    if |entries| == 0 then lc
    else
      assert Paths(entries) == {entries[0].path} + Paths(entries[1..]) by {
        assert forall e :: e in entries <==> e == entries[0] || e in entries[1..];
      }
      Touch(lc[entries[0].path := mark], entries[1..], mark)
  }

  /**
    The answer of `git var GIT_COMMITTER_IDENT` as asked while writing the
    commit with a given mark. It is asked again for every commit: the answer
    carries the current time, so it can differ from commit to commit, and any
    one call can fail.
   */
  type GitVar = nat -> Option<string>

  /** The committer: the author, unless git reports an identity and the author is not to be the committer. */
  function CommitterOf(settings: Settings, answer: Option<string>): (c: Committer)
    ensures c.Ident? <==> !settings.authorIsCommitter && answer.Some?
    ensures c.Ident? ==> c.ident == Strip(answer.value)
  {
    if settings.authorIsCommitter then AsAuthor
    else match answer
      case Some(id) => Ident(Strip(id))
      case None => AsAuthor
  }

  /**
    `emit_commit`: the commit gets the next mark and a commit event (a parent
    of 0 counts as none), and the paths of its entries now point at it.
   */
  function EmitCommit(st: State, settings: Settings, gitIdent: GitVar, entries: seq<Entry>,
                      authorName: string, dateTs: int, message: string, parent: Option<nat>, tags: seq<string>)
    : (r: Emitted<Event>)
    requires Valid(st)
    requires forall k :: 0 <= k < |entries| ==> 1 <= entries[k].mark < st.nextMark
    ensures Valid(r.st)
    ensures r.value.Commit? && r.value.mark == st.nextMark && r.st.nextMark == st.nextMark + 1
    ensures r.events == [r.value]
    ensures r.value.entries == entries && r.value.tags == tags && r.value.message == message && r.value.dateTs == dateTs
    ensures r.value.parent == (if parent.Some? && parent.value != 0 then parent else None)
    ensures r.st.blobMarks == st.blobMarks && r.st.lastCommit == Touch(st.lastCommit, entries, r.value.mark)
    ensures authorName in r.st.authors && r.value.author == r.st.authors[authorName]
    ensures r.value.committer == CommitterOf(settings, gitIdent(r.value.mark))
  {
    var (mark, st1) := AllocMark(st);
    var (au, st2) := AuthorFor(st1, authorName);
    var from := if parent.Some? && parent.value != 0 then parent else None;
    var ev := Commit(mark, au, CommitterOf(settings, gitIdent(mark)), dateTs, message, from, entries, tags);
    Emitted(ev, st2.(lastCommit := Touch(st2.lastCommit, entries, mark)), [ev])
  }

  // ---------------------------------------------------------------------------
  // One coalesced commit
  // ---------------------------------------------------------------------------

  /** A commit to write: the `commit` dictionary of `emit_all`. */
  datatype Changeset = Changeset(dateTs: int, author: string, log: string, files: seq<FileCommit>, symbols: set<string>)

  /** The records of a group, as the commit dictionary holds them. */
  function ChangesetOf(recs: seq<FileCommit>, g: Group): (c: Changeset)
    requires Indices(recs, g.members)
    ensures |c.files| == |g.members| && forall k :: 0 <= k < |g.members| ==> c.files[k] == recs[g.members[k]]
  {
    Changeset(g.dateTs, g.author, g.log, seq(|g.members|, k requires 0 <= k < |g.members| => recs[g.members[k]]), g.symbols)
  }

  /** The non-zero last-commit marks of the files, in order. */
  function Candidates(lc: map<string, nat>, files: seq<FileCommit>): (cs: seq<nat>)
    ensures forall x :: x in cs <==> exists k :: 0 <= k < |files| && files[k].filename in lc && lc[files[k].filename] == x && x != 0
    decreases |files|
  {
    if |files| == 0 then []
    else
      var f := files[0].filename;
      var rest := Candidates(lc, files[1..]);
      assert forall k :: 0 < k < |files| ==> files[1..][k - 1] == files[k];
      if f in lc && lc[f] != 0 then [lc[f]] + rest else rest
  }

  /** The largest entry. */
  function MaxOf(xs: seq<nat>): (m: nat)
    requires |xs| > 0
    ensures m in xs && forall k :: 0 <= k < |xs| ==> xs[k] <= m
    decreases |xs|
  {
    if |xs| == 1 then xs[0]
    else
      var rest := MaxOf(xs[1..]);
      assert forall k :: 1 <= k < |xs| ==> xs[k] == xs[1..][k - 1];
      if xs[0] < rest then rest else xs[0]
  }

  /**
    The parent: the latest last-commit mark among the files, or none when no
    file has one.
   */
  function ParentOf(lc: map<string, nat>, files: seq<FileCommit>): (p: Option<nat>)
    ensures p.None? <==> forall k :: 0 <= k < |files| && files[k].filename in lc ==> lc[files[k].filename] == 0
    ensures p.Some? ==>
      && p.value != 0
      && (exists k :: 0 <= k < |files| && files[k].filename in lc && lc[files[k].filename] == p.value)
      && (forall k :: 0 <= k < |files| && files[k].filename in lc ==> lc[files[k].filename] <= p.value)
  {
    var cs := Candidates(lc, files);
    assert forall k :: 0 <= k < |files| && files[k].filename in lc ==> lc[files[k].filename] == 0 || lc[files[k].filename] in cs;
    if |cs| == 0 then None else Some(MaxOf(cs))
  }

  /**
    The commit message: the log, prefixed with `<file>: ` when file names are
    asked for and the commit has a single file.
   */
  function Message(settings: Settings, files: seq<FileCommit>, log: string): (m: string)
    ensures |log| <= |m| && m[|m| - |log|..] == log
    ensures m == log <==> !(settings.logFilename && |files| == 1)
    ensures m != log ==> m == files[0].filename + ": " + log
  {
    if settings.logFilename && |files| == 1 then files[0].filename + ": " + log else log
  }

  /** `tag_each_rev`: one reset per file, named by its revision, at the commit. */
  function RevTags(files: seq<FileCommit>, mark: nat): (evs: seq<Event>)
    ensures |evs| == |files| && forall k :: 0 <= k < |files| ==> evs[k] == TagReset(files[k].revId, mark)
  {
    seq(|files|, k requires 0 <= k < |files| => TagReset(files[k].revId, mark))
  }

  lemma {:induction false} RevTagsAllocate(evs: seq<Event>)
    requires forall k :: 0 <= k < |evs| ==> evs[k].TagReset?
    ensures Allocated(evs) == []
    decreases |evs|
  {
    if |evs| > 0 {
      RevTagsAllocate(evs[1..]);
    }
  }

  /**
    One iteration of `emit_all`: the parent from the files' last commits, the
    blobs and tree entries, the message, the tags in sorted order, the commit,
    and with `tag_each_rev` a reset per file.
   */
  function EmitChangeset(st: State, settings: Settings, gitIdent: GitVar, c: Changeset): (r: Emitted<Event>)
    requires Valid(st)
    ensures Valid(r.st) && r.value.Commit?
    ensures st.nextMark <= r.value.mark && r.st.nextMark == r.value.mark + 1
  {
    var parent := ParentOf(st.lastCommit, c.files);
    var blobs := EmitBlobs(st, c.files);
    BlobsEntries(st, c.files);
    var commit := EmitCommit(blobs.st, settings, gitIdent, blobs.value, c.author, c.dateTs,
                             Message(settings, c.files, c.log), parent, SortedStrings(c.symbols));
    Emitted(commit.value, commit.st, blobs.events + commit.events + Tags(settings, c.files, commit.value.mark))
  }

  /** The resets written after a commit: one per record with `--tag-each-rev`, none otherwise. */
  function Tags(settings: Settings, files: seq<FileCommit>, mark: nat): (evs: seq<Event>)
    ensures |evs| == if settings.tagEachRev then |files| else 0
    ensures forall k :: 0 <= k < |evs| ==> evs[k] == TagReset(files[k].revId, mark)
  {
    if settings.tagEachRev then RevTags(files, mark) else []
  }

  /** A changeset writes its blobs, then its commit, then its resets. */
  lemma ChangesetParts(st: State, settings: Settings, gitIdent: GitVar, c: Changeset)
    requires Valid(st)
    ensures var r := EmitChangeset(st, settings, gitIdent, c);
      var blobs := EmitBlobs(st, c.files);
      && r.events == blobs.events + [r.value] + Tags(settings, c.files, r.value.mark)
      && r.value.mark == blobs.st.nextMark && Extends(blobs.st, r.st)
  {
    BlobsEntries(st, c.files);
  }

  /** A commit's blobs and the commit take the marks from the old counter up to the new one, in order; known blob marks stay. */
  lemma ChangesetAllocate(st: State, settings: Settings, gitIdent: GitVar, c: Changeset)
    requires Valid(st)
    ensures var r := EmitChangeset(st, settings, gitIdent, c);
      Allocated(r.events) == Range(st.nextMark, r.st.nextMark) && Extends(st, r.st)
  {
    var r := EmitChangeset(st, settings, gitIdent, c);
    var blobs := EmitBlobs(st, c.files);
    ChangesetParts(st, settings, gitIdent, c);
    BlobsKeep(st, c.files);
    BlobsAllocate(st, c.files);
    PartsAllocate(blobs.events, r.value, Tags(settings, c.files, r.value.mark), r.events, st, blobs.st, r.st);
  }

  /** Blobs allocated from the old counter, the commit at the next mark, and resets: the marks up to the new counter. */
  lemma PartsAllocate(blobs: seq<Event>, commit: Event, extra: seq<Event>, evs: seq<Event>, s0: State, s1: State, s2: State)
    requires evs == blobs + [commit] + extra
    requires s0.nextMark <= s1.nextMark && Allocated(blobs) == Range(s0.nextMark, s1.nextMark)
    requires commit.Commit? && commit.mark == s1.nextMark && s2.nextMark == commit.mark + 1
    requires forall k :: 0 <= k < |extra| ==> extra[k].TagReset?
    requires Extends(s0, s1) && Extends(s1, s2)
    ensures Allocated(evs) == Range(s0.nextMark, s2.nextMark) && Extends(s0, s2)
  {
    CommitAllocates(blobs, commit, extra, s0.nextMark, s1.nextMark);
  }

  /** Blobs with the marks from `lo` to `hi`, the commit with mark `hi`, and resets: the marks from `lo` to `hi + 1`. */
  lemma CommitAllocates(blobs: seq<Event>, commit: Event, extra: seq<Event>, lo: nat, hi: nat)
    requires lo <= hi && Allocated(blobs) == Range(lo, hi)
    requires commit.Commit? && commit.mark == hi
    requires forall k :: 0 <= k < |extra| ==> extra[k].TagReset?
    ensures Allocated(blobs + [commit] + extra) == Range(lo, hi + 1)
  {
    assert Allocated([commit]) == [hi] by {
      assert [commit][1..] == [];
    }
    RangeOne(hi);
    AllocatedAppend(blobs, [commit]);
    RangeAppend(lo, hi, hi + 1);
    RevTagsAllocate(extra);
    AllocatedAppend(blobs + [commit], extra);
  }

  /**
    The parent is the latest last-commit mark among the commit's files, or
    none when none of them has been committed, and it comes before the commit.
   */
  lemma ChangesetParent(st: State, settings: Settings, gitIdent: GitVar, c: Changeset)
    requires Valid(st)
    ensures var r := EmitChangeset(st, settings, gitIdent, c);
      && r.value.parent == ParentOf(st.lastCommit, c.files)
      && (r.value.parent.Some? ==> r.value.parent.value < r.value.mark)
  {
  }

  /**
    The tree has one entry per file, in order: its path, the blob the table
    holds for its revision, and mode 755 exactly when its content starts
    with `#!` (644 otherwise).
   */
  lemma ChangesetTree(st: State, settings: Settings, gitIdent: GitVar, c: Changeset)
    requires Valid(st)
    ensures var r := EmitChangeset(st, settings, gitIdent, c);
      && |r.value.entries| == |c.files|
      && forall k :: 0 <= k < |c.files| ==>
        && r.value.entries[k].path == c.files[k].filename
        && (c.files[k].filename, c.files[k].revId) in r.st.blobMarks
        && r.value.entries[k].mark == r.st.blobMarks[(c.files[k].filename, c.files[k].revId)]
        && (r.value.entries[k].mode == "755" <==> StartsWith(c.files[k].content, "#!"))
        && (r.value.entries[k].mode == "644" <==> !StartsWith(c.files[k].content, "#!"))
  {
    BlobsEntries(st, c.files);
  }

  /**
    The commit carries the changeset's date, the mapped identity of its
    author, the message with the file name prefixed exactly for a single file
    under `log_filename`, and as tags the changeset's symbols, sorted and each
    once.
   */
  lemma ChangesetText(st: State, settings: Settings, gitIdent: GitVar, c: Changeset)
    requires Valid(st)
    ensures var r := EmitChangeset(st, settings, gitIdent, c);
      && r.value.dateTs == c.dateTs
      && c.author in r.st.authors && r.value.author == r.st.authors[c.author]
      && (c.author in st.authors ==> r.value.author == st.authors[c.author])
      && r.value.committer == CommitterOf(settings, gitIdent(r.value.mark))
      && (r.value.message == c.log <==> !(settings.logFilename && |c.files| == 1))
      && (r.value.message != c.log ==> r.value.message == c.files[0].filename + ": " + c.log)
      && StrictlySorted(r.value.tags) && (forall t :: t in r.value.tags <==> t in c.symbols)
  {
    BlobsKeep(st, c.files);
    SortedStringsSorted(c.symbols);
  }

  /**
    The events: the new blobs, then the commit, then (with `tag_each_rev`)
    one reset per file named by its revision and pointing at the commit.
   */
  lemma ChangesetEvents(st: State, settings: Settings, gitIdent: GitVar, c: Changeset)
    requires Valid(st)
    ensures var r := EmitChangeset(st, settings, gitIdent, c);
      CommitLayout(r.events, r.value, settings.tagEachRev, c.files)
  {
    var r := EmitChangeset(st, settings, gitIdent, c);
    var blobs := EmitBlobs(st, c.files);
    ChangesetParts(st, settings, gitIdent, c);
    BlobsEvents(st, c.files);
    TagsLayout(blobs.events, r.value, settings, c.files);
  }

  /** Blobs, then `commit`, then (when `tagged`) the resets of `RevTags`: one per record, named by its revision and pointing at the commit. */
  predicate CommitLayout(evs: seq<Event>, commit: Event, tagged: bool, files: seq<FileCommit>) {
    var n := if tagged then |files| else 0;
    && |evs| > n && evs[|evs| - n - 1] == commit
    && (forall k :: 0 <= k < |evs| - n - 1 ==> evs[k].Blob?)
    && (tagged ==> evs[|evs| - n..] == RevTags(files, commit.mark))
  }

  /** Blobs, a commit and its resets are laid out as `CommitLayout` says. */
  lemma TagsLayout(blobs: seq<Event>, commit: Event, settings: Settings, files: seq<FileCommit>)
    requires forall e :: e in blobs ==> e.Blob?
    ensures CommitLayout(blobs + [commit] + Tags(settings, files, commit.mark), commit, settings.tagEachRev, files)
  {
    var extra := Tags(settings, files, commit.mark);
    EventsLayout(blobs, commit, extra);
  }

  /** Where the commit and the resets sit in `blobs + [commit] + extra`. */
  lemma EventsLayout(blobs: seq<Event>, commit: Event, extra: seq<Event>)
    requires forall e :: e in blobs ==> e.Blob?
    ensures var evs := blobs + [commit] + extra;
      && |evs| > |extra| && evs[|evs| - |extra| - 1] == commit
      && (forall k :: 0 <= k < |evs| - |extra| - 1 ==> evs[k].Blob?)
      && evs[|evs| - |extra|..] == extra
  {
    var evs := blobs + [commit] + extra;
    assert evs[|evs| - |extra|..] == extra;
    forall k | 0 <= k < |evs| - |extra| - 1 ensures evs[k].Blob? {
      assert evs[k] == blobs[k];
      assert blobs[k] in blobs;
    }
  }

  /** The file names of some records. */
  function Names(files: seq<FileCommit>): set<string> {
    set f | f in files :: f.filename
  }

  /**
    Afterwards each file of the commit has the commit as its last commit, and
    every other path keeps its last commit (or still has none).
   */
  lemma ChangesetLastCommit(st: State, settings: Settings, gitIdent: GitVar, c: Changeset)
    requires Valid(st)
    ensures var r := EmitChangeset(st, settings, gitIdent, c);
      && r.st.lastCommit.Keys == st.lastCommit.Keys + Names(c.files)
      && (forall p :: p in Names(c.files) ==> r.st.lastCommit[p] == r.value.mark)
      && (forall p :: p in st.lastCommit && p !in Names(c.files) ==> r.st.lastCommit[p] == st.lastCommit[p])
  {
    var r := EmitChangeset(st, settings, gitIdent, c);
    BlobsKeep(st, c.files);
    ChangesetTree(st, settings, gitIdent, c);
    PathsOfEntries(r.value.entries, c.files);
  }

  /** Entries naming the files' paths, one each in order, cover exactly the files' names. */
  lemma PathsOfEntries(entries: seq<Entry>, files: seq<FileCommit>)
    requires |entries| == |files| && forall k :: 0 <= k < |files| ==> entries[k].path == files[k].filename
    ensures Paths(entries) == Names(files)
  {
    forall p | p in Names(files) ensures p in Paths(entries) {
      var f :| f in files && f.filename == p;
      var k :| 0 <= k < |files| && files[k] == f;
      assert entries[k] in entries;
    }
    forall p | p in Paths(entries) ensures p in Names(files) {
      var e :| e in entries && e.path == p;
      var k :| 0 <= k < |entries| && entries[k] == e;
      assert files[k] in files;
    }
  }

  // ---------------------------------------------------------------------------
  // Blobs are written once
  // ---------------------------------------------------------------------------

  /** The blobs among `evs` were not in the table of `before` and are in the table of `after`, under their marks. */
  predicate NewBlobs(evs: seq<Event>, before: State, after: State) {
    forall e :: e in evs && e.Blob? ==>
      && (e.file, e.rev) !in before.blobMarks
      && (e.file, e.rev) in after.blobMarks && after.blobMarks[(e.file, e.rev)] == e.mark
  }

  /** No (file, revision) is written as a blob twice. */
  predicate OnceEach(evs: seq<Event>) {
    forall i, j :: 0 <= i < j < |evs| && evs[i].Blob? && evs[j].Blob? ==> (evs[i].file, evs[i].rev) != (evs[j].file, evs[j].rev)
  }

  lemma SpliceBlobs(a: seq<Event>, b: seq<Event>, s0: State, s1: State, s2: State)
    requires NewBlobs(a, s0, s1) && NewBlobs(b, s1, s2) && OnceEach(a) && OnceEach(b)
    requires Extends(s0, s1) && Extends(s1, s2)
    ensures NewBlobs(a + b, s0, s2) && OnceEach(a + b)
  {
    var ab := a + b;
    forall e | e in ab && e.Blob?
      ensures (e.file, e.rev) !in s0.blobMarks
      ensures (e.file, e.rev) in s2.blobMarks && s2.blobMarks[(e.file, e.rev)] == e.mark
    {
      if e !in a {
        assert e in b;
      }
    }
    forall i, j | 0 <= i < j < |ab| && ab[i].Blob? && ab[j].Blob?
      ensures (ab[i].file, ab[i].rev) != (ab[j].file, ab[j].rev)
    {
      if i < |a| && j >= |a| {
        assert ab[i] == a[i] && a[i] in a;
        assert ab[j] == b[j - |a|] && b[j - |a|] in b;
      } else if i >= |a| {
        assert ab[i] == b[i - |a|] && ab[j] == b[j - |a|];
      } else {
        assert ab[i] == a[i] && ab[j] == a[j];
      }
    }
  }

  /** The blobs of one commit's files are new, recorded, and each written once. */
  lemma {:induction false} BlobsOnce(st: State, files: seq<FileCommit>)
    requires Valid(st)
    ensures var r := EmitBlobs(st, files);
      NewBlobs(r.events, st, r.st) && OnceEach(r.events) && Extends(st, r.st)
    decreases |files|
  {
    BlobsKeep(st, files);
    if |files| > 0 {
      var f := files[0];
      var b := EmitBlob(st, f.filename, f.revId, f.content);
      var rest := EmitBlobs(b.st, files[1..]);
      assert EmitBlobs(st, files).events == b.events + rest.events && EmitBlobs(st, files).st == rest.st;
      BlobsOnce(b.st, files[1..]);
      assert NewBlobs(b.events, st, b.st) && OnceEach(b.events) && Extends(st, b.st);
      SpliceBlobs(b.events, rest.events, st, b.st, rest.st);
    }
  }

  /** The blobs one commit writes are new, recorded, and each written once. */
  lemma ChangesetOnce(st: State, settings: Settings, gitIdent: GitVar, c: Changeset)
    requires Valid(st)
    ensures var r := EmitChangeset(st, settings, gitIdent, c);
      NewBlobs(r.events, st, r.st) && OnceEach(r.events) && Extends(st, r.st)
  {
    var r := EmitChangeset(st, settings, gitIdent, c);
    var blobs := EmitBlobs(st, c.files);
    var extra := Tags(settings, c.files, r.value.mark);
    ChangesetParts(st, settings, gitIdent, c);
    assert forall e :: e in extra ==> !e.Blob?;
    assert NewBlobs(blobs.events, st, blobs.st) && OnceEach(blobs.events) && Extends(st, blobs.st) by {
      BlobsOnce(st, c.files);
    }
    SpliceCommit(blobs.events, r.value, extra, st, blobs.st, r.st);
  }

  /** A commit and resets after new blobs add no blob. */
  lemma SpliceCommit(blobs: seq<Event>, commit: Event, extra: seq<Event>, s0: State, s1: State, s2: State)
    requires NewBlobs(blobs, s0, s1) && OnceEach(blobs) && Extends(s0, s1) && Extends(s1, s2)
    requires !commit.Blob? && forall e :: e in extra ==> !e.Blob?
    ensures NewBlobs(blobs + [commit] + extra, s0, s2) && OnceEach(blobs + [commit] + extra)
  {
    var evs := blobs + [commit] + extra;
    forall k | |blobs| <= k < |evs| ensures !evs[k].Blob? {
      if k > |blobs| {
        assert evs[k] == extra[k - |blobs| - 1] && extra[k - |blobs| - 1] in extra;
      }
    }
    forall k | 0 <= k < |blobs| ensures evs[k] == blobs[k] { }
    forall e | e in evs && e.Blob? ensures e in blobs {
      var k :| 0 <= k < |evs| && evs[k] == e;
    }
  }

  // ---------------------------------------------------------------------------
  // The whole stream
  // ---------------------------------------------------------------------------

  /** `emit_all`: every changeset in order; the value is the list of commit events. */
  function EmitAll(st: State, settings: Settings, gitIdent: GitVar, cs: seq<Changeset>): (r: Emitted<seq<Event>>)
    requires Valid(st)
    ensures Valid(r.st) && |r.value| == |cs| && st.nextMark <= r.st.nextMark
    decreases |cs|
  {
    if |cs| == 0 then Emitted([], st, [])
    else
      var one := EmitChangeset(st, settings, gitIdent, cs[0]);
      var rest := EmitAll(one.st, settings, gitIdent, cs[1..]);
      Emitted([one.value] + rest.value, rest.st, one.events + rest.events)
  }

  /** The commits of the stream: marks rising within the stream's range, each parent before its commit. */
  lemma {:induction false} AllCommits(st: State, settings: Settings, gitIdent: GitVar, cs: seq<Changeset>)
    requires Valid(st)
    ensures var r := EmitAll(st, settings, gitIdent, cs);
      CommitsWithin(r.value, st.nextMark, r.st.nextMark)
    decreases |cs|
  {
    if |cs| > 0 {
      var one := EmitChangeset(st, settings, gitIdent, cs[0]);
      var rest := EmitAll(one.st, settings, gitIdent, cs[1..]);
      var r := EmitAll(st, settings, gitIdent, cs);
      assert r.value == [one.value] + rest.value && r.st == rest.st;
      assert one.value.Commit? && st.nextMark <= one.value.mark < rest.st.nextMark
        && (one.value.parent.Some? ==> one.value.parent.value < one.value.mark) by {
        ChangesetParent(st, settings, gitIdent, cs[0]);
      }
      assert CommitsWithin(rest.value, one.value.mark + 1, rest.st.nextMark) by {
        AllCommits(one.st, settings, gitIdent, cs[1..]);
      }
      CommitsCons(one.value, rest.value, st.nextMark, rest.st.nextMark);
    }
  }

  lemma CommitsCons(c: Event, rest: seq<Event>, lo: nat, hi: nat)
    requires c.Commit? && lo <= c.mark < hi && (c.parent.Some? ==> c.parent.value < c.mark)
    requires CommitsWithin(rest, c.mark + 1, hi)
    ensures CommitsWithin([c] + rest, lo, hi)
  {
    assert ([c] + rest)[1..] == rest;
  }

  /**
    Commit events with marks rising from `lo` and below `hi`, each parent
    before its commit.
   */
  predicate CommitsWithin(commits: seq<Event>, lo: nat, hi: nat)
    decreases |commits|
  {
    || |commits| == 0
    || (&& commits[0].Commit? && lo <= commits[0].mark < hi
        && (commits[0].parent.Some? ==> commits[0].parent.value < commits[0].mark)
        && CommitsWithin(commits[1..], commits[0].mark + 1, hi))
  }

  /** What `CommitsWithin` says, commit by commit and pair by pair. */
  lemma {:induction false} CommitsOrdered(commits: seq<Event>, lo: nat, hi: nat)
    requires CommitsWithin(commits, lo, hi)
    ensures forall k :: 0 <= k < |commits| ==>
      && commits[k].Commit? && lo <= commits[k].mark < hi
      && (commits[k].parent.Some? ==> commits[k].parent.value < commits[k].mark)
    ensures forall i, j :: 0 <= i < j < |commits| ==> commits[i].mark < commits[j].mark
    decreases |commits|
  {
    if |commits| > 0 {
      var rest := commits[1..];
      CommitsOrdered(rest, commits[0].mark + 1, hi);
      forall k | 1 <= k < |commits| ensures commits[k] == rest[k - 1] { }
    }
  }

  /** The stream's marks are consecutive: from the counter at the start (1 for a fresh emitter) up to the one at the end. */
  lemma {:induction false} AllAllocate(st: State, settings: Settings, gitIdent: GitVar, cs: seq<Changeset>)
    requires Valid(st)
    ensures var r := EmitAll(st, settings, gitIdent, cs);
      Allocated(r.events) == Range(st.nextMark, r.st.nextMark)
    decreases |cs|
  {
    if |cs| > 0 {
      var one := EmitChangeset(st, settings, gitIdent, cs[0]);
      var rest := EmitAll(one.st, settings, gitIdent, cs[1..]);
      assert EmitAll(st, settings, gitIdent, cs).events == one.events + rest.events;
      ChangesetAllocate(st, settings, gitIdent, cs[0]);
      AllAllocate(one.st, settings, gitIdent, cs[1..]);
      AllocatedAppend(one.events, rest.events);
      RangeAppend(st.nextMark, one.st.nextMark, rest.st.nextMark);
    }
  }

  /** Across the whole stream no (file, revision) is written as a blob twice. */
  lemma {:induction false} AllOnce(st: State, settings: Settings, gitIdent: GitVar, cs: seq<Changeset>)
    requires Valid(st)
    ensures var r := EmitAll(st, settings, gitIdent, cs);
      NewBlobs(r.events, st, r.st) && OnceEach(r.events) && Extends(st, r.st)
    decreases |cs|
  {
    if |cs| > 0 {
      var one := EmitChangeset(st, settings, gitIdent, cs[0]);
      var rest := EmitAll(one.st, settings, gitIdent, cs[1..]);
      assert EmitAll(st, settings, gitIdent, cs).events == one.events + rest.events;
      ChangesetOnce(st, settings, gitIdent, cs[0]);
      AllOnce(one.st, settings, gitIdent, cs[1..]);
      SpliceBlobs(one.events, rest.events, st, one.st, rest.st);
    }
  }
}
