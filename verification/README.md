# rcs2git, modelled in Dafny

`rcs2git.py` converts RCS `,v` files into one linear git history, written as a
`git fast-import` stream. This project models the pure core of that conversion
and proves properties of it. The core has five parts:

- **RCS dates** (`rcs_date.dfy`). `parse_rcs_date` reads `YYYY.MM.DD.HH.MM.SS`
  as UTC epoch seconds. A year of one or two characters gets `19` in front.
  Fields after the sixth are ignored. `int()` is written out for ASCII digits
  (see "Left out"), and `datetime`'s calendar rules as integer day counting.
- **`rlog` output** (`rlog.dfy`, `rlog_render.dfy`). `parse_rlog` runs from
  `splitlines()` onward:
  - the header's symbol table;
  - the revision blocks (`date:`/`branches:`/`symbols:` lines and the log body);
  - the reversal to oldest-first order;
  - the attachment of header symbols to revisions.

  `rlog_render.dfy` writes text in the shape `parse_rlog` reads: an optional
  `symbols:` header line, then revision blocks whose log bodies end with a
  `text` line (a marker borrowed from the `,v` format, not something `rlog`
  prints). It proves that reading that text gives the revisions and the symbol
  table back.

  The parser comes in two modes. `AsWritten` is `parse_rlog` as it stands.
  `EndAtRevision` is the corrected parser of the "Findings" section. The
  pipeline takes the mode as a parameter.
- **Single-file commits** (`commits.dfy`). `SingleFileCommit` fills in the
  defaults: author `unknown`, the clock for a missing date. This file also
  holds the `--skip-branches` filter and the flattening of all histories into
  one list sorted by date.
- **Coalescing** (`coalesce.dfy`). `coalesce_commits` is a forward scan from an
  anchor record. It works within a time window. A record joins the group when
  it has the same author and log as the anchor, a symbol set comparable with the
  group's, and a file the group does not touch yet. The next anchor is one past
  the highest member. Groups hold record indices. This file also has the
  one-commit-per-record path that `main` takes for a single history.
- **Emission** (`emitter.dfy`, `pipeline.dfy`). `FastImportEmitter` and
  `emit_all`:
  - marks from one counter;
  - a blob table keyed by (file, revision);
  - the last commit of each path;
  - parent, mode, message and tag decisions.

  The stream is a list of abstract events. The emitter's state is a value
  threaded through every step. `pipeline.dfy` puts `main`'s steps together.

Subprocess output (`rlog`, `co`, `git var`), the clock and the author table are
parameters.

Modules are one per file: `Wrappers`, `Text`, `RcsDate`, `Rlog`, `RlogRender`,
`Commits`, `Coalesce`, `Emitter` and `Pipeline`. `Text` models the Python
string operations the program relies on: `strip`, `split`, `join`, `split()`
into words, and `sorted` on a set of strings.

## Model

| member | source | states |
|---|---|---|
| Text.Strip | rcs2git.py:161 | the result neither starts nor ends with white space and is no longer than the input |
| Text.TrimRight | rcs2git.py:274 | `rstrip()` keeps the first character, drops only white space from the end, and leaves no white space at the end |
| Text.TrimRightPrefix | rcs2git.py:274 | `rstrip()` returns a prefix of its argument |
| Text.StripChars | rcs2git.py:161 | `strip()` only removes characters: every character of the result is one of the input |
| Text.StripAfterSpace | rcs2git.py:161 | leading white space does not change what `strip()` returns |
| Text.Split | rcs2git.py:214 | `str.split(sep)` returns at least one piece, no piece contains the separator, and joining the pieces with it gives the text back |
| Text.SplitJoin | rcs2git.py:214 | splitting a join of separator-free pieces finds those pieces again |
| Text.Reverse | rcs2git.py:293 | `reversed` puts element `i` at position `n - 1 - i` |
| Text.Words | rcs2git.py:204 | `str.split()` returns non-empty words without white space |
| Text.WordsSpaceAny | rcs2git.py:204 | `str.split()` skips a leading white-space character of any kind |
| Text.SplitCount | rcs2git.py:45 | `split('.')` gives one more piece than there are dots |
| Text.StripCount | rcs2git.py:45 | `strip()` keeps every character that is not white space, as often as it occurs |
| Text.WordsOfJoin | rcs2git.py:229 | the words of words joined by single spaces are those words |
| Text.SortedStrings | rcs2git.py:634 | `sorted(set)` holds exactly the members of the set, once each |
| Text.SortedStringsSorted | rcs2git.py:634 | `sorted(set)` is in strictly increasing code-point order |
| Text.StrLeTotal | rcs2git.py:634 | Python's string order is total |
| RcsDate.ParseIntDigits | rcs2git.py:53 | `int()` of a run of ASCII digits is its decimal value |
| RcsDate.ParseIntPadTo | rcs2git.py:53 | `int()` reads a zero-padded numeral back as its number |
| RcsDate.ParseIntNegative | rcs2git.py:53 | `int()` applies a leading minus sign |
| RcsDate.ParseInt | rcs2git.py:54 | `int()`; characterized by RcsDate.ParseIntDigits, RcsDate.ParseIntPadTo, RcsDate.ParseIntNegative and RcsDate.ParseIntNeedsDigit |
| RcsDate.ParseIntNeedsDigit | rcs2git.py:54 | `int()` rejects text without an ASCII digit, blank text included |
| RcsDate.DaysBeforeYearCounts | rcs2git.py:55-67 | the closed formula for days before a year equals counting the days year by year |
| RcsDate.EpochDayIs1970 | rcs2git.py:55-67 | 1970-01-01 00:00:00 UTC is epoch second 0 |
| RcsDate.EpochSecondsMonotone | rcs2git.py:55-67 | a later valid date gets a strictly larger timestamp, so timestamps are one-to-one |
| RcsDate.ToStamp | rcs2git.py:55-65 | `datetime(...)` succeeds exactly on a valid calendar date and time |
| RcsDate.AllPresentOf | rcs2git.py:54 | `list(map(int, ...))` succeeds exactly when every field parses, and then holds their values |
| RcsDate.YearFieldParses | rcs2git.py:50-54 | a year field gets `19` in front when shorter than 3 characters: one digit d reads as year 19d (190–199), two digits dd as 19dd, a longer field as itself |
| RcsDate.ParseRcsDateFields | rcs2git.py:45-69 | six all-digit fields give the epoch second of the date they name, or `now` when they name no valid date |
| RcsDate.ParseRcsDateRoundTrip | rcs2git.py:45-69 | a valid date written as RCS writes it reads back as its timestamp |
| RcsDate.ParseRcsDate | rcs2git.py:39-69 | `parse_rcs_date`; characterized by RcsDate.ParseRcsDateFields, RcsDate.ParseRcsDateRoundTrip, RcsDate.ParseRcsDateFallback, RcsDate.ParseRcsDateExtra and RcsDate.ParseRcsDateBadField |
| RcsDate.ParseRcsDateFallback | rcs2git.py:45-51 | text with fewer than five dots, so fewer than six fields, goes unchanged to the ISO parser, and gets `now` when that fails |
| RcsDate.ParseRcsDateExtra | rcs2git.py:45-54 | a well-formed date followed by more dot-separated text reads as the date alone: fields after the sixth are ignored |
| RcsDate.ParseRcsDateBadField | rcs2git.py:53-69 | any of the first six fields that `int()` rejects, the year counted with its `19` prefix, makes the result `now` |
| RcsDate.ParseRcsDateExamples | rcs2git.py:39-69 | "99.12.31.23.59.59" is 946684799, and two four-digit-year dates give their timestamps |
| Rlog.ReadLines | rcs2git.py:149 | one line per input line, each paired with its `strip()` |
| Rlog.HeaderLength | rcs2git.py:157-198 | the header ends at the first line starting `revision ` or at the end |
| Rlog.HeaderHasNoRevisionLine | rcs2git.py:193-198 | no header line is a revision line |
| Rlog.AddPairs | rcs2git.py:185-191 | the table's names afterwards are its old names and the names the pairs mention |
| Rlog.AddPairsLast | rcs2git.py:185-191 | a name takes the value of its last pair on the line, and a name the line does not mention keeps its value |
| Rlog.HeaderTable | rcs2git.py:157-198 | the header's symbol table; characterized by RlogRender.SymbolLineTable and RlogRender.ParseRenderSymbols |
| Rlog.Continue | rcs2git.py:175-183 | a symbol list continues on the next lines; characterized by Rlog.ContinueTakes, Rlog.ContinueOneLine and Rlog.HeaderSymbolsBroken |
| Rlog.ContinueTakes | rcs2git.py:175-183 | the continuation appends the first `k` lines, each after a space, where `k` is the first point at which the list is closed (it holds no `;`, or its strip ends with one), the lines run out, or the next line starts with the stop word |
| Rlog.ContinueOneLine | rcs2git.py:244-252 | an open list is finished by one next line ending in `;`, which is appended after a space; the joined list does not continue |
| Rlog.HeaderSymbolsBroken | rcs2git.py:166-191 | a `symbols:` header line broken after a `;` and finished on the next line gives the same table as the two lines joined by a space |
| Rlog.PairOf | rcs2git.py:186-190 | a pair splits at its first colon |
| Rlog.DateFields | rcs2git.py:214-230 | the fields of a `date:` line keep the revision's label, symbols and log |
| Rlog.Branches | rcs2git.py:225-236 | a `branches:` value changes only the branches |
| Rlog.LogLines | rcs2git.py:265-273 | the log body is the lines before the first line starting `text` or `revision`, and nothing else is taken |
| Rlog.LogLineStep | rcs2git.py:260-275 | a `log` line takes its body, joined with newlines and right-stripped, as the log |
| Rlog.DateLineStep | rcs2git.py:211-231 | a `date:` line is one line, read field by field |
| Rlog.BranchesLineStep | rcs2git.py:232-238 | a `branches:` line is one line that sets the branches |
| Rlog.RevisionLineShape | rcs2git.py:208-285 | inside a block `parse_rlog` as written skips a revision line, while the corrected parser ends the block there |
| Rlog.BlockGoes | rcs2git.py:208-285 | a line that does not end the block adds its fields, and the block goes on after it |
| Rlog.BlockEnds | rcs2git.py:277-284 | a line that ends the block (a blank, `-----`, `=====` or `text` line, consumed with it) adds nothing to the revision |
| Rlog.Blocks | rcs2git.py:200-290 | the revision blocks; characterized by Rlog.BlocksAtRevision, Rlog.BlocksLabels, Rlog.BlocksAtMostRevisionLines and RlogRender.BlocksOfRender |
| Rlog.BlocksAtRevision | rcs2git.py:201-207 | a revision line opens a block, labelled with its second word |
| Rlog.BlockHasNoRevisionLine | rcs2git.py:208-285 | in the corrected parser, a block never consumes a revision line |
| Rlog.BlocksLabels | rcs2git.py:201-290 | the corrected parser makes one revision per revision line, in order, with that line's label |
| Rlog.BlocksAtMostRevisionLines | rcs2git.py:201-290 | both parsers make at most one revision per revision line |
| Rlog.AttachNameSpec | rcs2git.py:297-300 | a header name goes on the first revision with its label, and on no other |
| Rlog.Attached | rcs2git.py:295-300 | the attachment of header symbols; characterized by Rlog.AttachedSpec |
| Rlog.AttachedSpec | rcs2git.py:295-300 | each revision gains exactly the header names pointing at its label, when it is the first with that label; the order of the table does not matter |
| Rlog.FilenameOf | rcs2git.py:150 | `dir/name,v` becomes `name` |
| Rlog.ParseRlogAsWritten | rcs2git.py:149-301 | `parse_rlog` as written; characterized by Rlog.ParseAtMostRevisions, Rlog.SwallowedRevision and RlogRender.ParseRender |
| Rlog.ParseRlog | rcs2git.py:149-301 | the corrected parser; characterized by Rlog.ParseRlogRevisions and RlogRender.ParseRender |
| Rlog.ParseRlogRevisions | rcs2git.py:149-301 | the corrected parser's revisions are the revision blocks in reverse order of appearance |
| Rlog.ParseAtMostRevisions | rcs2git.py:149-301 | in either mode the parser never reports more revisions than there are revision lines |
| Rlog.SwallowedRevision | rcs2git.py:260-285 | a log body that no `text` line closes makes `parse_rlog` as written lose the next revision, while the corrected parser keeps it |
| Rlog.ParseCount | rcs2git.py:289-293 | the parser reports one revision per block |
| RlogRender.BlockOfRender | rcs2git.py:201-285 | a rendered block reads back as its revision, and reading resumes at the next block |
| RlogRender.BlocksOfRender | rcs2git.py:201-290 | rendered blocks read back as their revisions, in order, in both modes |
| RlogRender.HeaderOfRender | rcs2git.py:157-198 | rendered text has no header lines |
| RlogRender.AttachedNothing | rcs2git.py:295-300 | with no header symbols, attaching changes nothing |
| RlogRender.ParseRender | rcs2git.py:149-301 | text in the shape the parser reads, holding some revisions newest first, parses back to those revisions oldest first, in both modes |
| RlogRender.PairOfEntry | rcs2git.py:185-191 | a written `name:rev` entry, with or without a space before it, reads back as that name and revision |
| RlogRender.LastPairOf | rcs2git.py:185-191 | the parser's last entry for a name is the last one written for it |
| RlogRender.HeaderOfSymbolLine | rcs2git.py:166-191 | a written `symbols:` line ends with `;`, so it does not continue, and its entries go to the table one by one |
| RlogRender.SymbolLineTable | rcs2git.py:157-191 | a written `symbols:` line sets each name to the revision of its last entry and leaves every other name as it was |
| RlogRender.ParseRenderSymbols | rcs2git.py:149-301 | text with a `symbols:` header reads back, in both modes, as the revisions oldest first, with the header's table (each name to its last entry's revision) attached to them |
| Commits.Normalize | rcs2git.py:318-327 | a missing or empty author becomes `unknown`, a missing or zero date becomes the clock, and every other field is kept |
| Commits.NormalizeComplete | rcs2git.py:322-324 | the defaults change nothing on a record that already has an author and a date |
| Commits.NormalizeIdempotent | rcs2git.py:322-324 | normalizing a normalized record again gives it back |
| Commits.SkipBranches | rcs2git.py:487-489 | the kept revisions are exactly those naming no branch |
| Commits.SkipBranchesAppend | rcs2git.py:487-489 | the filter keeps order |
| Commits.SkipBranchesNone | rcs2git.py:487-489 | without branch revisions nothing is dropped |
| Commits.SkipBranchesIdempotent | rcs2git.py:487-489 | filtering twice is filtering once |
| Commits.Collected | rcs2git.py:487-499 | the filter applies only to files found in a directory walk |
| Commits.ContentOf | rcs2git.py:519-525 | a failed `co` gives the empty text; characterized by Commits.RecordContent |
| Commits.RecordContent | rcs2git.py:519-527 | the record of a revision carries `co`'s text for that file and revision, or the empty text when `co` failed |
| Commits.FileCommitsOf | rcs2git.py:517-529 | one record per revision of the history, in order |
| Commits.AllFileCommits | rcs2git.py:517-530 | one record per revision of all histories |
| Commits.AllFileCommitsFrom | rcs2git.py:517-530 | every record is a revision of some history, with its file name and path |
| Commits.InsertByDate | rcs2git.py:531 | insertion keeps date order and adds exactly the new record |
| Commits.SortByDate | rcs2git.py:531 | the sort orders by date and is a permutation of its input |
| Commits.SortStable | rcs2git.py:531 | the sort is stable: for every date, the records of that date keep their input order |
| Commits.BuildFileCommits | rcs2git.py:514-532 | all records of all histories, one per revision, in date order |
| Commits.BuildComplete | rcs2git.py:514-532 | with a non-zero clock, every record has an author and a date |
| Coalesce.SymbolsOf | rcs2git.py:553-581 | the group symbols hold every member's symbols |
| Coalesce.SymbolsOfExactly | rcs2git.py:553-581 | a symbol is in the group's symbols exactly when some member carries it |
| Coalesce.FilenamesOf | rcs2git.py:575 | a name is in the set exactly when some member has that file |
| Coalesce.WindowEnd | rcs2git.py:555-559 | the scan stops at the first record more than `fuzz` seconds after the anchor, or at the end |
| Coalesce.ScanStep | rcs2git.py:555-582 | one more candidate keeps the scan invariant: the members are the anchor and exactly the accepted candidates |
| Coalesce.Scan | rcs2git.py:555-582 | the inner loop ends at the window's end with the invariant, and the symbols are the members' union |
| Coalesce.GroupAt | rcs2git.py:551-590 | a group takes its date, author and log from its anchor; its members start at the anchor and increase; its symbols are the union of its members' |
| Coalesce.GroupAccepts | rcs2git.py:555-582 | the members are exactly the records within the window that pass the tests, given the members before them |
| Coalesce.GroupMembers | rcs2git.py:558-578 | each member has the anchor's author and log, is at most `fuzz` after it, has a file no earlier member has, and with the check passes the symbol test |
| Coalesce.GroupSpan | rcs2git.py:592-599 | the members lie between the anchor and the highest member |
| Coalesce.CoalesceFrom | rcs2git.py:548-600 | the groups from one anchor on: each non-empty, anchored at or after it; characterized by Coalesce.CoalesceGroups, Coalesce.CoalesceTiles and Coalesce.CoalesceOrdered |
| Coalesce.Coalesced | rcs2git.py:548-600 | `coalesce_commits`; characterized by Coalesce.CoalesceCounts, Coalesce.CoalesceDates and Coalesce.CoalesceOneFile |
| Coalesce.CoalesceGroups | rcs2git.py:548-599 | every group is the group anchored at its first member |
| Coalesce.CoalesceTiles | rcs2git.py:592-599 | the first anchor is 0, each next anchor is one past the highest member before, and the last group reaches the end |
| Coalesce.ChainedOrdered | rcs2git.py:592-599 | chained groups have every member of an earlier group below every member of a later one |
| Coalesce.CoalesceOrdered | rcs2git.py:592-599 | groups are disjoint and in input order |
| Coalesce.CoalesceCounts | rcs2git.py:548-600 | there are at most as many groups, and memberships, as records |
| Coalesce.AnchorsOrdered | rcs2git.py:592-599 | anchors strictly increase |
| Coalesce.CoalesceDates | rcs2git.py:548-600 | on records sorted by date, the groups' dates do not decrease |
| Coalesce.LostRecord | rcs2git.py:592-599 | a record skipped between an anchor and a later member is never anchored: three records give one group of two |
| Coalesce.Singletons | rcs2git.py:775-787 | with one history, one commit per record, in order |
| Coalesce.CoalesceOneFile | rcs2git.py:775-797 | with one file, coalescing gives the same commits as the one-per-record path |
| Emitter.Allocated | rcs2git.py:356-359 | no more marks than events |
| Emitter.AllocatedAppend | rcs2git.py:356-359 | the marks of two stretches of events are the marks of each, in order |
| Emitter.AllocMark | rcs2git.py:356-359 | the mark handed out is the counter, which then goes up by one, and nothing else changes |
| Emitter.AuthorFor | rcs2git.py:361-366 | a known user gets their identity, and an unknown one gets `user <user@example.com>`, which is then remembered |
| Emitter.AuthorForAgain | rcs2git.py:361-366 | asking twice gives the same identity and no further change |
| Emitter.EmitBlob | rcs2git.py:368-384 | a known (file, revision) returns its mark and writes nothing; a new one takes the next mark, is recorded and is written once |
| Emitter.BlobAllocates | rcs2git.py:368-384 | a blob event allocates exactly the marks the counter advanced over |
| Emitter.EmitBlobAgain | rcs2git.py:368-384 | emitting the same (file, revision) again, whatever the content, returns the same mark and writes nothing |
| Emitter.EmitBlobs | rcs2git.py:621-628 | one tree entry per file, with the counter not going back |
| Emitter.BlobsKeep | rcs2git.py:621-628 | known blob marks and the last-commit table stay |
| Emitter.BlobsEvents | rcs2git.py:621-628 | only blob events are written |
| Emitter.BlobsAllocate | rcs2git.py:621-628 | the blobs take consecutive marks from the counter |
| Emitter.BlobsEntries | rcs2git.py:621-628 | each entry has its file's path, the table's mark for its revision, and its mode |
| Emitter.Touch | rcs2git.py:441-443 | every path of the commit maps to the commit's mark and every other path keeps its mark |
| Emitter.CommitterOf | rcs2git.py:409-418 | the committer is the `git var` identity exactly when the author is not the committer and `git var` answered, else the author and date |
| Emitter.EmitCommit | rcs2git.py:386-444 | the commit takes the next mark, a zero parent is dropped, the author comes from the table, the committer from the `git var` answer asked for this commit, and its paths move their last commit to it |
| Emitter.Candidates | rcs2git.py:615-619 | a mark is a candidate exactly when some file's last commit has it and it is not zero |
| Emitter.ParentOf | rcs2git.py:615-620 | no parent exactly when no file has a non-zero last commit; otherwise the largest candidate |
| Emitter.Message | rcs2git.py:630-632 | the log gets `<file>: ` in front exactly when `log_filename` is set and the commit has one file |
| Emitter.RevTags | rcs2git.py:645-653 | one reset per file, named by its revision and pointing at the commit |
| Emitter.EmitChangeset | rcs2git.py:609-653 | one changeset takes the marks from the counter up to its commit's mark |
| Emitter.ChangesetAllocate | rcs2git.py:609-653 | the changeset's marks are consecutive from the old counter to the new one, and known blobs stay |
| Emitter.ChangesetParent | rcs2git.py:615-620 | the parent is the largest last-commit mark of the files, or none, and comes before the commit |
| Emitter.ChangesetTree | rcs2git.py:621-628 | one entry per file, with the table's blob, mode 755 exactly for `#!` content and 644 otherwise |
| Emitter.ChangesetText | rcs2git.py:629-643 | date, author identity, committer, message and tags: the tags are the symbols in sorted order |
| Emitter.ChangesetEvents | rcs2git.py:609-653 | the events are the new blobs, then the commit, then with `tag_each_rev` one reset per file |
| Emitter.ChangesetLastCommit | rcs2git.py:441-443 | afterwards each file of the commit has it as last commit and every other path is unchanged |
| Emitter.BlobsOnce | rcs2git.py:368-384 | the blobs of one commit were not in the table before, are in it after, and are each written once |
| Emitter.ChangesetOnce | rcs2git.py:609-653 | a changeset writes only new blobs, each once |
| Emitter.EmitAll | rcs2git.py:603-653 | one commit per changeset, with the counter not going back |
| Emitter.AllCommits | rcs2git.py:603-653 | the commits' marks rise within the stream's range, each parent before its commit |
| Emitter.CommitsOrdered | rcs2git.py:603-653 | commit marks strictly increase along the stream |
| Emitter.AllAllocate | rcs2git.py:356-359 | the stream's marks are consecutive from the counter at the start |
| Emitter.AllOnce | rcs2git.py:368-384 | across the whole stream, no (file, revision) is written as a blob twice |
| Pipeline.GroupsFor | rcs2git.py:775-797 | one history gives one group per record; otherwise the coalescer's groups, never more than the records |
| Pipeline.History | rcs2git.py:480-499 | a file gives a history exactly when its `rlog` output was read, and the history is named after the file |
| Pipeline.HistoryRevisions | rcs2git.py:480-499 | a collected history holds no more revisions than there are revision lines, exactly the revision blocks oldest first with the corrected parser, and with `--skip-branches` exactly those naming no branch |
| Pipeline.Present | rcs2git.py:481-485 | keeping the present values: none exactly when all are absent, every present value kept, nothing else |
| Pipeline.Collect | rcs2git.py:480-509 | the histories of the files whose parse succeeds: none exactly when no parse succeeds, each such file's history present, nothing else |
| Pipeline.CollectAppend | rcs2git.py:450-511 | collecting keeps the order of the files |
| Pipeline.Run | rcs2git.py:762-764 | the run fails with "No RCS histories found." exactly when there are no histories |
| Pipeline.Main | rcs2git.py:754-764 | the run stops with "No RCS histories found." exactly when no file's `rlog` output could be read |
| Pipeline.RunCommits | rcs2git.py:771-809 | one commit per group, never more than the revisions, exactly one per revision with one history; marks rise and parents come first |
| Pipeline.RunMarks | rcs2git.py:348-359 | the marks of a run are 1, 2, 3, … with none skipped or repeated |
| Pipeline.RunOnce | rcs2git.py:368-384 | no (file, revision) is written as a blob twice in a run |
| Pipeline.OneHistoryOneFile | rcs2git.py:514-532 | all records of one history carry its file name |
| Pipeline.OneHistoryAgrees | rcs2git.py:775-797 | with one history, the coalescer would make the very commits the one-per-record path makes |

## Left out

- The `rlog`, `co`, `git var` and `git config` subprocesses (rcs2git.py:134-147, 304-311, 411-418, 736-751). `rlog` output is a list of lines, `co` is a function that may fail, `git var` is asked anew for every commit (`Emitter.GitVar`, an optional identity for each commit mark, so answers may differ or fail commit by commit), and the author table is a parameter.
- The directory walk, the `,v` suffix test and `fnmatch` filtering in `collect_histories` (rcs2git.py:457-479, 491-502). The files found come in as a list. A file whose `rlog` fails (rcs2git.py:134-140) comes with no output, and Pipeline.Collect skips it, as the `except` at rcs2git.py:481-485 and 503-509 does. No other exception is modelled: the model's parser is total.
- The argparse surface of `main` (rcs2git.py:659-728). Its effective values are the `Options` value; `Pipeline.Defaults` holds the defaults.
- `load_authors_file` (rcs2git.py:72-91), which is file I/O. `warn_missing_authors` has no effect on the core.
- The `log_encoding` latin1 re-decode (rcs2git.py:142-147), which depends on a codec.
- `datetime.fromisoformat` and `time.time()` (rcs2git.py:47-51, 323). The ISO parser is a function parameter and the clock is `now`. Every read of the clock in one run gets the same `now`.
- The byte framing of the stream: `data` lengths, the UTF-8 encoding, and the text lines written (rcs2git.py:377-383, 403-439). The stream is a list of events.
- The `mode` argument of `emit_blob` (rcs2git.py:368), which the function ignores. The mode is decided in `emit_all` and goes into the tree entry.
- `_commit_marks` and `_printed_blobs` (rcs2git.py:350-353), which are never read.
- The `expand_keywords` flag, which `co` ignores (rcs2git.py:307).
- Deletions in tree entries (`bmark is None`, rcs2git.py:430-431, 442). `emit_all` never produces one.
- RcsDate.ParseInt: reads ASCII digits only. Python's `int()` also accepts other Unicode decimal digits, such as fullwidth `１` or Arabic-Indic `٣`. A date field written with them gives `now` in the model, where rcs2git.py reads it.
- RcsDate.ParseIntNeedsDigit: its premise is "no ASCII digit". Like RcsDate.ParseInt, it does not cover text made of other Unicode decimal digits, which Python's `int()` accepts.
- Pipeline.HistoryRevisions: in mode `AsWritten` it states only the bound on the number of revisions, because `parse_rlog` as written can lose a revision (see "Findings").
- Coalesce.CoalesceFrom: does not claim that every record lands in some group. The coalescer does not guarantee it: a record skipped before the highest accepted one is never an anchor (see Coalesce.LostRecord).

## Findings

| source | as written | input that shows it | evidently intended | confidence | as-written member | corrected member |
|---|---|---|---|---|---|---|
| rcs2git.py:260-285 | The log loop stops at a line starting `revision`. The block loop then sees that line, matches no branch and skips it at line 285. | The lines `revision 2`, `log`, `revision 1`: a log body with no closing `text` line. | A revision line inside a block should end the block and start the next one, so that revision 1 is kept. | not executed | Rlog.SwallowedRevision | Rlog.ParseRlogRevisions |
