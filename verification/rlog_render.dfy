/**
  The other direction of the `rlog` reader: text in the shape the parser reads
  for a list of revisions (newest first, each block a `revision` line, a `date:`
  line, an optional `branches:` line, a `log` line, the message and a closing
  `text` line; the `log` and `text` markers come from the `,v` format, not from
  what `rlog` prints), optionally after a `symbols:` header line, and the
  theorems that reading that text gives back the revisions, oldest first, and
  the symbol table, in both parsing modes.
 */
module RlogRender {
  import opened Wrappers
  import opened Text
  import opened Rlog
  import RcsDate

  /** What one revision block says. */
  datatype Entry = Entry(
    rev: string,
    date: string,
    author: string,
    state: string,
    branches: seq<string>,
    log: seq<string>)

  /** A value of the `date:` line: non-empty, stripped, without `;`. */
  predicate FieldValue(s: string) {
    |s| > 0 && Stripped(s) && ';' !in s
  }

  /** A line of a log message that does not end the message. */
  predicate MessageLine(s: string) {
    !StartsWith(Strip(s), "text") && !StartsWith(Strip(s), "revision")
  }

  predicate WellFormed(e: Entry) {
    && |e.rev| > 0 && NoSpace(e.rev)
    && FieldValue(e.date) && FieldValue(e.author) && FieldValue(e.state)
    && (forall w :: w in e.branches ==> |w| > 0 && NoSpace(w))
    && (forall k :: 0 <= k < |e.log| ==> MessageLine(e.log[k]))
  }

  // ---------------------------------------------------------------------------
  // Rendering
  // ---------------------------------------------------------------------------

  /** `date: D;  author: A;  state: S` */
  function DateLine(e: Entry): string {
    Join(["date: " + e.date, "  author: " + e.author, "  state: " + e.state], ";")
  }

  function BranchLines(e: Entry): seq<string> {
    if |e.branches| == 0 then [] else ["branches: " + Join(e.branches, " ")]
  }

  /** The message between its `log` and `text` lines. */
  function LogText(msg: seq<string>): seq<string> {
    ["log"] + msg + ["text"]
  }

  /** The lines of a block after its `revision` line. */
  function BodyText(e: Entry): seq<string> {
    [DateLine(e)] + (BranchLines(e) + LogText(e.log))
  }

  function BlockText(e: Entry): seq<string> {
    ["revision " + e.rev] + BodyText(e)
  }

  /** The blocks of some revisions, in the order given. */
  function Render(es: seq<Entry>): seq<string>
    decreases |es|
  {
    if |es| == 0 then [] else BlockText(es[0]) + Render(es[1..])
  }

  /** The revision the block of `e` describes. */
  function Expected(e: Entry, env: DateEnv): Revision {
    Revision(e.rev, Some(e.date), Some(RcsDate.ParseRcsDate(e.date, env.now, env.iso)),
      Some(e.author), Some(e.state), e.branches, {}, TrimRight(Join(e.log, "\n")))
  }

  function ExpectedAll(es: seq<Entry>, env: DateEnv): (r: seq<Revision>)
    ensures |r| == |es|
  {
    seq(|es|, i requires 0 <= i < |es| => Expected(es[i], env))
  }

  // ---------------------------------------------------------------------------
  // Lines as read
  // ---------------------------------------------------------------------------

  /** `ls` starts with the lines `text`, as `ReadLines` reads them. */
  predicate Reads(ls: seq<Line>, text: seq<string>) {
    |text| <= |ls| && forall k :: 0 <= k < |text| ==> ls[k].raw == text[k] && ls[k].text == Strip(text[k])
  }

  lemma ReadsTail(ls: seq<Line>, text: seq<string>, n: nat)
    requires Reads(ls, text) && n <= |text|
    ensures Reads(ls[n..], text[n..])
  {
    forall k | 0 <= k < |text| - n
      ensures ls[n..][k].raw == text[n..][k] && ls[n..][k].text == Strip(text[n..][k])
    {
      assert ls[n..][k] == ls[n + k];
    }
  }

  lemma ReadsPrefix(text: seq<string>, rest: seq<string>)
    ensures Reads(ReadLines(text + rest), text)
  {
    var ls := ReadLines(text + rest);
    forall k | 0 <= k < |text| ensures ls[k].raw == text[k] && ls[k].text == Strip(text[k]) {
      assert (text + rest)[k] == text[k];
    }
  }

  lemma ReadLinesDrop(s: seq<string>, n: nat)
    requires n <= |s|
    ensures ReadLines(s)[n..] == ReadLines(s[n..])
  {
  }

  // ---------------------------------------------------------------------------
  // The `date:` line
  // ---------------------------------------------------------------------------

  lemma StripDateLine(e: Entry)
    requires WellFormed(e)
    ensures Strip(DateLine(e)) == DateLine(e)
  {
    var ps := ["date: " + e.date, "  author: " + e.author, "  state: " + e.state];
    JoinStartsWithFirst(ps, ";");
    JoinEndsWithLast(ps, ";");
    assert ps[2][|ps[2]| - 1] == e.state[|e.state| - 1];
    StripOfStripped(DateLine(e));
  }

  lemma SplitDateLine(e: Entry)
    requires WellFormed(e)
    ensures Split(DateLine(e), ';') == ["date: " + e.date, "  author: " + e.author, "  state: " + e.state]
  {
    SplitJoin(["date: " + e.date, "  author: " + e.author, "  state: " + e.state], ';');
  }

  /** `p` starts with `prefix` when it is `prefix` followed by more. */
  lemma StartsWithConcat(prefix: string, rest: string)
    ensures StartsWith(prefix + rest, prefix)
  {
    assert (prefix + rest)[..|prefix|] == prefix;
  }

  /** After a prefix and one space, a stripped value strips to itself. */
  lemma ValueAfter(prefix: string, v: string)
    requires |prefix| > 0 && prefix[|prefix| - 1] == ' ' && Stripped(v)
    ensures Strip((prefix + v)[|prefix| - 1..]) == v
  {
    assert (prefix + v)[|prefix| - 1..] == [' '] + v;
    StripAfterSpace(' ', v);
    StripOfStripped(v);
  }

  lemma DateFieldDate(r: Revision, d: string, env: DateEnv)
    requires FieldValue(d)
    ensures Strip("date: " + d) == "date: " + d
    ensures DateField(r, "date: " + d, env)
      == r.(dateIso := Some(d), dateTs := Some(RcsDate.ParseRcsDate(d, env.now, env.iso)))
  {
    var p := "date: " + d;
    assert p[|p| - 1] == d[|d| - 1];
    StripOfStripped(p);
    StartsWithConcat("date:", " " + d);
    assert p == "date:" + (" " + d);
    ValueAfter("date: ", d);
  }

  /** A field after the two spaces that follow a `;` strips to the field. */
  lemma StripIndented(name: string, v: string)
    requires |name| > 0 && !IsSpace(name[0]) && FieldValue(v)
    ensures Strip("  " + name + v) == name + v
  {
    var p := name + v;
    assert "  " + name + v == [' '] + ([' '] + p);
    StripAfterSpace(' ', [' '] + p);
    StripAfterSpace(' ', p);
    assert p[|p| - 1] == v[|v| - 1];
    StripOfStripped(p);
  }

  lemma DateFieldAuthor(r: Revision, a: string, env: DateEnv)
    requires FieldValue(a)
    ensures Strip("  author: " + a) == "author: " + a
    ensures DateField(r, "author: " + a, env) == r.(author := Some(a))
  {
    StripIndented("author: ", a);
    assert "  author: " + a == "  " + "author: " + a;
    var p := "author: " + a;
    FirstChar(p, "date:");
    assert !StartsWith(p, "date:");
    StartsWithConcat("author:", " " + a);
    assert p == "author:" + (" " + a);
    ValueAfter("author: ", a);
  }

  lemma DateFieldState(r: Revision, s: string, env: DateEnv)
    requires FieldValue(s)
    ensures Strip("  state: " + s) == "state: " + s
    ensures DateField(r, "state: " + s, env) == r.(state := Some(s))
  {
    StripIndented("state: ", s);
    assert "  state: " + s == "  " + "state: " + s;
    var p := "state: " + s;
    FirstChar(p, "date:");
    FirstChar(p, "author:");
    assert !StartsWith(p, "date:") && !StartsWith(p, "author:");
    StartsWithConcat("state:", " " + s);
    assert p == "state:" + (" " + s);
    ValueAfter("state: ", s);
  }

  /** The fields of a rendered `date:` line, read back. */
  function WithDate(r: Revision, e: Entry, env: DateEnv): Revision {
    r.(dateIso := Some(e.date), dateTs := Some(RcsDate.ParseRcsDate(e.date, env.now, env.iso)),
       author := Some(e.author), state := Some(e.state))
  }

  lemma DateFieldsOf(r: Revision, e: Entry, env: DateEnv)
    requires WellFormed(e)
    ensures DateFields(r, Split(DateLine(e), ';'), env) == WithDate(r, e, env)
  {
    SplitDateLine(e);
    var ps := ["date: " + e.date, "  author: " + e.author, "  state: " + e.state];
    DateFieldDate(r, e.date, env);
    var r1 := r.(dateIso := Some(e.date), dateTs := Some(RcsDate.ParseRcsDate(e.date, env.now, env.iso)));
    assert DateFields(r, ps, env) == DateFields(r1, ps[1..], env);
    DateFieldAuthor(r1, e.author, env);
    var r2 := r1.(author := Some(e.author));
    assert DateFields(r1, ps[1..], env) == DateFields(r2, ps[2..], env);
    DateFieldState(r2, e.state, env);
    var r3 := r2.(state := Some(e.state));
    assert DateFields(r2, ps[2..], env) == DateFields(r3, [], env);
  }

  /** The `date:` line is one step that fills in date, author and state. */
  lemma DateLineStarts(e: Entry)
    ensures StartsWith(DateLine(e), "date:")
  {
    var ps := ["date: " + e.date, "  author: " + e.author, "  state: " + e.state];
    var tail := " " + e.date + (";" + Join(ps[1..], ";"));
    assert DateLine(e) == "date:" + tail;
    StartsWithConcat("date:", tail);
  }

  lemma DateStep(ls: seq<Line>, r: Revision, e: Entry, mode: Mode, env: DateEnv)
    requires WellFormed(e) && |ls| > 0 && ls[0].text == Strip(DateLine(e))
    ensures StepShape(ls, mode) == Goes(1)
    ensures StepRevision(ls, r, env) == WithDate(r, e, env)
  {
    StripDateLine(e);
    DateLineStarts(e);
    DateLineStep(ls, r, mode, env);
    DateFieldsOf(r, e, env);
  }

  // ---------------------------------------------------------------------------
  // The `branches:` line
  // ---------------------------------------------------------------------------

  /** Words joined by spaces neither start nor end with white space. */
  lemma JoinedWordsStripped(bs: seq<string>)
    requires |bs| > 0 && (forall w :: w in bs ==> |w| > 0 && NoSpace(w))
    ensures |Join(bs, " ")| > 0 && Stripped(Join(bs, " "))
  {
    var first := bs[0];
    var last := bs[|bs| - 1];
    assert first in bs && last in bs;
    assert !IsSpace(first[0]) && !IsSpace(last[|last| - 1]);
    JoinStartsWithFirst(bs, " ");
    JoinEndsWithLast(bs, " ");
  }

  /** What the parser reads from a rendered `branches:` line. */
  lemma BranchValue(bs: seq<string>)
    requires |bs| > 0 && (forall w :: w in bs ==> |w| > 0 && NoSpace(w))
    ensures Strip("branches: " + Join(bs, " ")) == "branches: " + Join(bs, " ")
    ensures StartsWith("branches: " + Join(bs, " "), "branches:")
    ensures Strip(("branches: " + Join(bs, " "))[9..]) == Join(bs, " ")
    ensures Words(Join(bs, " ")) == bs
  {
    JoinedWordsStripped(bs);
    BranchLineStripped(Join(bs, " "));
    BranchLineValue(Join(bs, " "));
    WordsOfJoin(bs);
  }

  /** A `branches:` line with a stripped non-empty value is stripped. */
  lemma BranchLineStripped(j: string)
    requires |j| > 0 && Stripped(j)
    ensures Strip("branches: " + j) == "branches: " + j
  {
    var p := "branches: " + j;
    assert p[|p| - 1] == j[|j| - 1];
    StripOfStripped(p);
  }

  /** A `branches:` line starts with `branches:` and holds its value after the keyword. */
  lemma BranchLineValue(j: string)
    requires |j| > 0 && Stripped(j)
    ensures StartsWith("branches: " + j, "branches:")
    ensures Strip(("branches: " + j)[9..]) == j
  {
    var prefix := "branches: ";
    var p := prefix + j;
    assert StartsWith(p, "branches:") by {
      StartsWithConcat("branches:", " " + j);
      assert p == "branches:" + (" " + j);
    }
    assert |prefix| == 10 && prefix[9] == ' ';
    ValueAfter(prefix, j);
    assert p[9..] == (prefix + j)[|prefix| - 1..];
  }

  lemma BranchStep(ls: seq<Line>, r: Revision, bs: seq<string>, mode: Mode, env: DateEnv)
    requires |bs| > 0 && (forall w :: w in bs ==> |w| > 0 && NoSpace(w))
    requires |ls| > 0 && ls[0].text == Strip("branches: " + Join(bs, " "))
    ensures StepShape(ls, mode) == Goes(1)
    ensures StepRevision(ls, r, env) == r.(branches := bs)
  {
    BranchValue(bs);
    JoinedWordsStripped(bs);
    BranchesLineStep(ls, r, mode, env);
  }

  // ---------------------------------------------------------------------------
  // The log and the closing `text` line
  // ---------------------------------------------------------------------------

  /** The log body is the first `n` lines when they are message lines and the next one ends it. */
  lemma {:induction false} LogLinesPrefix(ls: seq<Line>, n: nat)
    requires n < |ls| && EndsLog(ls[n])
    requires forall k :: 0 <= k < n ==> !EndsLog(ls[k])
    ensures LogLines(ls).0 == ls[..n]
    decreases n
  {
    if n > 0 {
      LogLinesPrefix(ls[1..], n - 1);
      assert ls[..n] == [ls[0]] + ls[1..][..n - 1];
    }
  }

  lemma TextLine(ls: seq<Line>, mode: Mode)
    requires |ls| > 0 && ls[0].text == "text"
    ensures EndsLog(ls[0])
    ensures StepShape(ls, mode) == Ends(1)
  {
    var t := ls[0].text;
    StartsWithConcat("text", "");
    assert t == "text" + "";
    FirstChar(t, "date:");
    FirstChar(t, "branches:");
    FirstChar(t, "symbols:");
    FirstChar(t, "symbol:");
  }

  /** A `log` line, the message lines, and a `text` line, as the parser sees them. */
  predicate LogShaped(ls: seq<Line>, msg: seq<string>) {
    && |msg| + 1 < |ls|
    && ls[0].text == "log"
    && (forall k :: 1 <= k <= |msg| ==> !EndsLog(ls[k]))
    && ls[|msg| + 1].text == "text"
    && Raws(ls[1..][..|msg|]) == msg
  }

  /** Rendered `log` and `text` lines around message lines read as `LogShaped`. */
  lemma ReadsLog(ls: seq<Line>, msg: seq<string>)
    requires forall k :: 0 <= k < |msg| ==> MessageLine(msg[k])
    requires Reads(ls, LogText(msg))
    ensures LogShaped(ls, msg)
  {
    var text := LogText(msg);
    assert ls[0].text == Strip(text[0]);
    StripOfStripped("log");
    assert ls[|msg| + 1].text == Strip(text[|msg| + 1]);
    StripOfStripped("text");
    forall k | 1 <= k <= |msg| ensures !EndsLog(ls[k]) {
      assert ls[k].text == Strip(text[k]) && text[k] == msg[k - 1];
      assert MessageLine(msg[k - 1]);
    }
    forall k | 0 <= k < |msg| ensures Raws(ls[1..][..|msg|])[k] == msg[k] {
      assert ls[1..][..|msg|][k] == ls[k + 1] && ls[k + 1].raw == text[k + 1];
    }
  }

  /** The `log` line takes the message with it and sets the log. */
  lemma LogStep(ls: seq<Line>, r: Revision, msg: seq<string>, mode: Mode, env: DateEnv)
    requires LogShaped(ls, msg)
    ensures StepShape(ls, mode) == Goes(1 + |msg|)
    ensures StepRevision(ls, r, env) == r.(log := TrimRight(Join(msg, "\n")))
  {
    LogLineStep(ls, r, mode, env);
    var tail := ls[1..];
    assert EndsLog(tail[|msg|]) by {
      TextLine(tail[|msg|..], mode);
    }
    assert LogLines(tail).0 == tail[..|msg|] by {
      forall k | 0 <= k < |msg| ensures !EndsLog(tail[k]) {
        assert tail[k] == ls[k + 1];
      }
      LogLinesPrefix(tail, |msg|);
    }
  }

  /** From the `log` line to the end of the block. */
  lemma LogTail(ls: seq<Line>, r: Revision, msg: seq<string>, mode: Mode, env: DateEnv)
    requires LogShaped(ls, msg)
    ensures BlockLength(ls, mode) == |msg| + 2
    ensures BlockRevision(ls, r, mode, env) == r.(log := TrimRight(Join(msg, "\n")))
  {
    LogStep(ls, r, msg, mode, env);
    BlockGoes(ls, r, mode, env);
    var rest := ls[1 + |msg|..];
    assert rest[0] == ls[|msg| + 1];
    TextLine(rest, mode);
    BlockEnds(rest, r.(log := TrimRight(Join(msg, "\n"))), mode, env);
  }

  // ---------------------------------------------------------------------------
  // One block
  // ---------------------------------------------------------------------------

  /** The lines after the `date:` line, and after the `branches:` line when there is one. */
  lemma BodyTextParts(e: Entry)
    ensures BodyText(e)[0] == DateLine(e)
    ensures BodyText(e)[1..] == BranchLines(e) + LogText(e.log)
    ensures |e.branches| == 0 ==> BodyText(e)[1..] == LogText(e.log)
    ensures |e.branches| > 0 ==> BodyText(e)[1] == "branches: " + Join(e.branches, " ")
    ensures |e.branches| > 0 ==> BodyText(e)[2..] == LogText(e.log)
  {
    if |e.branches| > 0 {
      assert (BranchLines(e) + LogText(e.log))[1..] == LogText(e.log);
    }
  }

  /** The lines after a `revision` line, as the block parser sees them. */
  predicate BodyShaped(ls: seq<Line>, e: Entry) {
    && |ls| > 1
    && ls[0].text == Strip(DateLine(e))
    && if |e.branches| == 0 then LogShaped(ls[1..], e.log)
       else ls[1].text == Strip("branches: " + Join(e.branches, " ")) && LogShaped(ls[2..], e.log)
  }

  /** The rendered lines after a `revision` line read as `BodyShaped`. */
  lemma ReadsBody(ls: seq<Line>, e: Entry)
    requires WellFormed(e) && Reads(ls, BodyText(e))
    ensures BodyShaped(ls, e)
  {
    var text := BodyText(e);
    BodyTextParts(e);
    assert ls[0].text == Strip(text[0]);
    if |e.branches| == 0 {
      ReadsTail(ls, text, 1);
      ReadsLog(ls[1..], e.log);
    } else {
      assert ls[1].text == Strip(text[1]);
      ReadsTail(ls, text, 2);
      ReadsLog(ls[2..], e.log);
    }
  }

  /** The block of `e` after its `revision` line reads back as `Expected(e)`, whatever follows it. */
  lemma BodyOf(ls: seq<Line>, e: Entry, mode: Mode, env: DateEnv)
    requires WellFormed(e) && BodyShaped(ls, e)
    ensures BlockLength(ls, mode) == |BodyText(e)|
    ensures BlockRevision(ls, NewRevision(e.rev), mode, env) == Expected(e, env)
  {
    var r0 := NewRevision(e.rev);
    BodyTextParts(e);
    DateStep(ls, r0, e, mode, env);
    BlockGoes(ls, r0, mode, env);
    var r1 := WithDate(r0, e, env);
    if |e.branches| == 0 {
      LogTail(ls[1..], r1, e.log, mode, env);
    } else {
      BranchStep(ls[1..], r1, e.branches, mode, env);
      BlockGoes(ls[1..], r1, mode, env);
      assert ls[1..][1..] == ls[2..];
      LogTail(ls[2..], r1.(branches := e.branches), e.log, mode, env);
    }
  }

  /** The label of `revision x` is `x`. */
  lemma LabelOf(l: Line, x: string)
    requires |x| > 0 && NoSpace(x) && l.text == Strip("revision " + x)
    ensures IsRevisionLine(l) && Label(l) == x
  {
    ReadRevisionLine("revision " + x, l, x);
    assert l.text == "revision " + x by {
      RevisionLineStripped(x);
    }
    RevisionLineWords(x);
  }

  /** `revision x` is left alone by `strip()`. */
  lemma RevisionLineStripped(x: string)
    requires |x| > 0 && NoSpace(x)
    ensures Strip("revision " + x) == "revision " + x
  {
    assert Stripped("revision " + x) by {
      assert ("revision " + x)[|"revision " + x| - 1] == x[|x| - 1];
    }
    StripOfStripped("revision " + x);
  }

  /** The words of `revision x` are `revision` and `x`. */
  lemma RevisionLineWords(x: string)
    requires |x| > 0 && NoSpace(x)
    ensures Words("revision " + x) == ["revision", x]
  {
    RevisionSpace(x);
    RevisionNoSpace();
    TwoWords("revision", x);
  }

  /** `revision x` is the word `revision`, a space, and `x`. */
  lemma RevisionSpace(x: string)
    ensures "revision " + x == "revision" + (" " + x)
  {
    var t := "revision " + x;
    assert t[..9] == "revision" + " " && t[9..] == x;
  }

  /** The word `revision` holds no white space. */
  lemma RevisionNoSpace()
    ensures NoSpace("revision")
  {
    var r := "revision";
    assert r[0] == 'r' && r[1] == 'e' && r[2] == 'v' && r[3] == 'i';
    assert r[4] == 's' && r[5] == 'i' && r[6] == 'o' && r[7] == 'n';
  }

  /** Two words joined by a space split back into those two words. */
  lemma TwoWords(a: string, x: string)
    requires |a| > 0 && NoSpace(a) && |x| > 0 && NoSpace(x)
    ensures Words(a + (" " + x)) == [a, x]
  {
    WordsWord(a, " " + x);
    WordsSpace(x);
    assert x + "" == x;
    WordsWord(x, "");
  }

  lemma ExpectedAllCons(es: seq<Entry>, env: DateEnv)
    requires |es| > 0
    ensures ExpectedAll(es, env) == [Expected(es[0], env)] + ExpectedAll(es[1..], env)
  {
    var a := ExpectedAll(es, env);
    var b := [Expected(es[0], env)] + ExpectedAll(es[1..], env);
    forall i | 0 <= i < |a| ensures a[i] == b[i] {
      if i > 0 {
        assert b[i] == ExpectedAll(es[1..], env)[i - 1];
        assert es[1..][i - 1] == es[i];
      }
    }
  }

  /** One rendered block, read from the front of the text: its revision, and where the next block starts. */
  lemma BlockOfRender(e: Entry, rest: seq<string>, mode: Mode, env: DateEnv)
    requires WellFormed(e)
    ensures var ls := ReadLines(BlockText(e) + rest);
      && |ls| > 0 && IsRevisionLine(ls[0]) && Label(ls[0]) == e.rev
      && BlockRevision(ls[1..], NewRevision(e.rev), mode, env) == Expected(e, env)
      && ls[1..][BlockLength(ls[1..], mode)..] == ReadLines(rest)
  {
    BlockRevisionLine(e, rest);
    BlockBody(e, rest);
    BodyOf(ReadLines(BlockText(e) + rest)[1..], e, mode, env);
    BlockRest(e, rest);
  }

  /** The first line of a rendered block is the revision line of its entry. */
  lemma BlockRevisionLine(e: Entry, rest: seq<string>)
    requires WellFormed(e)
    ensures var ls := ReadLines(BlockText(e) + rest);
      |ls| > 0 && IsRevisionLine(ls[0]) && Label(ls[0]) == e.rev
  {
    var ls := ReadLines(BlockText(e) + rest);
    assert ls[0].text == Strip("revision " + e.rev);
    LabelOf(ls[0], e.rev);
  }

  /** The lines after a rendered revision line read as the entry's body. */
  lemma BlockBody(e: Entry, rest: seq<string>)
    requires WellFormed(e)
    ensures var ls := ReadLines(BlockText(e) + rest);
      |ls| > 0 && BodyShaped(ls[1..], e)
  {
    var ls := ReadLines(BlockText(e) + rest);
    ReadsPrefix(BlockText(e), rest);
    ReadsTail(ls, BlockText(e), 1);
    assert BlockText(e)[1..] == BodyText(e);
    ReadsBody(ls[1..], e);
  }

  /** Past the body of a rendered block come the lines of what follows it. */
  lemma BlockRest(e: Entry, rest: seq<string>)
    ensures var ls := ReadLines(BlockText(e) + rest);
      |ls| > 0 && ls[1..][|BodyText(e)|..] == ReadLines(rest)
  {
    var text := BlockText(e) + rest;
    var ls := ReadLines(text);
    ReadLinesDrop(text, |BlockText(e)|);
    assert text[|BlockText(e)|..] == rest;
    assert ls[1..][|BodyText(e)|..] == ls[|BlockText(e)|..];
  }

  /** Reading rendered blocks gives one revision per block, in order. */
  lemma {:induction false} BlocksOfRender(es: seq<Entry>, mode: Mode, env: DateEnv)
    requires forall i :: 0 <= i < |es| ==> WellFormed(es[i])
    ensures Blocks(ReadLines(Render(es)), mode, env) == ExpectedAll(es, env)
    decreases |es|
  {
    if |es| > 0 {
      var rest := Render(es[1..]);
      var ls := ReadLines(Render(es));
      assert Render(es) == BlockText(es[0]) + rest;
      BlockOfRender(es[0], rest, mode, env);
      BlocksAtRevision(ls, mode, env);
      var next := ls[1..][BlockLength(ls[1..], mode)..];
      assert Blocks(ls, mode, env) == [Expected(es[0], env)] + Blocks(next, mode, env);
      forall i | 0 <= i < |es| - 1 ensures WellFormed(es[1..][i]) {
        assert es[1..][i] == es[i + 1];
      }
      BlocksOfRender(es[1..], mode, env);
      ExpectedAllCons(es, env);
    }
  }

  /** Rendered text has no header lines. */
  lemma HeaderOfRender(es: seq<Entry>)
    requires forall i :: 0 <= i < |es| ==> WellFormed(es[i])
    ensures HeaderLength(ReadLines(Render(es))) == 0
  {
    if |es| > 0 {
      var ls := ReadLines(Render(es));
      assert Render(es) == BlockText(es[0]) + Render(es[1..]);
      assert ls[0].text == Strip("revision " + es[0].rev);
      LabelOf(ls[0], es[0].rev);
    }
  }

  /** With no header symbols, attaching changes nothing. */
  lemma AttachedNothing(revs: seq<Revision>)
    ensures Attached(revs, map[]) == revs
  {
    var empty: map<string, string> := map[];
    assert |SortedStrings(empty.Keys)| == 0;
  }

  /**
    Text in the shape the parser reads, for some revisions newest first, reads
    back as those revisions, oldest first, with their date, author, state,
    branches and log message; in both parsing modes.
   */
  lemma ParseRender(rcsPath: string, es: seq<Entry>, env: DateEnv)
    requires forall i :: 0 <= i < |es| ==> WellFormed(es[i])
    ensures ParseRlog(rcsPath, Render(es), env).revisions == Reverse(ExpectedAll(es, env))
    ensures ParseRlogAsWritten(rcsPath, Render(es), env).revisions == Reverse(ExpectedAll(es, env))
  {
    var ls := ReadLines(Render(es));
    HeaderOfRender(es);
    assert ls[0..] == ls;
    BlocksOfRender(es, EndAtRevision, env);
    BlocksOfRender(es, AsWritten, env);
    AttachedNothing(Reverse(ExpectedAll(es, env)));
  }

  // ---------------------------------------------------------------------------
  // A `symbols:` header line
  // ---------------------------------------------------------------------------

  /** A symbol name, or the revision it points at, as a header line writes it. */
  predicate SymbolPart(s: string) {
    |s| > 0 && Stripped(s) && ':' !in s && ';' !in s
  }

  predicate SymbolList(syms: seq<(string, string)>) {
    forall k :: 0 <= k < |syms| ==> SymbolPart(syms[k].0) && SymbolPart(syms[k].1)
  }

  /** One `name:rev` entry. */
  function SymbolEntry(name: string, rev: string): string {
    name + ":" + rev
  }

  /** The `;`-separated pieces after `symbols: `: the entries, each after the first preceded by a space, then the empty text after the last `;`. */
  function SymbolPieces(syms: seq<(string, string)>): (ps: seq<string>)
    ensures |ps| == |syms| + 1
  {
    seq(|syms| + 1, k requires 0 <= k <= |syms| =>
      if k == |syms| then ""
      else (if k == 0 then "" else " ") + SymbolEntry(syms[k].0, syms[k].1))
  }

  /** `symbols: a:1.1; b:1.2;`, every entry closed by `;`. */
  function SymbolLine(syms: seq<(string, string)>): string {
    "symbols: " + Join(SymbolPieces(syms), ";")
  }

  /** The revision of the last entry that names `name`. */
  function LastValue(syms: seq<(string, string)>, name: string): Option<string>
    decreases |syms|
  {
    if |syms| == 0 then None
    else if syms[|syms| - 1].0 == name then Some(syms[|syms| - 1].1)
    else LastValue(syms[..|syms| - 1], name)
  }

  /** The last entry naming `name` is in the tail, or else it is the head if that names `name`. */
  lemma {:induction false} LastValueCons(syms: seq<(string, string)>, name: string)
    requires |syms| > 0
    ensures LastValue(syms, name) ==
      match LastValue(syms[1..], name)
      case Some(v) => Some(v)
      case None => if syms[0].0 == name then Some(syms[0].1) else None
    decreases |syms|
  {
    var n := |syms|;
    if n == 1 {
      assert syms[1..] == [] && syms[..0] == [];
    } else if syms[n - 1].0 != name {
      var front := syms[..n - 1];
      assert syms[1..][..n - 2] == front[1..];
      assert syms[1..][n - 2] == syms[n - 1];
      assert front[0] == syms[0];
      LastValueCons(front, name);
    } else {
      assert syms[1..][n - 2] == syms[n - 1];
    }
  }

  /** An entry, with or without a space before it, reads back as its name and revision. */
  lemma PairOfEntry(name: string, rev: string, pre: string)
    requires SymbolPart(name) && SymbolPart(rev) && (pre == "" || pre == " ")
    ensures PairOf(pre + SymbolEntry(name, rev)) == Some((name, rev))
  {
    StripEntry(name, rev, pre);
    EntryParts(name, rev);
    StripOfStripped(name);
    StripOfStripped(rev);
  }

  /** An entry is stripped, and a space before it is stripped off. */
  lemma StripEntry(name: string, rev: string, pre: string)
    requires SymbolPart(name) && SymbolPart(rev) && (pre == "" || pre == " ")
    ensures Strip(pre + SymbolEntry(name, rev)) == SymbolEntry(name, rev)
  {
    var e := SymbolEntry(name, rev);
    assert e[0] == name[0] && e[|e| - 1] == rev[|rev| - 1];
    if pre == " " {
      assert pre + e == [' '] + e;
      StripAfterSpace(' ', e);
    } else {
      assert pre + e == e;
    }
    StripOfStripped(e);
  }

  /** The first colon of an entry is the one after the name. */
  lemma EntryParts(name: string, rev: string)
    requires SymbolPart(name) && SymbolPart(rev)
    ensures var e := SymbolEntry(name, rev);
      ':' in e && IndexOf(e, ':') == |name| && e[..|name|] == name && After(e, ':') == rev
  {
    var e := SymbolEntry(name, rev);
    assert e[..|name|] == name;
    assert e[|name|] == ':';
    IndexOfUnique(e, ':', |name|);
    assert e[|name| + 1..] == rev;
  }

  /** The pieces of a header line read as its entries, and the text after the last `;` as nothing. */
  lemma PiecesPairs(syms: seq<(string, string)>)
    requires SymbolList(syms)
    ensures var ps := SymbolPieces(syms);
      && (forall k :: 0 <= k < |syms| ==> PairOf(ps[k]) == Some(syms[k]))
      && PairOf(ps[|syms|]) == None
  {
    var ps := SymbolPieces(syms);
    forall k | 0 <= k < |syms| ensures PairOf(ps[k]) == Some(syms[k]) {
      PairOfEntry(syms[k].0, syms[k].1, if k == 0 then "" else " ");
    }
  }

  /** The last entry of a symbol list that names `name`, found from the front, is the one found from the back. */
  lemma {:induction false} LastPairOf(ps: seq<string>, syms: seq<(string, string)>, name: string)
    requires |ps| == |syms| + 1
    requires forall k :: 0 <= k < |syms| ==> PairOf(ps[k]) == Some(syms[k])
    requires PairOf(ps[|syms|]) == None
    ensures LastPair(ps, name) == LastValue(syms, name)
    decreases |syms|
  {
    if |syms| == 0 {
      assert ps[1..] == [];
    } else {
      forall k | 0 <= k < |syms| - 1 ensures PairOf(ps[1..][k]) == Some(syms[1..][k]) {
        assert ps[1..][k] == ps[k + 1];
      }
      assert ps[1..][|syms| - 1] == ps[|syms|];
      LastPairOf(ps[1..], syms[1..], name);
      LastValueCons(syms, name);
    }
  }

  /** The pieces contain no `;`, so splitting their join gives them back. */
  lemma SplitPieces(syms: seq<(string, string)>)
    requires SymbolList(syms)
    ensures Split(Join(SymbolPieces(syms), ";"), ';') == SymbolPieces(syms)
  {
    var ps := SymbolPieces(syms);
    forall k | 0 <= k < |ps| ensures ';' !in ps[k] {
      if k < |syms| {
        assert ps[k] == (if k == 0 then "" else " ") + (syms[k].0 + (":" + syms[k].1));
      }
    }
    SplitJoin(ps, ';');
  }

  /** The join of the pieces of a non-empty list starts with the first name and ends with `;`. */
  lemma PiecesJoined(syms: seq<(string, string)>)
    requires SymbolList(syms) && |syms| > 0
    ensures var j := Join(SymbolPieces(syms), ";");
      |j| > 0 && j[0] == syms[0].0[0] && j[|j| - 1] == ';'
  {
    var ps := SymbolPieces(syms);
    var front := ps[..|syms|];
    assert ps == front + [""];
    JoinAppend(front, [""], ";");
    assert ps[0] == syms[0].0 + ":" + syms[0].1;
    assert front[0] == ps[0];
    JoinStartsWithFirst(front, ";");
  }

  /** A line starting `symbols:` starts with `symbol`, and its first colon ends that word. */
  lemma SymbolsPrefix(x: string)
    ensures var t := "symbols:" + x;
      && StartsWith(t, "symbol") && t[0] == 's'
      && ':' in t && After(t, ':') == x
  {
    var t := "symbols:" + x;
    assert t[..6] == "symbol";
    assert t[..7] == "symbols" && t[7] == ':';
    IndexOfUnique(t, ':', 7);
    assert t[8..] == x;
  }

  /** With no entries the line strips to `symbols:`. */
  lemma EmptySymbolLine()
    ensures Strip(SymbolLine([])) == "symbols:" + ""
  {
    assert SymbolPieces([]) == [""];
    assert SymbolLine([]) == "symbols:" + " ";
    TrimRightAppend("symbols:", " ");
    assert TrimRight(" ") == "";
    assert "symbols:" + "" == "symbols:";
  }

  /** With entries the line is already stripped: it is `symbols:`, a space and the joined pieces. */
  lemma FullSymbolLine(syms: seq<(string, string)>)
    requires SymbolList(syms) && |syms| > 0
    ensures var j := Join(SymbolPieces(syms), ";");
      Strip(SymbolLine(syms)) == "symbols:" + (" " + j)
  {
    var j := Join(SymbolPieces(syms), ";");
    var line := SymbolLine(syms);
    PiecesJoined(syms);
    assert line == "symbols:" + (" " + j);
    assert line[|line| - 1] == j[|j| - 1];
    StripOfStripped(line);
  }

  /** The stripped text of a header line: it starts with `symbols:` and, after the colon, holds the joined pieces. */
  lemma SymbolLineText(syms: seq<(string, string)>)
    requires SymbolList(syms)
    ensures var t := Strip(SymbolLine(syms));
      && StartsWith(t, "symbol") && t[0] == 's' && ':' in t
      && Strip(After(t, ':')) == Join(SymbolPieces(syms), ";")
      && (|syms| == 0 <==> ';' !in After(t, ':'))
      && (|syms| > 0 ==> var r := Strip(After(t, ':')); r[|r| - 1] == ';')
  {
    var j := Join(SymbolPieces(syms), ";");
    if |syms| == 0 {
      EmptySymbolLine();
      SymbolsPrefix("");
      assert SymbolPieces(syms) == [""];
    } else {
      FullSymbolLine(syms);
      SymbolsPrefix(" " + j);
      PiecesJoined(syms);
      assert " " + j == [' '] + j;
      StripAfterSpace(' ', j);
      assert Stripped(j);
      StripOfStripped(j);
      assert (" " + j)[|j|] == ';';
    }
  }

  /** A list without `;`, or ending with one, does not continue on the next lines. */
  lemma ContinueClosed(rest: string, next: seq<Line>, stop: string)
    requires ';' !in rest || (var t := Strip(rest); |t| > 0 && t[|t| - 1] == ';')
    ensures Continue(rest, next, stop) == rest
  {
  }

  /** A header line's entries go to the table one by one. */
  lemma HeaderOfSymbolLine(syms: seq<(string, string)>, next: seq<Line>, table: map<string, string>)
    requires SymbolList(syms)
    ensures HeaderSymbols(Strip(SymbolLine(syms)), next, table) == AddPairs(table, SymbolPieces(syms))
  {
    var t := Strip(SymbolLine(syms));
    SymbolListSplit(syms, next);
    assert HeaderSymbols(t, next, table) == AddPairs(table, Split(Strip(Continue(After(t, ':'), next, "revision")), ';'));
  }

  /** The entries the parser finds on a header line are its pieces. */
  lemma SymbolListSplit(syms: seq<(string, string)>, next: seq<Line>)
    requires SymbolList(syms)
    ensures var t := Strip(SymbolLine(syms));
      ':' in t && Split(Strip(Continue(After(t, ':'), next, "revision")), ';') == SymbolPieces(syms)
  {
    var t := Strip(SymbolLine(syms));
    SymbolLineText(syms);
    ContinueClosed(After(t, ':'), next, "revision");
    SplitPieces(syms);
  }

  /** What a header line adds to the symbol table: every entry, the last one for a name winning. */
  lemma SymbolLineTable(syms: seq<(string, string)>, next: seq<Line>, table: map<string, string>, name: string)
    requires SymbolList(syms)
    ensures var r := HeaderSymbols(Strip(SymbolLine(syms)), next, table);
      match LastValue(syms, name)
      case Some(v) => name in r && r[name] == v
      case None => (name in r <==> name in table) && (name in table ==> r[name] == table[name])
  {
    var ps := SymbolPieces(syms);
    HeaderOfSymbolLine(syms, next, table);
    PiecesPairs(syms);
    LastPairOf(ps, syms, name);
    AddPairsLast(table, ps, name);
  }

  /** Some revision blocks under a `symbols:` header line. */
  function RenderWithSymbols(syms: seq<(string, string)>, es: seq<Entry>): seq<string> {
    [SymbolLine(syms)] + Render(es)
  }

  /**
    Text with a `symbols:` header reads back as the revisions, oldest first,
    with the header's table, each name mapping to the revision of its last
    entry, attached to the revisions it points at; in both parsing modes.
   */
  lemma ParseRenderSymbols(rcsPath: string, syms: seq<(string, string)>, es: seq<Entry>, mode: Mode, env: DateEnv)
    requires SymbolList(syms)
    requires forall i :: 0 <= i < |es| ==> WellFormed(es[i])
    ensures var fh := Parse(rcsPath, RenderWithSymbols(syms, es), mode, env);
      && (forall n :: n in fh.symbols <==> LastValue(syms, n).Some?)
      && (forall n :: n in fh.symbols ==> fh.symbols[n] == LastValue(syms, n).value)
      && fh.revisions == Attached(Reverse(ExpectedAll(es, env)), fh.symbols)
  {
    var ls := ReadLines(RenderWithSymbols(syms, es));
    RenderedHeader(syms, es);
    BlocksOfRender(es, mode, env);
    TableOfLine(syms, ls[1..]);
  }

  /** The header of the text is its `symbols:` line, read with the blocks after it as look-ahead. */
  lemma RenderedHeader(syms: seq<(string, string)>, es: seq<Entry>)
    requires SymbolList(syms)
    requires forall i :: 0 <= i < |es| ==> WellFormed(es[i])
    ensures var ls := ReadLines(RenderWithSymbols(syms, es));
      && HeaderLength(ls) == 1 && ls[1..] == ReadLines(Render(es))
      && HeaderTable(ls, 1, map[]) == HeaderSymbols(Strip(SymbolLine(syms)), ls[1..], map[])
  {
    var ls := ReadLines(RenderWithSymbols(syms, es));
    RenderedLines(syms, es);
    SymbolLineKind(syms);
    HeaderOfRender(es);
    OneHeaderLine(ls);
  }

  /** A header line starts with `symbol`, so it is not a revision line. */
  lemma SymbolLineKind(syms: seq<(string, string)>)
    requires SymbolList(syms)
    ensures var t := Strip(SymbolLine(syms));
      StartsWith(t, "symbol") && !StartsWith(t, "revision ")
  {
    SymbolLineText(syms);
    FirstChar(Strip(SymbolLine(syms)), "revision ");
  }

  /** One `symbol` line before the first revision line is the whole header, and the table is what it gives. */
  lemma OneHeaderLine(ls: seq<Line>)
    requires |ls| > 0 && StartsWith(ls[0].text, "symbol") && !IsRevisionLine(ls[0])
    requires HeaderLength(ls[1..]) == 0
    ensures HeaderLength(ls) == 1
    ensures HeaderTable(ls, 1, map[]) == HeaderSymbols(ls[0].text, ls[1..], map[])
  {
    var t := HeaderSymbols(ls[0].text, ls[1..], map[]);
    assert HeaderTable(ls, 1, map[]) == HeaderTable(ls[1..], 0, t);
  }

  /** The first line read is the header line; the rest are the blocks' lines. */
  lemma RenderedLines(syms: seq<(string, string)>, es: seq<Entry>)
    ensures var ls := ReadLines(RenderWithSymbols(syms, es));
      |ls| > 0 && ls[0].text == Strip(SymbolLine(syms)) && ls[1..] == ReadLines(Render(es))
  {
    var text := RenderWithSymbols(syms, es);
    ReadLinesDrop(text, 1);
    assert text[1..] == Render(es);
  }

  /** The table of a header line alone: each name its last entry's revision. */
  lemma TableOfLine(syms: seq<(string, string)>, next: seq<Line>)
    requires SymbolList(syms)
    ensures var table := HeaderSymbols(Strip(SymbolLine(syms)), next, map[]);
      && (forall n :: n in table <==> LastValue(syms, n).Some?)
      && (forall n :: n in table ==> table[n] == LastValue(syms, n).value)
  {
    var table := HeaderSymbols(Strip(SymbolLine(syms)), next, map[]);
    forall n ensures
      && (n in table <==> LastValue(syms, n).Some?)
      && (n in table ==> table[n] == LastValue(syms, n).value)
    {
      SymbolLineTable(syms, next, map[], n);
    }
  }
}
