/**
  Reading the output of `rlog` for one `,v` file: the file-level symbol table of
  the header, one `Revision` per `revision ` block (date, author, state, branches,
  per-revision symbols, log message), oldest first, with the header's symbols
  attached to the revisions they name.

  The parser works on the remaining lines rather than on an index into them;
  each function below is one loop of `parse_rlog`, and consumes a prefix of
  the lines it is given.
 */
module Rlog {
  import opened Wrappers
  import opened Text
  import RcsDate

  // ---------------------------------------------------------------------------
  // Data
  // ---------------------------------------------------------------------------

  /** One revision as read from its block. */
  datatype Revision = Revision(
    rev: string,
    dateIso: Option<string>,
    dateTs: Option<int>,
    author: Option<string>,
    state: Option<string>,
    branches: seq<string>,
    symbols: set<string>,
    log: string)

  /** A revision as its `revision` line creates it, before any field is read. */
  function NewRevision(rev: string): Revision {
    Revision(rev, None, None, None, None, [], {}, "")
  }

  /** One `,v` file: its path, the name it gets in git, the header's symbol table, its revisions. */
  datatype FileHistory = FileHistory(
    rcsPath: string,
    filename: string,
    symbols: map<string, string>,
    revisions: seq<Revision>)

  /**
    What ends a revision block. `AsWritten` is `parse_rlog` as written, in which a
    `revision ` line met inside a block (after a log body that no `text` line
    closed) is skipped like any unrecognised line; `EndAtRevision` ends the block
    there instead, so that the line starts the next block.
   */
  datatype Mode = AsWritten | EndAtRevision

  /** The clock and the ISO-8601 fallback used for revision dates. */
  datatype DateEnv = DateEnv(now: int, iso: string -> Option<int>)

  /**
    A line of `rlog` output with its `strip()`: every test the parser makes is on
    the stripped line, while log bodies keep the raw one.
   */
  datatype RawLine = RawLine(raw: string, text: string)
  type Line = l: RawLine | Stripped(l.text) witness RawLine("", "")

  /** `out.splitlines()`, each line paired with its `strip()`. */
  function ReadLines(ls: seq<string>): (r: seq<Line>)
    ensures |r| == |ls|
    ensures forall k :: 0 <= k < |ls| ==> r[k].raw == ls[k] && r[k].text == Strip(ls[k])
  {
    seq(|ls|, k requires 0 <= k < |ls| => RawLine(ls[k], Strip(ls[k])))
  }

  /** The raw text of some lines. */
  function Raws(ls: seq<Line>): (r: seq<string>)
    ensures |r| == |ls|
    ensures forall k :: 0 <= k < |ls| ==> r[k] == ls[k].raw
  {
    seq(|ls|, k requires 0 <= k < |ls| => ls[k].raw)
  }

  // ---------------------------------------------------------------------------
  // Line classification
  // ---------------------------------------------------------------------------

  /** A line that opens a revision block. */
  predicate IsRevisionLine(l: Line) {
    StartsWith(l.text, "revision ")
  }

  predicate NoRevisionLine(ls: seq<Line>) {
    forall k :: 0 <= k < |ls| ==> !IsRevisionLine(ls[k])
  }

  /** A stripped line that closes a revision block and is consumed with it. */
  predicate IsTerminator(t: string) {
    |t| == 0 || StartsWith(t, "-----") || StartsWith(t, "=====") || StartsWith(t, "text")
  }

  /** Where a log body stops: a line starting `text` or `revision`. */
  predicate EndsLog(l: Line) {
    StartsWith(l.text, "text") || StartsWith(l.text, "revision")
  }

  /** A revision line is nothing else the block parser looks for. */
  lemma RevisionLineIsNotField(t: string)
    ensures StartsWith(t, "revision ") ==>
      && !StartsWith(t, "date:") && !StartsWith(t, "branches:")
      && !StartsWith(t, "symbols:") && !StartsWith(t, "symbol:") && t != "log"
      && !IsTerminator(t) && StartsWith(t, "revision")
  {
    if StartsWith(t, "revision ") {
      StartsWithShorter(t, "revision ", "revision");
      FirstChar(t, "revision ");
      FirstChar(t, "date:");
      FirstChar(t, "branches:");
      FirstChar(t, "symbol:");
      FirstChar(t, "symbols:");
      FirstChar(t, "-----");
      FirstChar(t, "=====");
      FirstChar(t, "text");
    }
  }

  /** A string that starts with a non-empty prefix starts with its first character. */
  lemma FirstChar(s: string, p: string)
    requires |p| > 0
    ensures StartsWith(s, p) ==> s[0] == p[0]
  {
    if StartsWith(s, p) {
      assert s[..|p|][0] == s[0];
    }
  }

  /** `revision ` starts with `revision`. */
  lemma StartsWithShorter(s: string, p: string, q: string)
    requires p == "revision " && q == "revision"
    requires StartsWith(s, p)
    ensures StartsWith(s, q)
  {
    assert s[..|q|] == s[..|p|][..|q|];
  }

  /** The revision label of a revision line: the second white-space separated word. */
  function Label(l: Line): string
    requires IsRevisionLine(l)
  {
    RevisionWords(l.text);
    Words(l.text)[1]
  }

  /** A stripped line starting `revision ` has at least two words, the first being `revision`. */
  lemma RevisionWords(t: string)
    requires Stripped(t) && StartsWith(t, "revision ")
    ensures |Words(t)| >= 2 && Words(t)[0] == "revision"
  {
    var x := t[9..];
    assert t == "revision" + (" " + x);
    assert |x| > 0 && !IsSpace(x[|x| - 1]) by {
      assert t[|t| - 1] == x[|x| - 1];
    }
    WordsWord("revision", " " + x);
    WordsSpace(x);
    WordsNonBlank(x, |x| - 1);
  }

  /** The labels of the revision lines among `ls`, in order. */
  function RevisionLabels(ls: seq<Line>): seq<string>
    decreases |ls|
  {
    if |ls| == 0 then []
    else if IsRevisionLine(ls[0]) then [Label(ls[0])] + RevisionLabels(ls[1..])
    else RevisionLabels(ls[1..])
  }

  // ---------------------------------------------------------------------------
  // `name:rev;` lists
  // ---------------------------------------------------------------------------

  /** One `name:rev` entry of a symbol list, both sides stripped; blank or colon-less entries are skipped. */
  function PairOf(pair: string): (r: Option<(string, string)>)
    ensures r.Some? ==> ':' !in r.value.0
  {
    var p := Strip(pair);
    if |p| == 0 || ':' !in p then None
    else
      var k := IndexOf(p, ':');
      StripChars(p[..k]);
      Some((Strip(p[..k]), Strip(After(p, ':'))))
  }

  /** The header's table after the entries of one symbol line, later entries overriding earlier ones. */
  function AddPairs(table: map<string, string>, pairs: seq<string>): (r: map<string, string>)
    ensures r.Keys == table.Keys + PairNames(pairs)
    decreases |pairs|
  {
    if |pairs| == 0 then table
    else
      var t := match PairOf(pairs[0]) case Some((n, v)) => table[n := v] case None => table;
      AddPairs(t, pairs[1..])
  }

  /** The value of the last entry of a symbol line that names `name`, if any. */
  function LastPair(pairs: seq<string>, name: string): Option<string>
    decreases |pairs|
  {
    if |pairs| == 0 then None
    else
      match LastPair(pairs[1..], name)
      case Some(v) => Some(v)
      case None =>
        match PairOf(pairs[0])
        case Some((n, v)) => if n == name then Some(v) else None
        case None => None
  }

  /**
    After a symbol line, a name maps to the value of its last entry on the line,
    and a name the line does not mention keeps its earlier value.
   */
  lemma {:induction false} AddPairsLast(table: map<string, string>, pairs: seq<string>, name: string)
    ensures var r := AddPairs(table, pairs);
      match LastPair(pairs, name)
      case Some(v) => name in r && r[name] == v
      case None => (name in r <==> name in table) && (name in table ==> r[name] == table[name])
    decreases |pairs|
  {
    if |pairs| > 0 {
      var t := match PairOf(pairs[0]) case Some((n, v)) => table[n := v] case None => table;
      AddPairsLast(t, pairs[1..], name);
    }
  }

  /** The symbol names of a per-revision symbol list. */
  function PairNames(pairs: seq<string>): set<string>
    decreases |pairs|
  {
    if |pairs| == 0 then {}
    else
      (match PairOf(pairs[0]) case Some((n, _)) => {n} case None => {}) + PairNames(pairs[1..])
  }

  /**
    A symbol list that holds a `;` but does not end with one continues on the
    next lines, stripped and joined with single spaces, up to a line starting
    with `stop`. The continuation lines are not consumed.
   */
  function Continue(rest: string, next: seq<Line>, stop: string): string
    decreases |next|
  {
    if Open(rest) && |next| > 0 && !StartsWith(next[0].text, stop)
    then Continue(rest + " " + next[0].text, next[1..], stop)
    else rest
  }

  /** A symbol list that asks for more: it holds a `;`, but its strip does not end with one. */
  predicate Open(rest: string) {
    var t := Strip(rest);
    ';' in rest && !(|t| > 0 && t[|t| - 1] == ';')
  }

  /** The stripped lines, each after a single space. */
  function Spaced(ls: seq<Line>): (r: string)
    ensures |r| >= |ls|
    decreases |ls|
  {
    if |ls| == 0 then "" else " " + ls[0].text + Spaced(ls[1..])
  }

  /** The spaced form of a prefix of `k + 1` lines starts with the first line. */
  lemma SpacedPrefix(ls: seq<Line>, k: nat)
    requires k < |ls|
    ensures Spaced(ls[..k + 1]) == " " + ls[0].text + Spaced(ls[1..][..k])
  {
    assert ls[..k + 1][1..] == ls[1..][..k];
  }

  /**
    What the continuation appends: the first `k` lines, each after a space, when
    the list was still open before each of them and none starts with `stop`, and
    after them the list is closed, the lines run out or the next one starts with
    `stop`. (Exactly one `k` meets these conditions: the first at which the loop
    would stop.)
   */
  lemma {:induction false} ContinueTakes(rest: string, next: seq<Line>, stop: string, k: nat)
    requires k <= |next|
    requires forall i :: 0 <= i < k ==> Open(rest + Spaced(next[..i])) && !StartsWith(next[i].text, stop)
    requires !Open(rest + Spaced(next[..k])) || k == |next| || StartsWith(next[k].text, stop)
    ensures Continue(rest, next, stop) == rest + Spaced(next[..k])
    decreases k
  {
    assert next[..0] == [];
    assert rest + Spaced(next[..0]) == rest;
    if k > 0 {
      var more := rest + " " + next[0].text;
      assert Open(rest) && !StartsWith(next[0].text, stop);
      assert Continue(rest, next, stop) == Continue(more, next[1..], stop);
      TakesShift(rest, next, stop, k);
      ContinueTakes(more, next[1..], stop, k - 1);
    }
  }

  /** The conditions of `ContinueTakes` after the first line has been taken. */
  lemma TakesShift(rest: string, next: seq<Line>, stop: string, k: nat)
    requires 0 < k <= |next|
    requires forall i :: 0 <= i < k ==> Open(rest + Spaced(next[..i])) && !StartsWith(next[i].text, stop)
    requires !Open(rest + Spaced(next[..k])) || k == |next| || StartsWith(next[k].text, stop)
    ensures var more, tail := rest + " " + next[0].text, next[1..];
      && (forall i :: 0 <= i < k - 1 ==> Open(more + Spaced(tail[..i])) && !StartsWith(tail[i].text, stop))
      && (!Open(more + Spaced(tail[..k - 1])) || k - 1 == |tail| || StartsWith(tail[k - 1].text, stop))
      && more + Spaced(tail[..k - 1]) == rest + Spaced(next[..k])
  {
    var more, tail := rest + " " + next[0].text, next[1..];
    forall i | 0 <= i <= k - 1
      ensures more + Spaced(tail[..i]) == rest + Spaced(next[..i + 1])
    {
      SpacedPrefix(next, i);
    }
  }

  /**
    An open list continued by one line that ends with `;` takes that line and
    stops there; and the same list written on one line does not continue.
   */
  lemma ContinueOneLine(rest: string, b: Line, next: seq<Line>, stop: string)
    requires Open(rest) && !StartsWith(b.text, stop)
    requires |b.text| > 0 && b.text[|b.text| - 1] == ';'
    ensures Continue(rest, [b] + next, stop) == rest + " " + b.text
    ensures Continue(rest + " " + b.text, next, stop) == rest + " " + b.text
  {
    var joined := rest + " " + b.text;
    StripLast(joined);
    assert !Open(joined);
    var ls := [b] + next;
    assert ls[..0] == [] && ls[..1] == [b] && ls[0] == b;
    assert Spaced([b]) == " " + b.text + Spaced([]);
    assert rest + Spaced(ls[..0]) == rest;
    assert rest + Spaced(ls[..1]) == joined;
    ContinueTakes(rest, ls, stop, 1);
    assert next[..0] == [];
    assert joined + Spaced(next[..0]) == joined;
    ContinueTakes(joined, next, stop, 0);
  }

  /**
    A `symbols:` header line whose list is broken after a `;` and finished on the
    next line reads as if the two were written on one line, joined by a space.
   */
  lemma HeaderSymbolsBroken(t: string, b: Line, next: seq<Line>, table: map<string, string>)
    requires ':' in t && Open(After(t, ':'))
    requires !StartsWith(b.text, "revision")
    requires |b.text| > 0 && b.text[|b.text| - 1] == ';'
    ensures HeaderSymbols(t, [b] + next, table) == HeaderSymbols(t + " " + b.text, next, table)
  {
    var rest, u := After(t, ':'), " " + b.text;
    var joined := rest + " " + b.text;
    assert t + " " + b.text == t + u;
    assert joined == rest + u;
    AfterAppend(t, ':', u);
    ContinueOneLine(rest, b, next, "revision");
    var pairs := Split(Strip(joined), ';');
    assert HeaderSymbols(t, [b] + next, table) == AddPairs(table, pairs) by {
      HeaderSymbolsOf(t, [b] + next, table);
    }
    assert HeaderSymbols(t + u, next, table) == AddPairs(table, pairs) by {
      HeaderSymbolsOf(t + u, next, table);
    }
  }

  /** The table after a header line holding `:`, from the list after the first `:` and its continuation. */
  lemma HeaderSymbolsOf(t: string, next: seq<Line>, table: map<string, string>)
    requires ':' in t
    ensures HeaderSymbols(t, next, table) == AddPairs(table, Split(Strip(Continue(After(t, ':'), next, "revision")), ';'))
  {
  }

  // ---------------------------------------------------------------------------
  // The header: symbol lines up to the first revision line
  // ---------------------------------------------------------------------------

  /** The symbol table after one header line starting `symbol`, looking ahead for continuation lines. */
  function HeaderSymbols(t: string, next: seq<Line>, table: map<string, string>): map<string, string>
  {
    var rest := if ':' in t then After(t, ':') else "";
    AddPairs(table, Split(Strip(Continue(rest, next, "revision")), ';'))
  }

  /** The number of header lines: those before the first revision line. */
  function HeaderLength(ls: seq<Line>): (n: nat)
    ensures n <= |ls| && (n == |ls| || IsRevisionLine(ls[n]))
    decreases |ls|
  {
    if |ls| == 0 || IsRevisionLine(ls[0]) then 0 else 1 + HeaderLength(ls[1..])
  }

  /**
    The symbol table gathered from the first `n` lines of `ls`. Every line is
    looked at once, continuation lines included; a continuation may look ahead
    at the following lines. (The loop also looks at the revision line that ends
    the header, which never starts with `symbol`.)
   */
  function HeaderTable(ls: seq<Line>, n: nat, table: map<string, string>): map<string, string>
    requires n <= |ls|
    decreases n
  {
    if n == 0 then table
    else
      var t := ls[0].text;
      HeaderTable(ls[1..], n - 1, if StartsWith(t, "symbol") then HeaderSymbols(t, ls[1..], table) else table)
  }

  /** Prefixing a non-revision line to a revision-free prefix keeps it revision-free. */
  lemma NoRevisionCons(ls: seq<Line>, n: nat)
    requires 1 <= n <= |ls| && !IsRevisionLine(ls[0]) && NoRevisionLine(ls[1..][..n - 1])
    ensures NoRevisionLine(ls[..n])
  {
    assert ls[..n] == [ls[0]] + ls[1..][..n - 1];
  }

  /** The header holds no revision line: the first one starts the blocks. */
  lemma {:induction false} HeaderHasNoRevisionLine(ls: seq<Line>)
    ensures NoRevisionLine(ls[..HeaderLength(ls)])
    decreases |ls|
  {
    if |ls| > 0 && !IsRevisionLine(ls[0]) {
      HeaderHasNoRevisionLine(ls[1..]);
      NoRevisionCons(ls, HeaderLength(ls));
    }
  }

  // ---------------------------------------------------------------------------
  // Revision blocks
  // ---------------------------------------------------------------------------

  /** A `branches:` value: its words, when it is not blank. */
  function Branches(r: Revision, v: string): (r': Revision)
    ensures r'.(branches := r.branches) == r
  {
    var b := Strip(v);
    if |b| > 0 then r.(branches := Words(b)) else r
  }

  /** One `;`-separated field of a `date:` line. */
  function DateField(r: Revision, p: string, env: DateEnv): (r': Revision)
    ensures r'.rev == r.rev && r'.symbols == r.symbols && r'.log == r.log
  {
    if StartsWith(p, "date:") then
      var v := Strip(p[5..]);
      r.(dateIso := Some(v), dateTs := Some(RcsDate.ParseRcsDate(v, env.now, env.iso)))
    else if StartsWith(p, "author:") then r.(author := Some(Strip(p[7..])))
    else if StartsWith(p, "state:") then r.(state := Some(Strip(p[6..])))
    else if StartsWith(p, "branches:") then Branches(r, p[9..])
    else r
  }

  /** The fields of a `date:` line, left to right; a later field of the same kind wins. */
  function DateFields(r: Revision, parts: seq<string>, env: DateEnv): (r': Revision)
    ensures r'.rev == r.rev && r'.symbols == r.symbols && r'.log == r.log
    decreases |parts|
  {
    if |parts| == 0 then r else DateFields(DateField(r, Strip(parts[0]), env), parts[1..], env)
  }

  /** The log body: lines up to one starting `text` or `revision`. */
  function LogLines(ls: seq<Line>): (r: (seq<Line>, seq<Line>))
    ensures r.0 + r.1 == ls
    ensures forall k :: 0 <= k < |r.0| ==> !EndsLog(r.0[k])
    ensures |r.1| == 0 || EndsLog(r.1[0])
    decreases |ls|
  {
    if |ls| == 0 || EndsLog(ls[0]) then ([], ls)
    else
      var r := LogLines(ls[1..]);
      var front := [ls[0]] + r.0;
      assert front + r.1 == ls by {
        assert front + r.1 == [ls[0]] + (r.0 + r.1);
        assert [ls[0]] + ls[1..] == ls;
      }
      assert forall k :: 0 <= k < |front| ==> !EndsLog(front[k]) by {
        forall k | 0 <= k < |front| ensures !EndsLog(front[k]) {
          if k > 0 { assert front[k] == r.0[k - 1]; }
        }
      }
      (front, r.1)
  }

  /** How one line of a block moves the parser: the block ends, or goes on, after `used` lines. */
  datatype Shape = Ends(used: nat) | Goes(used: nat)

  /** Which of the block parser's branches a stripped line takes. */
  predicate IsFieldLine(t: string) {
    StartsWith(t, "date:") || StartsWith(t, "branches:") || StartsWith(t, "symbols:") || StartsWith(t, "symbol:")
  }

  /**
    How far one line of a revision block moves the parser. A field line takes
    one line, a `log` line takes its body with it. A block ends at a blank,
    `-----`, `=====` or `text` line, which is consumed; with `EndAtRevision` it
    also ends, without consuming it, at a revision line. Any other line is
    skipped.
   */
  function StepShape(ls: seq<Line>, mode: Mode): (s: Shape)
    requires |ls| > 0
    ensures s.used <= |ls| && (s.Goes? ==> s.used > 0)
  {
    var t := ls[0].text;
    if IsFieldLine(t) then Goes(1)
    else if t == "log" then Goes(1 + |LogLines(ls[1..]).0|)
    else if IsTerminator(t) then Ends(1)
    else if mode == EndAtRevision && IsRevisionLine(ls[0]) then Ends(0)
    else Goes(1)
  }

  /** What one line of a revision block (with its log body, for a `log` line) does to the revision. */
  function StepRevision(ls: seq<Line>, r: Revision, env: DateEnv): (r': Revision)
    requires |ls| > 0
    ensures r'.rev == r.rev
  {
    var t := ls[0].text;
    if StartsWith(t, "date:") then
      DateFields(r, Split(t, ';'), env)
    else if StartsWith(t, "branches:") then Branches(r, t[9..])
    else if StartsWith(t, "symbols:") || StartsWith(t, "symbol:") then
      var rest := if ':' in t then After(t, ':') else "";
      r.(symbols := r.symbols + PairNames(Split(Continue(rest, ls[1..], "log"), ';')))
    else if t == "log" then
      r.(log := TrimRight(Join(Raws(LogLines(ls[1..]).0), "\n")))
    else r
  }

  /** A `date:` line is one line, read field by field. */
  lemma DateLineStep(ls: seq<Line>, r: Revision, mode: Mode, env: DateEnv)
    requires |ls| > 0 && StartsWith(ls[0].text, "date:")
    ensures StepShape(ls, mode) == Goes(1)
    ensures StepRevision(ls, r, env) == DateFields(r, Split(ls[0].text, ';'), env)
  {
  }

  /** A `branches:` line with a value is one line that sets the branches. */
  lemma BranchesLineStep(ls: seq<Line>, r: Revision, mode: Mode, env: DateEnv)
    requires |ls| > 0 && StartsWith(ls[0].text, "branches:")
    ensures StepShape(ls, mode) == Goes(1)
    ensures StepRevision(ls, r, env) == Branches(r, ls[0].text[9..])
  {
    var t := ls[0].text;
    FirstChar(t, "date:");
    assert !StartsWith(t, "date:");
    assert IsFieldLine(t);
  }

  /** A `log` line takes the log body with it. */
  lemma LogLineStep(ls: seq<Line>, r: Revision, mode: Mode, env: DateEnv)
    requires |ls| > 0 && ls[0].text == "log"
    ensures StepShape(ls, mode) == Goes(1 + |LogLines(ls[1..]).0|)
    ensures StepRevision(ls, r, env) == r.(log := TrimRight(Join(Raws(LogLines(ls[1..]).0), "\n")))
  {
    FirstChar("log", "date:");
    FirstChar("log", "branches:");
    FirstChar("log", "symbols:");
    FirstChar("log", "symbol:");
  }

  /** The number of lines of a revision block after its `revision` line. */
  function BlockLength(ls: seq<Line>, mode: Mode): (n: nat)
    ensures n <= |ls|
    decreases |ls|
  {
    if |ls| == 0 then 0
    else
      match StepShape(ls, mode)
      case Ends(n) => n
      case Goes(n) => n + BlockLength(ls[n..], mode)
  }

  /** The revision a block describes: the lines after its `revision` line, applied in order. */
  function BlockRevision(ls: seq<Line>, r: Revision, mode: Mode, env: DateEnv): (r': Revision)
    ensures r'.rev == r.rev
    decreases |ls|
  {
    if |ls| == 0 then r
    else
      match StepShape(ls, mode)
      case Ends(_) => r
      case Goes(n) => BlockRevision(ls[n..], StepRevision(ls, r, env), mode, env)
  }

  /** A step that goes on adds its lines to the block and its fields to the revision. */
  lemma BlockGoes(ls: seq<Line>, r: Revision, mode: Mode, env: DateEnv)
    requires |ls| > 0 && StepShape(ls, mode).Goes?
    ensures BlockLength(ls, mode) == StepShape(ls, mode).used + BlockLength(ls[StepShape(ls, mode).used..], mode)
    ensures BlockRevision(ls, r, mode, env)
      == BlockRevision(ls[StepShape(ls, mode).used..], StepRevision(ls, r, env), mode, env)
  {
  }

  /** A step that ends the block adds its lines and nothing else. */
  lemma BlockEnds(ls: seq<Line>, r: Revision, mode: Mode, env: DateEnv)
    requires |ls| > 0 && StepShape(ls, mode).Ends?
    ensures BlockLength(ls, mode) == StepShape(ls, mode).used
    ensures BlockRevision(ls, r, mode, env) == r
  {
  }

  /** Log lines are never revision lines. */
  lemma LogHasNoRevisionLine(taken: seq<Line>)
    requires forall k :: 0 <= k < |taken| ==> !EndsLog(taken[k])
    ensures NoRevisionLine(taken)
  {
    forall k | 0 <= k < |taken|
      ensures !IsRevisionLine(taken[k])
    {
      RevisionLineIsNotField(taken[k].text);
    }
  }

  /** With `EndAtRevision`, one step never consumes a revision line. */
  lemma StepHasNoRevisionLine(ls: seq<Line>)
    requires |ls| > 0
    ensures NoRevisionLine(ls[..StepShape(ls, EndAtRevision).used])
  {
    var t := ls[0].text;
    RevisionLineIsNotField(t);
    if StepShape(ls, EndAtRevision).used > 0 {
      if t == "log" {
        var taken := LogLines(ls[1..]).0;
        LogHasNoRevisionLine(taken);
        assert ls[1..][..|taken|] == taken;
        NoRevisionCons(ls, 1 + |taken|);
      } else {
        NoRevisionCons(ls, 1);
      }
    }
  }

  /** A revision-free stretch followed by another is revision-free. */
  lemma NoRevisionAppend(ls: seq<Line>, n: nat, m: nat)
    requires n + m <= |ls| && NoRevisionLine(ls[..n]) && NoRevisionLine(ls[n..][..m])
    ensures NoRevisionLine(ls[..n + m])
  {
    assert ls[..n + m] == ls[..n] + ls[n..][..m];
  }

  /** With `EndAtRevision`, a block never swallows a revision line. */
  lemma {:induction false} BlockHasNoRevisionLine(ls: seq<Line>)
    ensures NoRevisionLine(ls[..BlockLength(ls, EndAtRevision)])
    decreases |ls|
  {
    if |ls| > 0 {
      StepHasNoRevisionLine(ls);
      var s := StepShape(ls, EndAtRevision);
      if s.Goes? {
        BlockHasNoRevisionLine(ls[s.used..]);
        NoRevisionAppend(ls, s.used, BlockLength(ls[s.used..], EndAtRevision));
      }
    }
  }

  /** The revision blocks, newest first as `rlog` prints them. */
  function Blocks(ls: seq<Line>, mode: Mode, env: DateEnv): seq<Revision>
    decreases |ls|
  {
    if |ls| == 0 then []
    else if IsRevisionLine(ls[0]) then
      var body := ls[1..];
      [BlockRevision(body, NewRevision(Label(ls[0])), mode, env)] + Blocks(body[BlockLength(body, mode)..], mode, env)
    else Blocks(ls[1..], mode, env)
  }

  /** A revision line starts a block: one revision, then the blocks after its lines. */
  lemma BlocksAtRevision(ls: seq<Line>, mode: Mode, env: DateEnv)
    requires |ls| > 0 && IsRevisionLine(ls[0])
    ensures Blocks(ls, mode, env)
      == [BlockRevision(ls[1..], NewRevision(Label(ls[0])), mode, env)]
         + Blocks(ls[1..][BlockLength(ls[1..], mode)..], mode, env)
  {
  }

  /** In both modes, a block never holds more than one revision line's worth of revisions. */
  lemma {:induction false} BlocksAtMostRevisionLines(ls: seq<Line>, mode: Mode, env: DateEnv)
    ensures |Blocks(ls, mode, env)| <= |RevisionLabels(ls)|
    decreases |ls|
  {
    if |ls| > 0 {
      if IsRevisionLine(ls[0]) {
        var body := ls[1..];
        var n := BlockLength(body, mode);
        BlocksAtMostRevisionLines(body[n..], mode, env);
        RevisionLabelsSuffix(body, n);
      } else {
        BlocksAtMostRevisionLines(ls[1..], mode, env);
      }
    }
  }

  /** Dropping lines never adds revision lines. */
  lemma {:induction false} RevisionLabelsSuffix(ls: seq<Line>, n: nat)
    requires n <= |ls|
    ensures |RevisionLabels(ls[n..])| <= |RevisionLabels(ls)|
    decreases n
  {
    if n > 0 {
      RevisionLabelsSuffix(ls[1..], n - 1);
      assert ls[1..][n - 1..] == ls[n..];
    }
  }

  /** Dropping lines that hold no revision line keeps every revision label. */
  lemma {:induction false} RevisionLabelsSkip(ls: seq<Line>, n: nat)
    requires n <= |ls| && NoRevisionLine(ls[..n])
    ensures RevisionLabels(ls[n..]) == RevisionLabels(ls)
    decreases n
  {
    if n > 0 {
      assert ls[..n][0] == ls[0];
      assert ls[1..][..n - 1] == ls[..n][1..];
      RevisionLabelsSkip(ls[1..], n - 1);
      assert ls[1..][n - 1..] == ls[n..];
    }
  }

  /** The labels of some revisions, in order. */
  function Labels(revs: seq<Revision>): (r: seq<string>)
    ensures |r| == |revs| && forall i :: 0 <= i < |revs| ==> r[i] == revs[i].rev
  {
    seq(|revs|, i requires 0 <= i < |revs| => revs[i].rev)
  }

  /** With `EndAtRevision`, there is one revision per revision line, in order, with that line's label. */
  lemma {:induction false} BlocksLabels(ls: seq<Line>, env: DateEnv)
    ensures Labels(Blocks(ls, EndAtRevision, env)) == RevisionLabels(ls)
    decreases |ls|
  {
    if |ls| > 0 {
      if IsRevisionLine(ls[0]) {
        var body := ls[1..];
        var n := BlockLength(body, EndAtRevision);
        BlockHasNoRevisionLine(body);
        RevisionLabelsSkip(body, n);
        BlocksLabels(body[n..], env);
        LabelsCons(BlockRevision(body, NewRevision(Label(ls[0])), EndAtRevision, env), Blocks(body[n..], EndAtRevision, env));
      } else {
        BlocksLabels(ls[1..], env);
      }
    }
  }

  lemma LabelsCons(r: Revision, revs: seq<Revision>)
    ensures Labels([r] + revs) == [r.rev] + Labels(revs)
  {
  }

  // ---------------------------------------------------------------------------
  // Attaching the header's symbols
  // ---------------------------------------------------------------------------

  /** No revision before position `i` carries the label of revision `i`. */
  predicate FirstOfLabel(labels: seq<string>, i: nat)
    requires i < |labels|
  {
    forall j :: 0 <= j < i ==> labels[j] != labels[i]
  }

  /** The inner loop of the attach step: `name` goes on the first revision labelled `target`, if any. */
  function AttachName(revs: seq<Revision>, name: string, target: string): (out: seq<Revision>)
    ensures Labels(out) == Labels(revs)
    decreases |revs|
  {
    if |revs| == 0 then []
    else if revs[0].rev == target then [revs[0].(symbols := revs[0].symbols + {name})] + revs[1..]
    else
      var rest := AttachName(revs[1..], name, target);
      LabelsCons(revs[0], rest);
      LabelsCons(revs[0], revs[1..]);
      HeadTail(revs);
      [revs[0]] + rest
  }

  /** What `AttachName` adds to revision `i`: `name`, exactly when `i` is the first revision labelled `target`. */
  function NameGain(labels: seq<string>, i: nat, name: string, target: string): set<string>
    requires i < |labels|
  {
    if labels[i] == target && FirstOfLabel(labels, i) then {name} else {}
  }

  lemma {:induction false} AttachNameSpec(revs: seq<Revision>, name: string, target: string)
    ensures forall i :: 0 <= i < |revs| ==>
      AttachName(revs, name, target)[i] == revs[i].(symbols := revs[i].symbols + NameGain(Labels(revs), i, name, target))
    decreases |revs|
  {
    if |revs| > 0 {
      var out := AttachName(revs, name, target);
      if revs[0].rev == target {
        assert out == [revs[0].(symbols := revs[0].symbols + {name})] + revs[1..];
        forall i | 0 <= i < |revs|
          ensures out[i] == revs[i].(symbols := revs[i].symbols + NameGain(Labels(revs), i, name, target))
        {
          if i > 0 {
            var l := Labels(revs);
            assert NameGain(l, i, name, target) == {} by {
              if l[i] == target {
                assert l[0] == l[i];
              }
            }
            assert revs[i].symbols + {} == revs[i].symbols;
          }
        }
      } else {
        AttachNameSpec(revs[1..], name, target);
        forall i | 0 <= i < |revs|
          ensures out[i] == revs[i].(symbols := revs[i].symbols + NameGain(Labels(revs), i, name, target))
        {
          if i > 0 {
            FirstOfLabelTail(revs, i, target);
          }
        }
      }
    }
  }

  /** Past a first revision not labelled `target`, being the first labelled `target` is the same in the tail. */
  lemma FirstOfLabelTail(revs: seq<Revision>, i: nat, target: string)
    requires 0 < i < |revs| && revs[0].rev != target
    ensures NameGain(Labels(revs), i, "", target) == NameGain(Labels(revs[1..]), i - 1, "", target)
    ensures forall name :: NameGain(Labels(revs), i, name, target) == NameGain(Labels(revs[1..]), i - 1, name, target)
  {
    var l := Labels(revs);
    var t := Labels(revs[1..]);
    if l[i] == target {
      assert FirstOfLabel(l, i) <==> FirstOfLabel(t, i - 1) by {
        assert forall j :: 1 <= j < i ==> l[j] == t[j - 1];
      }
    }
  }

  /** The outer loop of the attach step, over the names in `names`. */
  function AttachNames(revs: seq<Revision>, names: seq<string>, table: map<string, string>): (out: seq<Revision>)
    requires forall k :: 0 <= k < |names| ==> names[k] in table
    ensures Labels(out) == Labels(revs)
    decreases |names|
  {
    if |names| == 0 then revs
    else AttachNames(AttachName(revs, names[0], table[names[0]]), names[1..], table)
  }

  /** The header's symbols on the revisions, every name of the table in turn. */
  function Attached(revs: seq<Revision>, table: map<string, string>): seq<Revision> {
    AttachNames(revs, SortedStrings(table.Keys), table)
  }

  /** The names of `names` that the table points at the label of revision `i`, when `i` is the first with its label. */
  function Gain(labels: seq<string>, i: nat, names: seq<string>, table: map<string, string>): set<string>
    requires i < |labels|
    requires forall k :: 0 <= k < |names| ==> names[k] in table
  {
    set k | 0 <= k < |names| && table[names[k]] == labels[i] && FirstOfLabel(labels, i) :: names[k]
  }

  lemma {:induction false} AttachNamesSpec(revs: seq<Revision>, names: seq<string>, table: map<string, string>)
    requires forall k :: 0 <= k < |names| ==> names[k] in table
    ensures |AttachNames(revs, names, table)| == |revs|
    ensures forall i :: 0 <= i < |revs| ==>
      AttachNames(revs, names, table)[i] == revs[i].(symbols := revs[i].symbols + Gain(Labels(revs), i, names, table))
    decreases |names|
  {
    if |names| > 0 {
      var mid := AttachName(revs, names[0], table[names[0]]);
      AttachNameSpec(revs, names[0], table[names[0]]);
      AttachNamesSpec(mid, names[1..], table);
      forall i | 0 <= i < |revs|
        ensures AttachNames(revs, names, table)[i] == revs[i].(symbols := revs[i].symbols + Gain(Labels(revs), i, names, table))
      {
        GainCons(Labels(revs), i, names, table);
      }
    }
  }

  lemma GainCons(labels: seq<string>, i: nat, names: seq<string>, table: map<string, string>)
    requires i < |labels| && |names| > 0
    requires forall k :: 0 <= k < |names| ==> names[k] in table
    ensures Gain(labels, i, names, table)
      == NameGain(labels, i, names[0], table[names[0]]) + Gain(labels, i, names[1..], table)
  {
    var g := Gain(labels, i, names, table);
    var h := NameGain(labels, i, names[0], table[names[0]]) + Gain(labels, i, names[1..], table);
    forall x | x in g ensures x in h {
      var k :| 0 <= k < |names| && table[names[k]] == labels[i] && FirstOfLabel(labels, i) && names[k] == x;
      if k > 0 {
        assert names[1..][k - 1] == x;
      }
    }
    forall x | x in h ensures x in g {
      if x !in NameGain(labels, i, names[0], table[names[0]]) {
        var k :| 0 <= k < |names| - 1 && table[names[1..][k]] == labels[i] && FirstOfLabel(labels, i) && names[1..][k] == x;
        assert names[k + 1] == x;
      }
    }
  }

  /**
    The attach step: every revision keeps its fields and gains exactly the
    header names whose revision is its label, when it is the first revision
    with that label; a name whose revision labels nothing is attached nowhere.
    The result does not depend on the order in which the table is walked.
   */
  lemma AttachedSpec(revs: seq<Revision>, table: map<string, string>)
    ensures |Attached(revs, table)| == |revs|
    ensures forall i :: 0 <= i < |revs| ==>
      Attached(revs, table)[i] == revs[i].(symbols := revs[i].symbols +
        set n | n in table && table[n] == revs[i].rev && FirstOfLabel(Labels(revs), i))
  {
    var names := SortedStrings(table.Keys);
    AttachNamesSpec(revs, names, table);
    forall i | 0 <= i < |revs|
      ensures Gain(Labels(revs), i, names, table)
        == set n | n in table && table[n] == revs[i].rev && FirstOfLabel(Labels(revs), i)
    {
      GainOfKeys(Labels(revs), i, names, table);
    }
  }

  lemma GainOfKeys(labels: seq<string>, i: nat, names: seq<string>, table: map<string, string>)
    requires i < |labels|
    requires forall x :: x in names <==> x in table
    ensures Gain(labels, i, names, table) == set n | n in table && table[n] == labels[i] && FirstOfLabel(labels, i)
  {
    var g := Gain(labels, i, names, table);
    forall x | x in table && table[x] == labels[i] && FirstOfLabel(labels, i) ensures x in g {
      var k :| 0 <= k < |names| && names[k] == x;
    }
  }

  // ---------------------------------------------------------------------------
  // File names
  // ---------------------------------------------------------------------------

  /** `os.path.basename(p)`: what follows the last `/`. */
  function Basename(p: string): (r: string)
    ensures '/' !in r
    decreases |p|
  {
    if |p| == 0 || p[|p| - 1] == '/' then "" else Basename(p[..|p| - 1]) + [p[|p| - 1]]
  }

  /** `s.replace(pat, "")`: every occurrence of `pat`, scanning left to right, removed. */
  function RemoveAll(s: string, pat: string): (r: string)
    requires |pat| > 0
    ensures |r| <= |s|
    decreases |s|
  {
    if |s| < |pat| then s
    else if s[..|pat|] == pat then RemoveAll(s[|pat|..], pat)
    else [s[0]] + RemoveAll(s[1..], pat)
  }

  /** The file name in git of a `,v` file: its base name without `,v`. */
  function Filename(rcsPath: string): string {
    RemoveAll(Basename(rcsPath), ",v")
  }

  /** A name holding no `,v`. */
  predicate NoComma(name: string) {
    forall k :: 0 <= k < |name| - 1 ==> !(name[k] == ',' && name[k + 1] == 'v')
  }

  lemma {:induction false} BasenameOf(dir: string, name: string)
    requires '/' !in name
    ensures Basename(dir + "/" + name) == name
    decreases |name|
  {
    if |name| > 0 {
      var p := dir + "/" + name;
      assert p[..|p| - 1] == dir + "/" + name[..|name| - 1];
      BasenameOf(dir, name[..|name| - 1]);
      assert name == name[..|name| - 1] + [name[|name| - 1]];
    } else {
      assert dir + "/" + name == dir + "/";
    }
  }

  lemma {:induction false} RemoveSuffix(name: string)
    requires NoComma(name)
    ensures RemoveAll(name + ",v", ",v") == name
    decreases |name|
  {
    var s := name + ",v";
    if |name| == 0 {
      assert s[..2] == ",v";
      assert s[2..] == "";
    } else {
      assert s[..2] != ",v" by {
        if |name| == 1 {
          assert s[1] == ',';
        } else {
          assert s[0] == name[0] && s[1] == name[1];
        }
      }
      assert s[1..] == name[1..] + ",v";
      RemoveSuffix(name[1..]);
      HeadTail(name);
    }
  }

  /** `dir/name,v` becomes `name` in git, when `name` holds no `/` and no `,v`. */
  lemma FilenameOf(dir: string, name: string)
    requires '/' !in name && NoComma(name)
    ensures Filename(dir + "/" + name + ",v") == name
  {
    assert dir + "/" + name + ",v" == dir + "/" + (name + ",v");
    BasenameOf(dir, name + ",v");
    RemoveSuffix(name);
  }

  // ---------------------------------------------------------------------------
  // The whole file
  // ---------------------------------------------------------------------------

  /**
    The history of one `,v` file from its `rlog` output: the header's symbol
    table, the revision blocks oldest first, the header's symbols attached.
   */
  function Parse(rcsPath: string, lines: seq<string>, mode: Mode, env: DateEnv): FileHistory {
    var ls := ReadLines(lines);
    var n := HeaderLength(ls);
    var table := HeaderTable(ls, n, map[]);
    FileHistory(rcsPath, Filename(rcsPath), table, Attached(Reverse(Blocks(ls[n..], mode, env)), table))
  }

  /** `parse_rlog` as written. */
  function ParseRlogAsWritten(rcsPath: string, lines: seq<string>, env: DateEnv): FileHistory {
    Parse(rcsPath, lines, AsWritten, env)
  }

  /** The parser with a revision line always starting a new block. */
  function ParseRlog(rcsPath: string, lines: seq<string>, env: DateEnv): FileHistory {
    Parse(rcsPath, lines, EndAtRevision, env)
  }

  lemma LabelsReverse(revs: seq<Revision>)
    ensures Labels(Reverse(revs)) == Reverse(Labels(revs))
  {
  }

  /** The revisions are the revision blocks of the output, one per revision line, in reverse order. */
  lemma ParseRlogRevisions(rcsPath: string, lines: seq<string>, env: DateEnv)
    ensures Labels(ParseRlog(rcsPath, lines, env).revisions) == Reverse(RevisionLabels(ReadLines(lines)))
  {
    var ls := ReadLines(lines);
    var n := HeaderLength(ls);
    var table := HeaderTable(ls, n, map[]);
    var blocks := Blocks(ls[n..], EndAtRevision, env);
    HeaderHasNoRevisionLine(ls);
    RevisionLabelsSkip(ls, n);
    BlocksLabels(ls[n..], env);
    LabelsReverse(blocks);
  }

  /** In either mode the parser never reports more revisions than there are revision lines. */
  lemma ParseAtMostRevisions(rcsPath: string, lines: seq<string>, mode: Mode, env: DateEnv)
    ensures |Parse(rcsPath, lines, mode, env).revisions| <= |RevisionLabels(ReadLines(lines))|
  {
    var ls := ReadLines(lines);
    var n := HeaderLength(ls);
    BlocksAtMostRevisionLines(ls[n..], mode, env);
    HeaderHasNoRevisionLine(ls);
    RevisionLabelsSkip(ls, n);
  }

  /**
    A log body that no `text` line closes runs up to the next revision line. The
    parser as written then skips that line inside the block it is still
    reading, so the older revision is lost; ending the block there keeps it.
   */
  lemma SwallowedRevision(rcsPath: string, env: DateEnv)
    ensures |ParseRlogAsWritten(rcsPath, ["revision 2", "log", "revision 1"], env).revisions| == 1
    ensures |ParseRlog(rcsPath, ["revision 2", "log", "revision 1"], env).revisions| == 2
  {
    var lines := ["revision 2", "log", "revision 1"];
    var ls := ReadLines(lines);
    SwallowedLines(lines, ls);
    assert HeaderLength(ls) == 0;
    SwallowedBlocks(ls);
    BlocksCount(ls, AsWritten, env);
    BlocksCount(ls, EndAtRevision, env);
    ParseCount(rcsPath, lines, AsWritten, env);
    ParseCount(rcsPath, lines, EndAtRevision, env);
  }

  lemma SwallowedLines(lines: seq<string>, ls: seq<Line>)
    requires lines == ["revision 2", "log", "revision 1"] && ls == ReadLines(lines)
    ensures |ls| == 3 && IsRevisionLine(ls[0]) && ls[1].text == "log" && IsRevisionLine(ls[2])
  {
    ReadRevisionLine(lines[0], ls[0], "2");
    ReadRevisionLine(lines[2], ls[2], "1");
    StripOfStripped("log");
  }

  /** A line `revision x`, with `x` a word, read as a revision line. */
  lemma ReadRevisionLine(s: string, l: Line, x: string)
    requires s == "revision " + x && |x| > 0 && NoSpace(x)
    requires l.text == Strip(s)
    ensures IsRevisionLine(l)
  {
    assert Stripped(s) by {
      assert s[|s| - 1] == x[|x| - 1];
    }
    StripOfStripped(s);
    assert s[..9] == "revision ";
  }

  /** The number of revision blocks, counted without reading them. */
  function BlockCount(ls: seq<Line>, mode: Mode): nat
    decreases |ls|
  {
    if |ls| == 0 then 0
    else if IsRevisionLine(ls[0]) then 1 + BlockCount(ls[1..][BlockLength(ls[1..], mode)..], mode)
    else BlockCount(ls[1..], mode)
  }

  lemma {:induction false} BlocksCount(ls: seq<Line>, mode: Mode, env: DateEnv)
    ensures |Blocks(ls, mode, env)| == BlockCount(ls, mode)
    decreases |ls|
  {
    if |ls| > 0 {
      if IsRevisionLine(ls[0]) {
        BlocksCount(ls[1..][BlockLength(ls[1..], mode)..], mode, env);
      } else {
        BlocksCount(ls[1..], mode, env);
      }
    }
  }

  /** The blocks of the lines of `SwallowedRevision`. */
  lemma SwallowedBlocks(ls: seq<Line>)
    requires |ls| == 3 && IsRevisionLine(ls[0]) && ls[1].text == "log" && IsRevisionLine(ls[2])
    ensures BlockCount(ls, AsWritten) == 1
    ensures BlockCount(ls, EndAtRevision) == 2
  {
    var body := ls[1..];
    assert body[1..] == ls[2..];
    RevisionLineShape(body[1..], AsWritten);
    RevisionLineShape(body[1..], EndAtRevision);
    LogLineShape(body, AsWritten);
    LogLineShape(body, EndAtRevision);
    assert BlockLength(body, AsWritten) == 2;
    assert BlockLength(body, EndAtRevision) == 1;
    assert body[2..] == [];
    assert BlockCount(ls, AsWritten) == 1 + BlockCount([], AsWritten);
    var last := ls[2..];
    assert BlockLength(last[1..], EndAtRevision) == 0;
    assert BlockCount(last, EndAtRevision) == 1 + BlockCount([], EndAtRevision);
    assert BlockCount(ls, EndAtRevision) == 1 + BlockCount(last, EndAtRevision);
  }

  /** A `log` line right before a revision line has an empty body. */
  lemma LogLineShape(ls: seq<Line>, mode: Mode)
    requires |ls| > 1 && ls[0].text == "log" && IsRevisionLine(ls[1])
    ensures StepShape(ls, mode) == Goes(1)
  {
    RevisionLineIsNotField(ls[1].text);
    assert LogLines(ls[1..]).0 == [];
  }

  /** A revision line inside a block: skipped as written, the end of the block otherwise. */
  lemma RevisionLineShape(ls: seq<Line>, mode: Mode)
    requires |ls| > 0 && IsRevisionLine(ls[0])
    ensures StepShape(ls, mode) == if mode == EndAtRevision then Ends(0) else Goes(1)
  {
    RevisionLineIsNotField(ls[0].text);
  }

  /** The parser reports one revision per block. */
  lemma ParseCount(rcsPath: string, lines: seq<string>, mode: Mode, env: DateEnv)
    ensures var ls := ReadLines(lines);
      |Parse(rcsPath, lines, mode, env).revisions| == |Blocks(ls[HeaderLength(ls)..], mode, env)|
  {
    var ls := ReadLines(lines);
    var n := HeaderLength(ls);
    var table := HeaderTable(ls, n, map[]);
    var revs := Reverse(Blocks(ls[n..], mode, env));
    assert |Labels(Attached(revs, table))| == |Labels(revs)|;
  }
}
