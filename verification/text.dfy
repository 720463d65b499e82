/**
  The handful of Python `str` operations the converter relies on, stated over
  `string` (a sequence of code points): `strip`, `rstrip`, `startswith`,
  `split(sep)`, `split()`, `sep.join(...)` and code-point ordering of strings.
 */
module Text {

  /** Python's notion of white space (`str.isspace`), used by `strip()` and `split()`. */
  predicate IsSpace(c: char) {
    || ('\U{9}' <= c <= '\U{D}')
    || ('\U{1C}' <= c <= '\U{20}')
    || c == '\U{85}' || c == '\U{A0}' || c == '\U{1680}'
    || ('\U{2000}' <= c <= '\U{200A}')
    || c == '\U{2028}' || c == '\U{2029}' || c == '\U{202F}'
    || c == '\U{205F}' || c == '\U{3000}'
  }

  /** A string with no white space in it at all. */
  predicate NoSpace(s: string) {
    forall i :: 0 <= i < |s| ==> !IsSpace(s[i])
  }

  /** A string that `strip()` leaves alone: empty, or not starting or ending in white space. */
  predicate Stripped(s: string) {
    |s| == 0 || (!IsSpace(s[0]) && !IsSpace(s[|s| - 1]))
  }

  /** `s.startswith(prefix)`. */
  predicate StartsWith(s: string, prefix: string) {
    |prefix| <= |s| && s[..|prefix|] == prefix
  }

  /** `s.lstrip()`: drops leading white space and nothing else. */
  function TrimLeft(s: string): (r: string)
    ensures |r| <= |s|
    ensures |r| == 0 || !IsSpace(r[0])
    ensures forall k :: 0 <= k < |s| - |r| ==> IsSpace(s[k])
    decreases |s|
  {
    if |s| > 0 && IsSpace(s[0]) then TrimLeft(s[1..]) else s
  }

  /** `s.rstrip()`: drops trailing white space and nothing else. */
  function TrimRight(s: string): (r: string)
    ensures |r| <= |s|
    ensures |r| > 0 ==> r[0] == s[0]
    ensures |r| == 0 || !IsSpace(r[|r| - 1])
    ensures forall k :: |r| <= k < |s| ==> IsSpace(s[k])
    decreases |s|
  {
    if |s| > 0 && IsSpace(s[|s| - 1]) then TrimRight(s[..|s| - 1]) else s
  }

  /** `lstrip()` returns a suffix of its argument. */
  lemma {:induction false} TrimLeftSuffix(s: string)
    ensures TrimLeft(s) == s[|s| - |TrimLeft(s)|..]
    decreases |s|
  {
    if |s| > 0 && IsSpace(s[0]) {
      TrimLeftSuffix(s[1..]);
    }
  }

  /** `rstrip()` returns a prefix of its argument. */
  lemma {:induction false} TrimRightPrefix(s: string)
    ensures TrimRight(s) == s[..|TrimRight(s)|]
    decreases |s|
  {
    if |s| > 0 && IsSpace(s[|s| - 1]) {
      TrimRightPrefix(s[..|s| - 1]);
    }
  }

  /** `rstrip()` of a text ending in a non-space character followed by more text. */
  lemma {:induction false} TrimRightAppend(x: string, y: string)
    requires |x| > 0 && !IsSpace(x[|x| - 1])
    ensures TrimRight(x + y) == x + TrimRight(y)
    decreases |y|
  {
    if |y| == 0 {
      assert x + y == x;
    } else {
      assert (x + y)[|x + y| - 1] == y[|y| - 1];
      if IsSpace(y[|y| - 1]) {
        assert (x + y)[..|x + y| - 1] == x + y[..|y| - 1];
        TrimRightAppend(x, y[..|y| - 1]);
      }
    }
  }

  /** `lstrip()` keeps the count of every character that is not white space. */
  lemma {:induction false} TrimLeftCount(s: string, c: char)
    requires !IsSpace(c)
    ensures multiset(TrimLeft(s))[c] == multiset(s)[c]
    decreases |s|
  {
    if |s| > 0 && IsSpace(s[0]) {
      assert s == [s[0]] + s[1..];
      assert multiset(s) == multiset{s[0]} + multiset(s[1..]);
      TrimLeftCount(s[1..], c);
    }
  }

  /** `rstrip()` keeps the count of every character that is not white space. */
  lemma {:induction false} TrimRightCount(s: string, c: char)
    requires !IsSpace(c)
    ensures multiset(TrimRight(s))[c] == multiset(s)[c]
    decreases |s|
  {
    if |s| > 0 && IsSpace(s[|s| - 1]) {
      var f := s[..|s| - 1];
      assert s == f + [s[|s| - 1]];
      assert multiset(s) == multiset(f) + multiset{s[|s| - 1]};
      TrimRightCount(f, c);
    }
  }

  /** `strip()` removes only white space, so it keeps every other character, as often as it occurs. */
  lemma StripCount(s: string, c: char)
    requires !IsSpace(c)
    ensures multiset(Strip(s))[c] == multiset(s)[c]
  {
    TrimLeftCount(s, c);
    TrimRightCount(TrimLeft(s), c);
  }

  /** `s.strip()`. */
  function Strip(s: string): (r: string)
    ensures Stripped(r)
    ensures |r| <= |s|
  {
    TrimRight(TrimLeft(s))
  }

  /** `strip()` keeps a last character that is not white space. */
  lemma StripLast(s: string)
    requires |s| > 0 && !IsSpace(s[|s| - 1])
    ensures |Strip(s)| > 0 && Strip(s)[|Strip(s)| - 1] == s[|s| - 1]
  {
    var l := TrimLeft(s);
    TrimLeftSuffix(s);
    assert |l| > 0;
    assert l[|l| - 1] == s[|s| - 1];
    assert TrimRight(l) == l;
  }

  /** `strip()` only removes characters. */
  lemma StripChars(s: string)
    ensures forall c :: c in Strip(s) ==> c in s
  {
    var l := TrimLeft(s);
    var t := TrimRight(l);
    TrimLeftSuffix(s);
    TrimRightPrefix(l);
    forall c | c in t ensures c in s {
      var k :| 0 <= k < |t| && t[k] == c;
      assert t[k] == l[k];
      assert l[k] == s[k + (|s| - |l|)];
    }
  }

  lemma StripOfStripped(s: string)
    requires Stripped(s)
    ensures Strip(s) == s
  {
  }

  /** Leading white space does not change what `strip()` returns. */
  lemma StripAfterSpace(c: char, s: string)
    requires IsSpace(c)
    ensures Strip([c] + s) == Strip(s)
  {
    assert ([c] + s)[1..] == s;
  }

  /** Position of the first `c` in `s`. */
  function IndexOf(s: string, c: char): (k: nat)
    requires c in s
    ensures k < |s| && s[k] == c && c !in s[..k]
  {
    if s[0] == c then 0 else 1 + IndexOf(s[1..], c)
  }

  /** `IndexOf` finds the first occurrence and no other. */
  lemma {:induction false} IndexOfUnique(s: string, c: char, k: nat)
    requires k < |s| && s[k] == c && c !in s[..k]
    ensures IndexOf(s, c) == k
    decreases k
  {
    if k > 0 {
      assert s[0] in s[..k];
      assert s[1..][..k - 1] == s[1..k];
      assert s[1..k] == s[..k][1..];
      IndexOfUnique(s[1..], c, k - 1);
    }
  }

  /** `sep.join(parts)`. */
  function Join(parts: seq<string>, sep: string): string
  {
    if |parts| == 0 then ""
    else if |parts| == 1 then parts[0]
    else parts[0] + (sep + Join(parts[1..], sep))
  }

  /** `s.split(sep)` for a one-character separator: the pieces between separators, none
      of which holds the separator, and which glue back together into `s`. */
  function Split(s: string, sep: char): (parts: seq<string>)
    ensures |parts| >= 1
    ensures forall k :: 0 <= k < |parts| ==> sep !in parts[k]
    ensures Join(parts, [sep]) == s
    decreases |s|
  {
    if sep !in s then [s]
    else
      var k := IndexOf(s, sep);
      var rest := Split(s[k + 1..], sep);
      assert s == s[..k] + [sep] + s[k + 1..];
      [s[..k]] + rest
  }

  /** The converse of the join in `Split`'s contract: splitting re-finds the pieces. */
  lemma {:induction false} SplitJoin(parts: seq<string>, sep: char)
    requires |parts| >= 1
    requires forall k :: 0 <= k < |parts| ==> sep !in parts[k]
    ensures Split(Join(parts, [sep]), sep) == parts
    decreases |parts|
  {
    if |parts| == 1 {
    } else {
      var s := Join(parts, [sep]);
      var tail := Join(parts[1..], [sep]);
      assert s == parts[0] + [sep] + tail;
      assert sep in s by { assert s[|parts[0]|] == sep; }
      assert s[..|parts[0]|] == parts[0];
      IndexOfUnique(s, sep, |parts[0]|);
      assert s[|parts[0]| + 1..] == tail;
      SplitJoin(parts[1..], sep);
    }
  }

  /** `s.split(sep)` has one more piece than `s` has separators. */
  lemma {:induction false} SplitCount(s: string, sep: char)
    ensures |Split(s, sep)| == multiset(s)[sep] + 1
    decreases |s|
  {
    if sep !in s {
      assert sep !in multiset(s);
    } else {
      var k := IndexOf(s, sep);
      assert s == s[..k] + [sep] + s[k + 1..];
      assert multiset(s) == multiset(s[..k]) + multiset{sep} + multiset(s[k + 1..]);
      assert sep !in multiset(s[..k]);
      SplitCount(s[k + 1..], sep);
    }
  }

  /** Joining two non-empty lists of pieces puts one separator between their joins. */
  lemma {:induction false} JoinAppend(p: seq<string>, q: seq<string>, sep: string)
    requires |p| > 0 && |q| > 0
    ensures Join(p + q, sep) == Join(p, sep) + sep + Join(q, sep)
    decreases |p|
  {
    if |p| == 1 {
      assert (p + q)[1..] == q;
    } else {
      assert (p + q)[1..] == p[1..] + q;
      JoinAppend(p[1..], q, sep);
    }
  }

  /** Splitting the join of some pieces, a separator and more text gives the pieces and then the pieces of the text. */
  lemma SplitAfterJoin(parts: seq<string>, sep: char, u: string)
    requires |parts| >= 1
    requires forall k :: 0 <= k < |parts| ==> sep !in parts[k]
    ensures Split(Join(parts, [sep]) + [sep] + u, sep) == parts + Split(u, sep)
  {
    var ps := Split(u, sep);
    JoinAppend(parts, ps, [sep]);
    SplitJoin(parts + ps, sep);
  }

  /** `s.split(sep, 1)[1]` when `sep` occurs: what follows its first occurrence. */
  function After(s: string, sep: char): string
    requires sep in s
  {
    s[IndexOf(s, sep) + 1..]
  }

  /** Text appended after a string holding `sep` stays after its first `sep`. */
  lemma AfterAppend(s: string, sep: char, u: string)
    requires sep in s
    ensures sep in s + u && After(s + u, sep) == After(s, sep) + u
  {
    var k := IndexOf(s, sep);
    assert (s + u)[..k] == s[..k];
    IndexOfUnique(s + u, sep, k);
    assert (s + u)[k + 1..] == s[k + 1..] + u;
  }

  /** A non-empty sequence is its head followed by its tail. */
  lemma HeadTail<T>(s: seq<T>)
    requires |s| > 0
    ensures [s[0]] + s[1..] == s
  {
  }

  /** `list(reversed(s))`. */
  function Reverse<T>(s: seq<T>): (r: seq<T>)
    ensures |r| == |s|
    ensures forall i :: 0 <= i < |s| ==> r[i] == s[|s| - 1 - i]
    decreases |s|
  {
    if |s| == 0 then [] else Reverse(s[1..]) + [s[0]]
  }

  /** The leading run of non-space characters of `s`. */
  function TakeWord(s: string): (w: string)
    ensures |w| <= |s| && w == s[..|w|] && NoSpace(w)
    ensures |w| == |s| || IsSpace(s[|w|])
    decreases |s|
  {
    if |s| == 0 || IsSpace(s[0]) then "" else [s[0]] + TakeWord(s[1..])
  }

  /** `s.split()`: the maximal runs of non-space characters, in order. */
  function Words(s: string): (ws: seq<string>)
    ensures forall w :: w in ws ==> |w| > 0 && NoSpace(w)
    decreases |s|
  {
    var t := TrimLeft(s);
    if |t| == 0 then []
    else
      var w := TakeWord(t);
      [w] + Words(t[|w|..])
  }

  /** A string with a non-space character in it has at least one word. */
  lemma WordsNonBlank(s: string, i: nat)
    requires i < |s| && !IsSpace(s[i])
    ensures |Words(s)| > 0
  {
  }

  /** A word followed by nothing or by white space is taken whole. */
  lemma {:induction false} TakeWordOf(w: string, tail: string)
    requires NoSpace(w)
    requires |tail| == 0 || IsSpace(tail[0])
    ensures TakeWord(w + tail) == w
    decreases |w|
  {
    if |w| > 0 {
      assert (w + tail)[1..] == w[1..] + tail;
      TakeWordOf(w[1..], tail);
    } else {
      assert w + tail == tail;
    }
  }

  /** Leading white space does not change the words. */
  lemma WordsSpace(tail: string)
    ensures Words(" " + tail) == Words(tail)
  {
    assert (" " + tail)[1..] == tail;
  }

  /** Leading white space of any kind is skipped by `split()`. */
  lemma WordsSpaceAny(c: char, tail: string)
    requires IsSpace(c)
    ensures Words([c] + tail) == Words(tail)
  {
    assert ([c] + tail)[1..] == tail;
  }

  /** The first word of a string that starts with one. */
  lemma WordsWord(w: string, tail: string)
    requires |w| > 0 && NoSpace(w)
    requires |tail| == 0 || IsSpace(tail[0])
    ensures Words(w + tail) == [w] + Words(tail)
  {
    TakeWordOf(w, tail);
    assert (w + tail)[|w|..] == tail;
  }

  /** Every element of `ws` is a word, stated one element at a time. */
  predicate AllWords(ws: seq<string>) {
    |ws| == 0 || (|ws[0]| > 0 && NoSpace(ws[0]) && AllWords(ws[1..]))
  }

  lemma {:induction false} AllWordsOf(ws: seq<string>)
    requires forall w :: w in ws ==> |w| > 0 && NoSpace(w)
    ensures AllWords(ws)
    decreases |ws|
  {
    if |ws| > 0 {
      assert ws[0] in ws;
      assert forall x :: x in ws[1..] ==> x in ws;
      AllWordsOf(ws[1..]);
    }
  }

  lemma WordsOfJoinOne(ws: seq<string>)
    requires |ws| == 1 && |ws[0]| > 0 && NoSpace(ws[0])
    ensures Words(Join(ws, " ")) == ws
  {
    assert ws[0] + "" == ws[0];
    WordsWord(ws[0], "");
  }

  lemma WordsOfJoinStep(ws: seq<string>)
    requires |ws| >= 2 && |ws[0]| > 0 && NoSpace(ws[0])
    requires Words(Join(ws[1..], " ")) == ws[1..]
    ensures Words(Join(ws, " ")) == ws
  {
    var tail := Join(ws[1..], " ");
    WordsWord(ws[0], " " + tail);
    WordsSpace(tail);
    HeadTail(ws);
  }

  lemma {:induction false} WordsOfJoinAll(ws: seq<string>)
    requires AllWords(ws)
    ensures Words(Join(ws, " ")) == ws
    decreases |ws|
  {
    if |ws| == 1 {
      WordsOfJoinOne(ws);
    } else if |ws| >= 2 {
      WordsOfJoinAll(ws[1..]);
      WordsOfJoinStep(ws);
    }
  }

  /** Words joined by single spaces split back into the same words. */
  lemma WordsOfJoin(ws: seq<string>)
    requires forall w :: w in ws ==> |w| > 0 && NoSpace(w)
    ensures Words(Join(ws, " ")) == ws
  {
    AllWordsOf(ws);
    WordsOfJoinAll(ws);
  }

  /** A join of non-empty pieces starts with the first piece's first character. */
  lemma JoinStartsWithFirst(ws: seq<string>, sep: string)
    requires |ws| >= 1 && |ws[0]| > 0
    ensures |Join(ws, sep)| > 0 && Join(ws, sep)[0] == ws[0][0]
  {
  }

  /** A join of pieces whose last is non-empty ends with that piece's last character. */
  lemma {:induction false} JoinEndsWithLast(ws: seq<string>, sep: string)
    requires |ws| >= 1 && |ws[|ws| - 1]| > 0
    ensures |Join(ws, sep)| > 0 && Join(ws, sep)[|Join(ws, sep)| - 1] == ws[|ws| - 1][|ws[|ws| - 1]| - 1]
    decreases |ws|
  {
    if |ws| >= 2 {
      JoinEndsWithLast(ws[1..], sep);
    }
  }

  // ---------------------------------------------------------------------------
  // Code-point ordering of strings (Python's `<` on `str`) and sorted sets.
  // ---------------------------------------------------------------------------

  /** `a <= b` in Python's lexicographic code-point order. */
  predicate StrLe(a: string, b: string)
    decreases |a|
  {
    |a| == 0 || (|b| > 0 && (a[0] < b[0] || (a[0] == b[0] && StrLe(a[1..], b[1..]))))
  }

  lemma {:induction false} StrLeTotal(a: string, b: string)
    ensures StrLe(a, b) || StrLe(b, a)
    decreases |a|
  {
    if |a| > 0 && |b| > 0 && a[0] == b[0] {
      StrLeTotal(a[1..], b[1..]);
    }
  }

  lemma {:induction false} StrLeAntisymmetric(a: string, b: string)
    requires StrLe(a, b) && StrLe(b, a)
    ensures a == b
    decreases |a|
  {
    if |a| > 0 {
      StrLeAntisymmetric(a[1..], b[1..]);
      HeadTail(a);
      HeadTail(b);
    }
  }

  lemma {:induction false} StrLeTransitive(a: string, b: string, c: string)
    requires StrLe(a, b) && StrLe(b, c)
    ensures StrLe(a, c)
    decreases |a|
  {
    if |a| > 0 && a[0] == b[0] && b[0] == c[0] {
      StrLeTransitive(a[1..], b[1..], c[1..]);
    }
  }

  predicate IsLeast(m: string, s: set<string>) {
    m in s && forall x :: x in s ==> StrLe(m, x)
  }

  lemma {:induction false} LeastExists(s: set<string>)
    requires s != {}
    ensures exists m :: IsLeast(m, s)
    decreases |s|
  {
    var x :| x in s;
    var rest := s - {x};
    if rest == {} {
      assert s == {x};
      StrLeTotal(x, x);
      assert IsLeast(x, s);
    } else {
      LeastExists(rest);
      var m :| IsLeast(m, rest);
      StrLeTotal(x, m);
      if StrLe(x, m) {
        forall y | y in s ensures StrLe(x, y) {
          if y != x { StrLeTransitive(x, m, y); } else { StrLeTotal(x, x); }
        }
        assert IsLeast(x, s);
      } else {
        assert IsLeast(m, s);
      }
    }
  }

  /** Strictly ascending in code-point order. */
  predicate StrictlySorted(r: seq<string>) {
    forall i, j :: 0 <= i < j < |r| ==> StrLe(r[i], r[j]) && r[i] != r[j]
  }

  /** At most one element of a set is below all the others. */
  lemma LeastUnique(s: set<string>)
    ensures forall a, b :: IsLeast(a, s) && IsLeast(b, s) ==> a == b
  {
    forall a, b | IsLeast(a, s) && IsLeast(b, s) ensures a == b {
      StrLeAntisymmetric(a, b);
    }
  }

  /** The least element followed by the sorted rest is the sorted whole. */
  lemma SortedCons(m: string, s: set<string>, rest: seq<string>)
    requires IsLeast(m, s)
    requires forall x :: x in rest <==> x in s - {m}
    requires |rest| == |s - {m}| && StrictlySorted(rest)
    ensures forall x :: x in [m] + rest <==> x in s
    ensures |[m] + rest| == |s|
    ensures StrictlySorted([m] + rest)
  {
    var r := [m] + rest;
    forall i, j | 0 <= i < j < |r| ensures StrLe(r[i], r[j]) && r[i] != r[j] {
      if i == 0 {
        assert r[j] == rest[j - 1] && r[j] in s - {m};
      } else {
        assert r[i] == rest[i - 1] && r[j] == rest[j - 1];
      }
    }
  }

  /** `sorted(s)` for a set of strings: every element once (see `SortedStringsSorted` for the order). */
  function SortedStrings(s: set<string>): (r: seq<string>)
    ensures forall x :: x in r <==> x in s
    ensures |r| == |s|
    decreases |s|
  {
    if s == {} then []
    else
      LeastExists(s);
      LeastUnique(s);
      var m :| IsLeast(m, s);
      [m] + SortedStrings(s - {m})
  }

  /** `sorted(s)` is in ascending order, each element once. */
  lemma {:induction false} SortedStringsSorted(s: set<string>)
    ensures StrictlySorted(SortedStrings(s))
    decreases |s|
  {
    if s != {} {
      LeastExists(s);
      LeastUnique(s);
      var m :| IsLeast(m, s);
      SortedStringsSorted(s - {m});
      SortedCons(m, s, SortedStrings(s - {m}));
    }
  }
}
