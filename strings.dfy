/**
 The JavaScript string built-ins the template parser relies on, restated over
 `string` (= `seq<char>`): `indexOf`, `trim`, `startsWith`/`endsWith`,
 `split` on one character, and a global literal `replace`.  Character classes
 follow the ECMAScript definitions used by `trim` and by the regular
 expressions `\s`, `\w` and `.`.
 */
module Strings {

  /** ECMAScript WhiteSpace and LineTerminator code points: what `trim()` removes and `\s` matches. */
  predicate IsSpace(c: char)
  {
    ('\U{0009}' <= c <= '\U{000D}') || c == ' ' || c == '\U{00A0}' || c == '\U{1680}' ||
    ('\U{2000}' <= c <= '\U{200A}') || c == '\U{2028}' || c == '\U{2029}' ||
    c == '\U{202F}' || c == '\U{205F}' || c == '\U{3000}' || c == '\U{FEFF}'
  }

  /** ECMAScript LineTerminator: the characters `.` does not match without the `s` flag. */
  predicate IsLineTerminator(c: char)
  {
    c == '\n' || c == '\r' || c == '\U{2028}' || c == '\U{2029}'
  }

  /** The regular-expression class `\w`. */
  predicate IsWordChar(c: char)
  {
    ('a' <= c <= 'z') || ('A' <= c <= 'Z') || ('0' <= c <= '9') || c == '_'
  }

  /** Character classes whose maximal runs the regular expressions of the parser consume. */
  datatype CharClass = Spaces | Words | NotLineTerminators

  predicate InClass(c: char, k: CharClass)
  {
    match k
    case Spaces => IsSpace(c)
    case Words => IsWordChar(c)
    case NotLineTerminators => !IsLineTerminator(c)
  }

  /** Length of the longest run of characters of class `k` in `s` starting at `from` (a greedy `k*`). */
  function RunLength(s: string, from: nat, k: CharClass): (n: nat)
    requires from <= |s|
    ensures from + n <= |s|
    decreases |s| - from
  {
    if from == |s| || !InClass(s[from], k) then 0 else 1 + RunLength(s, from + 1, k)
  }

  lemma ConcatAssoc(x: string, y: string, w: string)
    ensures x + (y + w) == x + y + w
  {
  }

  /** A run that starts inside the second part of `x + y` sees only `y`. */
  lemma {:induction false} RunLengthAppend(x: string, y: string, i: nat, k: CharClass)
    requires i <= |y|
    ensures RunLength(x + y, |x| + i, k) == RunLength(y, i, k)
    decreases |y| - i
  {
    if i < |y| {
      assert (x + y)[|x| + i] == y[i];
      RunLengthAppend(x, y, i + 1, k);
    }
  }

  /** The run `RunLength` measures is of class `k` and cannot be extended. */
  lemma {:induction false} RunLengthIsMaximal(s: string, from: nat, k: CharClass)
    requires from <= |s|
    ensures forall i :: from <= i < from + RunLength(s, from, k) ==> InClass(s[i], k)
    ensures from + RunLength(s, from, k) == |s| || !InClass(s[from + RunLength(s, from, k)], k)
    decreases |s| - from
  {
    if from < |s| && InClass(s[from], k) {
      RunLengthIsMaximal(s, from + 1, k);
    }
  }

  /** A non-empty `\w` run that `RunLength` measures is a word. */
  lemma WordRunIsWord(s: string, from: nat, n: nat)
    requires from <= |s| && n == RunLength(s, from, Words)
    ensures from + n <= |s| && (n > 0 ==> IsWord(s[from..from + n]))
  {
    var x := s[from..from + n];
    RunLengthIsMaximal(s, from, Words);
    forall i | 0 <= i < |x| ensures IsWordChar(x[i]) { assert x[i] == s[from + i]; assert InClass(s[from + i], Words); }
  }

  /** A text that starts with `prefix` is `prefix` followed by the rest. */
  lemma PrefixRest(s: string, prefix: string)
    requires StartsWith(s, prefix)
    ensures s == prefix + s[|prefix|..]
  {
    assert s == s[..|prefix|] + s[|prefix|..];
  }

  /** A slice cut in two. */
  lemma SuffixSplit(s: string, i: nat, j: nat)
    requires i <= j <= |s|
    ensures s[i..] == s[i..j] + s[j..]
  {
    assert s[i..] == s[i..|s|];
  }

  lemma SliceSplit(s: string, i: nat, j: nat, k: nat)
    requires i <= j <= k <= |s|
    ensures s[i..k] == s[i..j] + s[j..k]
  {
  }

  /** `s` is a non-empty run of `\w` characters. */
  predicate IsWord(s: string)
  {
    s != [] && forall i :: 0 <= i < |s| ==> IsWordChar(s[i])
  }

  /** `p` matches `\w+(?:\.\w+)*`: word runs separated by single dots. */
  predicate IsDottedPath(p: string)
  {
    p != [] && IsWordChar(p[0]) && IsWordChar(p[|p| - 1]) &&
    (forall i :: 0 <= i < |p| ==> IsWordChar(p[i]) || p[i] == '.') &&
    (forall i :: 0 <= i < |p| - 1 ==> !DoubleDot(p, i))
  }

  /** Two dots in a row at `i`: what a dotted path never contains. */
  predicate DoubleDot(s: string, i: nat)
    requires i + 1 < |s|
  {
    s[i] == '.' && s[i + 1] == '.'
  }

  /**
   Length of the longest stretch of `s` from `from` matching `\w+(?:\.\w+)*`, or 0
   when no word character stands at `from`: what the greedy pattern consumes there.
   */
  function DottedRun(s: string, from: nat): (n: nat)
    requires from <= |s|
    ensures from + n <= |s|
  {
    var w := RunLength(s, from, Words);
    if w == 0 then 0 else w + DottedTail(s, from + w)
  }

  /** The stretch `DottedRun` measures is a dotted path and cannot be extended. */
  lemma {:induction false} DottedRunIsMaximal(s: string, from: nat)
    requires from <= |s|
    ensures var n := DottedRun(s, from); n == 0 <==> from == |s| || !IsWordChar(s[from])
    ensures var n := DottedRun(s, from); n > 0 ==> IsDottedPath(s[from..from + n])
    ensures var n := DottedRun(s, from); n > 0 && from + n < |s| ==> !IsWordChar(s[from + n])
    ensures var n := DottedRun(s, from);
      n > 0 && from + n + 1 < |s| ==> !(s[from + n] == '.' && IsWordChar(s[from + n + 1]))
  {
    var w := RunLength(s, from, Words);
    RunLengthIsMaximal(s, from, Words);
    if w == 0 {
      assert from == |s| || !InClass(s[from], Words);
    } else {
      var t := DottedTail(s, from + w);
      assert DottedRun(s, from) == w + t;
      assert IsWordChar(s[from]) by {
        assert InClass(s[from], Words);
      }
      assert forall i :: from <= i < from + w ==> IsWordChar(s[i]) by {
        forall i | from <= i < from + w
          ensures IsWordChar(s[i])
        {
          assert InClass(s[i], Words);
        }
      }
      assert from + w == |s| || !IsWordChar(s[from + w]) by {
        assert from + w == |s| || !InClass(s[from + w], Words);
      }
      DottedTailIsMaximal(s, from + w);
      DottedRunJoin(s, from, w, t);
    }
  }

  /** Length of the longest stretch of `s` from `from` matching `(?:\.\w+)*`. */
  function DottedTail(s: string, from: nat): (n: nat)
    requires from <= |s|
    ensures from + n <= |s|
    decreases |s| - from
  {
    if from + 1 < |s| && s[from] == '.' && IsWordChar(s[from + 1]) then
      var w := RunLength(s, from + 1, Words);
      1 + w + DottedTail(s, from + 1 + w)
    else 0
  }

  /** The stretch `DottedTail` measures is made of `.`-led word runs and cannot be extended. */
  lemma {:induction false} DottedTailIsMaximal(s: string, from: nat)
    requires from <= |s|
    ensures var n := DottedTail(s, from);
      (n > 0 ==> s[from] == '.' && IsWordChar(s[from + n - 1])) &&
      (forall i :: from <= i < from + n ==> IsWordChar(s[i]) || s[i] == '.') &&
      (forall i :: from <= i < from + n - 1 ==> !DoubleDot(s, i)) &&
      (from + n + 1 < |s| ==> !(s[from + n] == '.' && IsWordChar(s[from + n + 1]))) &&
      (n > 0 && from + n < |s| ==> !IsWordChar(s[from + n]))
    decreases |s| - from
  {
    if from + 1 < |s| && s[from] == '.' && IsWordChar(s[from + 1]) {
      var w := RunLength(s, from + 1, Words);
      RunLengthIsMaximal(s, from + 1, Words);
      assert InClass(s[from + 1], Words);
      DottedTailIsMaximal(s, from + 1 + w);
      assert forall i :: from + 1 <= i < from + 1 + w ==> InClass(s[i], Words);
    }
  }

  lemma DottedRunJoin(s: string, from: nat, w: nat, t: nat)
    requires 0 < w && from + w + t <= |s|
    requires forall i :: from <= i < from + w ==> IsWordChar(s[i])
    requires from + w == |s| || !IsWordChar(s[from + w])
    requires t > 0 ==> s[from + w] == '.' && IsWordChar(s[from + w + t - 1])
    requires forall i :: from + w <= i < from + w + t ==> IsWordChar(s[i]) || s[i] == '.'
    requires forall i :: from + w <= i < from + w + t - 1 ==> !DoubleDot(s, i)
    ensures IsDottedPath(s[from..from + w + t])
  {
    var p := s[from..from + w + t];
    assert forall i :: 0 <= i < |p| ==> p[i] == s[from + i];
    forall i | 0 <= i < |p| - 1
      ensures !DoubleDot(p, i)
    {
      if i >= w {
        assert !DoubleDot(s, from + i);
      }
    }
  }

  /** A maximal run of class `k` characters is what `RunLength` measures. */
  lemma {:induction false} RunLengthOf(s: string, from: nat, k: CharClass, n: nat)
    requires from + n <= |s|
    requires forall i :: from <= i < from + n ==> InClass(s[i], k)
    requires from + n == |s| || !InClass(s[from + n], k)
    ensures RunLength(s, from, k) == n
    decreases n
  {
    if n > 0 {
      RunLengthOf(s, from + 1, k, n - 1);
    }
  }

  /** A word written at `from` and not followed by a word character is the run `\w+` measures there. */
  lemma WordRunOf(s: string, from: nat, w: string)
    requires from + |w| <= |s| && s[from..from + |w|] == w && IsWord(w)
    requires from + |w| == |s| || !IsWordChar(s[from + |w|])
    ensures RunLength(s, from, Words) == |w|
  {
    assert forall i :: from <= i < from + |w| ==> s[i] == w[i - from];
    RunLengthOf(s, from, Words, |w|);
  }

  /** A word followed by a non-word character, or by nothing, is a whole `\w` run. */
  lemma WordRunAppend(w: string, y: string)
    requires IsWord(w) && (y == [] || !IsWordChar(y[0]))
    ensures RunLength(w + y, 0, Words) == |w|
  {
    var s := w + y;
    assert s[0..|w|] == w;
    if y != [] {
      assert s[|w|] == y[0];
    }
    WordRunOf(s, 0, w);
  }

  /** Inside a dotted path every dot is followed by a word character. */
  lemma DotIsFollowedByWord(p: string, i: nat)
    requires IsDottedPath(p) && i < |p| && p[i] == '.'
    ensures i + 1 < |p| && IsWordChar(p[i + 1])
  {
    assert !DoubleDot(p, i);
  }

  /**
   A dotted path followed by a character that can neither extend a word nor
   start a further segment is exactly what the greedy dotted-path pattern
   consumes there.
   */
  lemma DottedRunOfPath(s: string, from: nat, p: string)
    requires from + |p| <= |s| && s[from..from + |p|] == p && IsDottedPath(p)
    requires from + |p| == |s| || (!IsWordChar(s[from + |p|]) && s[from + |p|] != '.')
    ensures DottedRun(s, from) == |p|
  {
    var n := DottedRun(s, from);
    DottedRunIsMaximal(s, from);
    assert s[from] == p[0];
    if n < |p| {
      assert s[from + n] == p[n];
      DotIsFollowedByWord(p, n);
      assert false;
    }
  }

  predicate StartsWith(s: string, prefix: string)
  {
    |prefix| <= |s| && s[..|prefix|] == prefix
  }

  predicate EndsWith(s: string, suffix: string)
  {
    |suffix| <= |s| && s[|s| - |suffix|..] == suffix
  }

  /** `pat` occurs in `s` starting at index `j`. */
  predicate OccursAt(s: string, pat: string, j: int)
  {
    0 <= j && j + |pat| <= |s| && s[j..j + |pat|] == pat
  }

  /** `s.indexOf(pat, from)`: the first occurrence at or after `from`, or -1. */
  function IndexOf(s: string, pat: string, from: nat): (r: int)
    requires |pat| > 0
    ensures r == -1 || (from <= r && OccursAt(s, pat, r))
    ensures forall j :: from <= j && (r == -1 || j < r) ==> !OccursAt(s, pat, j)
    decreases |s| - from
  {
    if from + |pat| > |s| then -1
    else if s[from..from + |pat|] == pat then from
    else IndexOf(s, pat, from + 1)
  }

  /** A one-character pattern occurs where that character stands. */
  lemma OccursAtChar(s: string, c: char, j: int)
    ensures OccursAt(s, [c], j) <==> 0 <= j < |s| && s[j] == c
  {
    if 0 <= j < |s| {
      assert s[j..j + 1] == [s[j]];
    }
  }

  /** `IndexOf` finds the first occurrence at or after `from`. */
  lemma IndexOfIs(s: string, pat: string, from: nat, j: nat)
    requires |pat| > 0 && from <= j && OccursAt(s, pat, j)
    requires forall i :: from <= i < j ==> !OccursAt(s, pat, i)
    ensures IndexOf(s, pat, from) == j
  {
  }

  /** An occurrence inside `b` is one inside `a + b`, shifted by `|a|`. */
  lemma OccursAtShift(a: string, b: string, pat: string, j: nat)
    ensures OccursAt(a + b, pat, |a| + j) <==> OccursAt(b, pat, j)
  {
    if 0 <= j && j + |pat| <= |b| {
      assert (a + b)[|a| + j..|a| + j + |pat|] == b[j..j + |pat|];
    }
  }

  /** Searching `a + b` from the end of `a` is searching `b`. */
  lemma {:induction false} IndexOfShift(a: string, b: string, pat: string, from: nat)
    requires |pat| > 0 && from <= |b|
    ensures IndexOf(a + b, pat, |a| + from) ==
      if IndexOf(b, pat, from) < 0 then -1 else |a| + IndexOf(b, pat, from)
    decreases |b| - from
  {
    if from + |pat| <= |b| {
      OccursAtShift(a, b, pat, from);
      assert (a + b)[|a| + from..|a| + from + |pat|] == b[from..from + |pat|];
      if b[from..from + |pat|] != pat {
        IndexOfShift(a, b, pat, from + 1);
      }
    }
  }

  /** The first character of `pat` occurs nowhere else in it, so two occurrences of `pat` never overlap. */
  predicate HeadUnique(pat: string)
  {
    pat != [] && forall k :: 0 < k < |pat| ==> pat[k] != pat[0]
  }

  /**
   In `x + pat + y`, with no occurrence of `pat` inside `x`, the first
   occurrence at or before the end of `x` is the one written after `x`.
   */
  lemma FirstOccurrenceAfter(x: string, pat: string, y: string, from: nat)
    requires HeadUnique(pat) && Free(x, pat) && from <= |x|
    ensures IndexOf(x + pat + y, pat, from) == |x|
  {
    var s := x + pat + y;
    assert s[|x|..|x| + |pat|] == pat;
    forall j | from <= j < |x|
      ensures !OccursAt(s, pat, j)
    {
      if j + |pat| <= |x| {
        assert s[j..j + |pat|] == x[j..j + |pat|];
        assert !OccursAt(x, pat, j);
      } else {
        assert s[j..j + |pat|][|x| - j] == s[|x|] == pat[0] != pat[|x| - j];
      }
    }
    IndexOfIs(s, pat, from, |x|);
  }

  /** `s.trimStart()`: drops the leading white space and nothing else. */
  function TrimStart(s: string): (r: string)
    ensures |r| <= |s| && r == s[|s| - |r|..]
    ensures r == [] || !IsSpace(r[0])
  {
    if s != [] && IsSpace(s[0]) then TrimStart(s[1..]) else s
  }

  /** `trimStart` on a string with a known first character. */
  lemma TrimStartCons(c: char, x: string)
    ensures TrimStart([c] + x) == if IsSpace(c) then TrimStart(x) else [c] + x
  {
    assert ([c] + x)[1..] == x;
  }

  /** What `trimStart` drops is white space. */
  lemma {:induction false} TrimStartDropsSpaces(s: string, i: nat)
    requires i < |s| - |TrimStart(s)|
    ensures IsSpace(s[i])
  {
    if i > 0 {
      TrimStartDropsSpaces(s[1..], i - 1);
    }
  }

  /** `s.trimEnd()`: drops the trailing white space and nothing else. */
  function TrimEnd(s: string): (r: string)
    ensures |r| <= |s| && r == s[..|r|]
    ensures r == [] || !IsSpace(r[|r| - 1])
  {
    if s != [] && IsSpace(s[|s| - 1]) then TrimEnd(s[..|s| - 1]) else s
  }

  /** What `trimEnd` drops is white space. */
  lemma {:induction false} TrimEndDropsSpaces(s: string, i: nat)
    requires |TrimEnd(s)| <= i < |s|
    ensures IsSpace(s[i])
  {
    if i < |s| - 1 {
      TrimEndDropsSpaces(s[..|s| - 1], i);
    }
  }

  predicate IsTrimmed(s: string)
  {
    s == [] || (!IsSpace(s[0]) && !IsSpace(s[|s| - 1]))
  }

  /** `s` is white space only (possibly none). */
  predicate Blank(s: string)
  {
    forall i :: 0 <= i < |s| ==> IsSpace(s[i])
  }

  /** `trimStart` drops white space only: the text is what it dropped followed by what it kept. */
  lemma TrimStartSplit(s: string)
    ensures var k := |s| - |TrimStart(s)|; s == s[..k] + TrimStart(s) && Blank(s[..k])
  {
    var k := |s| - |TrimStart(s)|;
    forall i | 0 <= i < k ensures IsSpace(s[..k][i]) { TrimStartDropsSpaces(s, i); }
  }

  /** `s` holds no line terminator. */
  predicate OneLine(s: string)
  {
    forall i :: 0 <= i < |s| ==> !IsLineTerminator(s[i])
  }

  /** Number of white-space characters at the front of `s`. */
  function LeadingSpaces(s: string): (n: nat)
    ensures n <= |s|
    ensures forall i :: 0 <= i < n ==> IsSpace(s[i])
    ensures n == |s| || !IsSpace(s[n])
    decreases |s|
  {
    if s != [] && IsSpace(s[0]) then 1 + LeadingSpaces(s[1..]) else 0
  }

  /** `s.trim()`: white space removed from both ends. */
  function Trim(s: string): (r: string)
    ensures IsTrimmed(r) && |r| <= |s|
    decreases |s|
  {
    if s != [] && IsSpace(s[0]) then Trim(s[1..])
    else if s != [] && IsSpace(s[|s| - 1]) then Trim(s[..|s| - 1])
    else s
  }

  /**
   `trim` keeps one slice of `s`, starting after the leading white space, and
   drops white space only: every character outside the slice is white space.
   */
  lemma {:induction false} TrimIsSlice(s: string)
    ensures LeadingSpaces(s) + |Trim(s)| <= |s|
    ensures Trim(s) == s[LeadingSpaces(s)..LeadingSpaces(s) + |Trim(s)|]
    ensures forall i :: LeadingSpaces(s) + |Trim(s)| <= i < |s| ==> IsSpace(s[i])
    decreases |s|, 1
  {
    if s != [] && IsSpace(s[0]) {
      TrimSliceFront(s);
    } else if s != [] && IsSpace(s[|s| - 1]) {
      TrimSliceBack(s);
    } else {
      assert s[0..|s|] == s;
    }
  }

  /** `TrimIsSlice` when `s` starts with white space. */
  lemma {:induction false} TrimSliceFront(s: string)
    requires s != [] && IsSpace(s[0])
    ensures LeadingSpaces(s) + |Trim(s)| <= |s|
    ensures Trim(s) == s[LeadingSpaces(s)..LeadingSpaces(s) + |Trim(s)|]
    ensures forall i :: LeadingSpaces(s) + |Trim(s)| <= i < |s| ==> IsSpace(s[i])
    decreases |s|, 0
  {
    var x := s[1..];
    TrimIsSlice(x);
    var l, n := LeadingSpaces(x), |Trim(x)|;
    assert LeadingSpaces(s) == l + 1;
    assert Trim(s) == Trim(x);
    DropFirstSlice(s, l, n);
  }

  /** Slices of `s[1..]` are slices of `s` one place further on. */
  lemma DropFirstSlice(s: string, l: nat, n: nat)
    requires s != [] && l + n <= |s| - 1
    ensures s[1..][l..l + n] == s[l + 1..l + 1 + n]
    ensures forall i :: l + 1 + n <= i < |s| ==> s[i] == s[1..][i - 1]
  {
  }

  /** `TrimIsSlice` when `s` starts with a non-space and ends with white space. */
  lemma {:induction false} TrimSliceBack(s: string)
    requires s != [] && !IsSpace(s[0]) && IsSpace(s[|s| - 1])
    ensures LeadingSpaces(s) + |Trim(s)| <= |s|
    ensures Trim(s) == s[LeadingSpaces(s)..LeadingSpaces(s) + |Trim(s)|]
    ensures forall i :: LeadingSpaces(s) + |Trim(s)| <= i < |s| ==> IsSpace(s[i])
    decreases |s|, 0
  {
    var x := s[..|s| - 1];
    TrimIsSlice(x);
    assert LeadingSpaces(x) == 0 by {
      if x != [] {
        assert x[0] == s[0];
      }
    }
    var n := |Trim(x)|;
    assert LeadingSpaces(s) == 0 && Trim(s) == Trim(x);
    assert x[0..n] == s[0..n];
    forall i | n <= i < |s|
      ensures IsSpace(s[i])
    {
      if i < |x| {
        assert s[i] == x[i];
      }
    }
  }

  /** A text that starts with no white space loses only its trailing white space to `trim`. */
  lemma {:induction false} TrimOfUnpadded(s: string)
    requires s != [] && !IsSpace(s[0])
    ensures Trim(s) == TrimEnd(s)
    decreases |s|
  {
    if IsSpace(s[|s| - 1]) {
      var x := s[..|s| - 1];
      assert x[0] == s[0];
      TrimOfUnpadded(x);
    }
  }

  /** Trimming text that is white space and then trimmed text leaves the trimmed text. */
  lemma {:induction false} TrimAfterSpaces(s: string, k: nat)
    requires k <= |s| && IsTrimmed(s[k..])
    requires forall i :: 0 <= i < k ==> IsSpace(s[i])
    ensures Trim(s) == s[k..]
    decreases k
  {
    if k == 0 {
      assert s[k..] == s;
    } else {
      assert s[1..][k - 1..] == s[k..];
      TrimAfterSpaces(s[1..], k - 1);
    }
  }

  lemma TrimmedIsFixpoint(s: string)
    requires IsTrimmed(s)
    ensures Trim(s) == s
  {
  }

  lemma TrimIdempotent(s: string)
    ensures Trim(Trim(s)) == Trim(s)
  {
    TrimmedIsFixpoint(Trim(s));
  }

  /** The pieces of `s` joined back with `sep`: the inverse of `Split`. */
  function Join(pieces: seq<string>, sep: char): string
  {
    if |pieces| == 0 then []
    else if |pieces| == 1 then pieces[0]
    else pieces[0] + [sep] + Join(pieces[1..], sep)
  }

  /** `s.split(sep)` for a one-character separator: the pieces between the separators, at least one. */
  function Split(s: string, sep: char): (r: seq<string>)
    ensures |r| >= 1
    decreases |s|
  {
    var k := IndexOf(s, [sep], 0);
    if k < 0 then [s] else [s[..k]] + Split(s[k + 1..], sep)
  }

  /** A text without the separator is one piece. */
  lemma SplitWithoutSeparator(s: string, sep: char)
    requires sep !in s
    ensures Split(s, sep) == [s]
  {
    var k := IndexOf(s, [sep], 0);
    if k >= 0 {
      OccursAtChar(s, sep, k);
    }
  }

  /** The first separator ends the first piece. */
  lemma SplitAtFirstSeparator(a: string, sep: char, b: string)
    requires sep !in a
    ensures Split(a + [sep] + b, sep) == [a] + Split(b, sep)
  {
    var s := a + [sep] + b;
    OccursAtChar(s, sep, |a|);
    forall i | 0 <= i < |a| ensures !OccursAt(s, [sep], i) { OccursAtChar(s, sep, i); assert s[i] == a[i]; }
    IndexOfIs(s, [sep], 0, |a|);
    assert s[..|a|] == a && s[|a| + 1..] == b;
  }

  /** Joining the pieces back with the separator gives the text again, and no piece holds the separator. */
  lemma {:induction false} SplitJoin(s: string, sep: char)
    ensures Join(Split(s, sep), sep) == s
    ensures forall i :: 0 <= i < |Split(s, sep)| ==> sep !in Split(s, sep)[i]
    decreases |s|
  {
    var k := IndexOf(s, [sep], 0);
    if k < 0 {
      forall j | 0 <= j < |s|
        ensures s[j] != sep
      {
        assert !OccursAt(s, [sep], j);
        assert s[j..j + 1] == [s[j]];
      }
    } else {
      var rest := Split(s[k + 1..], sep);
      FirstSeparatorSplits(s, sep, k);
      SplitJoin(s[k + 1..], sep);
      JoinCons(s[..k], rest, sep);
      forall i | 0 <= i < |Split(s, sep)|
        ensures sep !in Split(s, sep)[i]
      {
        if i > 0 {
          assert Split(s, sep)[i] == rest[i - 1];
        }
      }
    }
  }

  /** The first separator at `k` cuts `s` into the first piece and the rest. */
  lemma FirstSeparatorSplits(s: string, sep: char, k: int)
    requires k >= 0 && k == IndexOf(s, [sep], 0)
    ensures k < |s| && sep !in s[..k]
    ensures s == s[..k] + [sep] + s[k + 1..]
    ensures Split(s, sep) == [s[..k]] + Split(s[k + 1..], sep)
  {
    forall j | 0 <= j < k
      ensures s[j] != sep
    {
      OccursAtChar(s, sep, j);
    }
    OccursAtChar(s, sep, k);
    assert s == s[..k] + [sep] + s[k + 1..];
  }

  /** Joining a first piece onto at least one more puts a separator between them. */
  lemma JoinCons(x: string, rest: seq<string>, sep: char)
    requires |rest| >= 1
    ensures Join([x] + rest, sep) == x + [sep] + Join(rest, sep)
  {
    assert ([x] + rest)[1..] == rest;
  }

  /** The pieces joined with the string `sep`. */
  function JoinWith(pieces: seq<string>, sep: string): string
  {
    if |pieces| == 0 then []
    else if |pieces| == 1 then pieces[0]
    else pieces[0] + sep + JoinWith(pieces[1..], sep)
  }

  /** `s` contains no occurrence of `pat`. */
  predicate Free(s: string, pat: string)
  {
    forall j :: 0 <= j < |s| ==> !OccursAt(s, pat, j)
  }

  /** A slice of a text without `pat` has none either. */
  lemma FreeSlice(s: string, pat: string, i: nat, j: nat)
    requires Free(s, pat) && i <= j <= |s|
    ensures Free(s[i..j], pat)
  {
    forall k | 0 <= k < j - i
      ensures !OccursAt(s[i..j], pat, k)
    {
      assert !OccursAt(s, pat, i + k);
      if k + |pat| <= j - i {
        var w := s[i..j];
        assert forall m :: k <= m < k + |pat| ==> w[m] == s[i + m];
        assert w[k..k + |pat|] == s[i + k..i + k + |pat|];
      }
    }
  }

  /** Two texts without `{{` joined by a `}` have none either. */
  lemma FreeAroundBrace(a: string, b: string)
    requires Free(a, "{{") && Free(b, "{{")
    ensures Free(a + "}" + b, "{{")
  {
    var u := a + "}" + b;
    forall k | 0 <= k < |u|
      ensures !OccursAt(u, "{{", k)
    {
      if k + 2 <= |a| {
        assert !OccursAt(a, "{{", k);
        assert u[k..k + 2] == a[k..k + 2];
      } else if k == |a| - 1 {
        assert u[k + 1] == '}';
      } else if k == |a| {
        assert u[k] == '}';
      } else if k + 2 <= |u| {
        assert !OccursAt(b, "{{", k - |a| - 1);
        assert u[k..k + 2] == b[k - |a| - 1..k - |a| + 1];
      }
    }
  }

  /**
   `s` cut at the leftmost non-overlapping occurrences of `pat`: the pieces a global
   search for `pat` steps over.
   */
  function SplitOn(s: string, pat: string): (r: seq<string>)
    requires |pat| > 0
    ensures |r| >= 1
    ensures JoinWith(r, pat) == s
    ensures forall i :: 0 <= i < |r| ==> Free(r[i], pat)
    decreases |s|
  {
    var k := IndexOf(s, pat, 0);
    if k < 0 then
      [s]
    else
      var head := s[..k];
      assert Free(head, pat) by {
        forall j | 0 <= j < |head|
          ensures !OccursAt(head, pat, j)
        {
          if OccursAt(head, pat, j) {
            assert s[j..j + |pat|] == head[j..j + |pat|];
            assert OccursAt(s, pat, j);
          }
        }
      }
      var rest := SplitOn(s[k + |pat|..], pat);
      assert s == head + pat + s[k + |pat|..];
      [head] + rest
  }

  /**
   `s.replace(/pat/g, rep)` with `pat` read literally: a left-to-right scan that
   replaces each occurrence of `pat` and resumes after it.
   */
  function ReplaceAll(s: string, pat: string, rep: string): string
    requires |pat| > 0
    decreases |s|
  {
    if s == [] then []
    else if StartsWith(s, pat) then rep + ReplaceAll(s[|pat|..], pat, rep)
    else [s[0]] + ReplaceAll(s[1..], pat, rep)
  }

  /** Characters before the first occurrence of `pat` are copied unchanged. */
  lemma {:induction false} ReplaceAllCopiesFreePrefix(s: string, pat: string, rep: string, k: nat)
    requires |pat| > 0 && k <= |s|
    requires forall j :: 0 <= j < k ==> !OccursAt(s, pat, j)
    ensures ReplaceAll(s, pat, rep) == s[..k] + ReplaceAll(s[k..], pat, rep)
    decreases k
  {
    if k > 0 {
      assert !OccursAt(s, pat, 0);
      assert !StartsWith(s, pat);
      forall j | 0 <= j < k - 1
        ensures !OccursAt(s[1..], pat, j)
      {
        if OccursAt(s[1..], pat, j) {
          assert s[1..][j..j + |pat|] == s[j + 1..j + 1 + |pat|];
          assert OccursAt(s, pat, j + 1);
        }
      }
      ReplaceAllCopiesFreePrefix(s[1..], pat, rep, k - 1);
      assert s[1..][k - 1..] == s[k..];
      assert s[..k] == [s[0]] + s[1..][..k - 1];
    }
  }

  /**
   A global replace is the same text with every separator `pat` swapped for
   `rep`: with `SplitOn`'s round trip, every occurrence of `pat` is replaced
   and every other character is kept, in order.
   */
  lemma {:induction false} ReplaceAllIsJoin(s: string, pat: string, rep: string)
    requires |pat| > 0
    ensures ReplaceAll(s, pat, rep) == JoinWith(SplitOn(s, pat), rep)
    decreases |s|
  {
    var k := IndexOf(s, pat, 0);
    if k < 0 {
      ReplaceAllWithoutOccurrence(s, pat, rep);
    } else {
      var after := s[k + |pat|..];
      ReplaceAllAtFirstOccurrence(s, pat, rep, k);
      ReplaceAllIsJoin(after, pat, rep);
      JoinWithCons(s[..k], SplitOn(after, pat), rep);
    }
  }

  lemma {:induction false} ReplaceAllAtFirstOccurrence(s: string, pat: string, rep: string, k: int)
    requires |pat| > 0 && OccursAt(s, pat, k)
    requires forall j :: 0 <= j < k ==> !OccursAt(s, pat, j)
    ensures ReplaceAll(s, pat, rep) == s[..k] + rep + ReplaceAll(s[k + |pat|..], pat, rep)
  {
    ReplaceAllCopiesFreePrefix(s, pat, rep, k);
    var t := s[k..];
    assert t[..|pat|] == s[k..k + |pat|];
    ReplaceAllAtOccurrence(t, pat, rep);
    assert t[|pat|..] == s[k + |pat|..];
    var x := ReplaceAll(s[k + |pat|..], pat, rep);
    assert s[..k] + (rep + x) == s[..k] + rep + x;
  }

  lemma ReplaceAllAtOccurrence(s: string, pat: string, rep: string)
    requires |pat| > 0 && StartsWith(s, pat)
    ensures ReplaceAll(s, pat, rep) == rep + ReplaceAll(s[|pat|..], pat, rep)
  {
  }

  lemma JoinWithCons(head: string, rest: seq<string>, sep: string)
    requires |rest| >= 1
    ensures JoinWith([head] + rest, sep) == head + sep + JoinWith(rest, sep)
  {
    assert ([head] + rest)[1..] == rest;
  }

  /** Without an occurrence of `pat`, a global replace changes nothing. */
  lemma ReplaceAllWithoutOccurrence(s: string, pat: string, rep: string)
    requires |pat| > 0 && Free(s, pat)
    ensures ReplaceAll(s, pat, rep) == s
  {
    assert forall j :: 0 <= j < |s| ==> !OccursAt(s, pat, j);
    ReplaceAllCopiesFreePrefix(s, pat, rep, |s|);
    assert s[..|s|] == s && s[|s|..] == [];
  }

  /** `n` copies of `s`, concatenated. */
  function Repeat(s: string, n: nat): string
  {
    if n == 0 then [] else Repeat(s, n - 1) + s
  }
}
