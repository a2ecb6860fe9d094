/**
 * The Python string operations that tui.py relies on, written out:
 * `str.isspace`, `str.lower` (ASCII letters only), the substring test `in`,
 * `str.strip`, `str.split(sep)`, `str.split()` and `str.splitlines()`.
 */
module Text {

  datatype Option<+T> = None | Some(value: T)

  /** The characters for which Python's `str.isspace()` holds (also what `\s` matches in `re`). */
  predicate IsSpace(c: char) {
    c == ' ' || ('\t' <= c <= '\r') || ('\U{1c}' <= c <= '\U{1f}') || c == '\U{85}' || c == '\U{a0}'
    || c == '\U{1680}' || ('\U{2000}' <= c <= '\U{200a}') || c == '\U{2028}' || c == '\U{2029}'
    || c == '\U{202f}' || c == '\U{205f}' || c == '\U{3000}'
  }

  predicate AllSpace(s: string) {
    forall k :: 0 <= k < |s| ==> IsSpace(s[k])
  }

  lemma SlicesJoin(s: string, i: nat, j: nat, k: nat)
    requires i <= j <= k <= |s|
    ensures s[i..j] + s[j..k] == s[i..k]
  {
  }

  /** A slice equals `w` when `s` holds `w` character by character from `i` on. */
  lemma SliceIs(s: string, i: nat, w: string)
    requires i + |w| <= |s|
    requires forall k :: 0 <= k < |w| ==> s[i + k] == w[k]
    ensures s[i..i + |w|] == w
  {
  }

  /** ASCII case mapping, as `str.lower()` does on ASCII letters. */
  function LowerChar(c: char): (r: char)
    ensures 'A' <= c <= 'Z' ==> r as int == c as int + 32
    ensures !('A' <= c <= 'Z') ==> r == c
  {
    if 'A' <= c <= 'Z' then (c as int + 32) as char else c
  }

  function Lower(s: string): (r: string)
    ensures |r| == |s|
    ensures forall k :: 0 <= k < |s| ==> r[k] == LowerChar(s[k])
    decreases |s|
  {
    if s == [] then [] else [LowerChar(s[0])] + Lower(s[1..])
  }

  lemma LowerAppend(a: string, b: string)
    ensures Lower(a + b) == Lower(a) + Lower(b)
  {
    assert Lower(a + b) == Lower(a) + Lower(b) by {
      forall k | 0 <= k < |a| + |b|
        ensures Lower(a + b)[k] == (Lower(a) + Lower(b))[k]
      {
        if k < |a| { assert (a + b)[k] == a[k]; } else { assert (a + b)[k] == b[k - |a|]; }
      }
    }
  }

  predicate StartsWith(s: string, prefix: string) {
    |prefix| <= |s| && s[..|prefix|] == prefix
  }

  /** The substring test `sub in s`, by scanning the start positions of `s` from the left. */
  predicate Contains(sub: string, s: string)
    decreases |s|
  {
    StartsWith(s, sub) || (|s| > 0 && Contains(sub, s[1..]))
  }

  /** Reference definition: `sub` occurs at some position of `s`. */
  ghost predicate OccursAt(sub: string, s: string, i: int) {
    0 <= i && i + |sub| <= |s| && s[i..i + |sub|] == sub
  }

  /** An occurrence in the tail is an occurrence one position further in the whole. */
  lemma OccursShift(sub: string, s: string, i: int)
    requires |s| > 0 && i >= 0
    ensures OccursAt(sub, s[1..], i) <==> OccursAt(sub, s, i + 1)
  {
    if 0 <= i && i + |sub| <= |s| - 1 {
      assert s[1..][i..i + |sub|] == s[i + 1..i + 1 + |sub|];
    }
  }

  lemma {:induction false} ContainsIff(sub: string, s: string)
    ensures Contains(sub, s) <==> exists i :: OccursAt(sub, s, i)
    decreases |s|
  {
    if StartsWith(s, sub) {
      assert OccursAt(sub, s, 0);
    } else if |s| == 0 {
      forall i ensures !OccursAt(sub, s, i) { }
    } else {
      ContainsIff(sub, s[1..]);
      if Contains(sub, s[1..]) {
        var i :| OccursAt(sub, s[1..], i);
        OccursShift(sub, s, i);
      } else {
        forall i | OccursAt(sub, s, i) ensures false {
          assert i != 0;
          OccursShift(sub, s, i - 1);
        }
      }
    }
  }

  /** The empty string is contained in every string. */
  lemma EmptyContained(s: string)
    ensures Contains("", s)
  {
    assert StartsWith(s, "");
  }

  /** A one-character string is contained only where that character occurs. */
  lemma {:induction false} ContainsChar(c: char, s: string)
    ensures Contains([c], s) <==> c in s
    decreases |s|
  {
    if s != [] {
      ContainsChar(c, s[1..]);
      assert StartsWith(s, [c]) <==> s[0] == c;
      assert s == [s[0]] + s[1..];
    }
  }

  /** Every prefix of a contained string is contained. */
  lemma ContainsPrefix(sub: string, n: nat, s: string)
    requires n <= |sub|
    requires Contains(sub, s)
    ensures Contains(sub[..n], s)
  {
    ContainsIff(sub, s);
    var i :| OccursAt(sub, s, i);
    assert s[i..i + n] == sub[..n];
    assert OccursAt(sub[..n], s, i);
    ContainsIff(sub[..n], s);
  }

  /** Drop the last character, as `s[:-1]` does (the empty string stays empty). */
  function DropLast(s: string): (r: string)
    ensures s == [] ==> r == []
    ensures s != [] ==> r + [s[|s| - 1]] == s
  {
    if s == [] then [] else s[..|s| - 1]
  }

  // ---------------------------------------------------------------------------
  // Scanning helpers

  /** The first index at or after `i` whose character does not satisfy `p`. */
  function SkipWhile(s: string, i: nat, p: char -> bool): (j: nat)
    requires i <= |s|
    ensures i <= j <= |s|
    ensures forall k :: i <= k < j ==> p(s[k])
    ensures j == |s| || !p(s[j])
    decreases |s| - i
  {
    if i < |s| && p(s[i]) then SkipWhile(s, i + 1, p) else i
  }

  /** The least `j` down from `i` (but not below `lo`) such that `s[j..i]` holds only characters satisfying `p`. */
  function SkipBackWhile(s: string, lo: nat, i: nat, p: char -> bool): (j: nat)
    requires lo <= i <= |s|
    ensures lo <= j <= i
    ensures forall k :: j <= k < i ==> p(s[k])
    ensures j == lo || !p(s[j - 1])
    decreases i - lo
  {
    if i > lo && p(s[i - 1]) then SkipBackWhile(s, lo, i - 1, p) else i
  }

  /** `SkipWhile` stops at the first character that fails `p`. */
  lemma {:induction false} SkipWhileExact(s: string, i: nat, j: nat, p: char -> bool)
    requires i <= j <= |s|
    requires forall k :: i <= k < j ==> p(s[k])
    requires j == |s| || !p(s[j])
    ensures SkipWhile(s, i, p) == j
    decreases j - i
  {
    if i < j {
      SkipWhileExact(s, i + 1, j, p);
    }
  }

  /** `SkipBackWhile` stops just after the last character that fails `p`. */
  lemma {:induction false} SkipBackWhileExact(s: string, lo: nat, i: nat, j: nat, p: char -> bool)
    requires lo <= j <= i <= |s|
    requires forall k :: j <= k < i ==> p(s[k])
    requires j == lo || !p(s[j - 1])
    ensures SkipBackWhile(s, lo, i, p) == j
    decreases i - j
  {
    if j < i {
      SkipBackWhileExact(s, lo, i - 1, j, p);
    }
  }

  /** Scanning `w + x + y` from the end of `w` stops after `x` when every character of `x`
      satisfies `p` and the first of `y` does not. */
  lemma SkipWhileOver(w: string, x: string, y: string, p: char -> bool)
    requires forall k :: 0 <= k < |x| ==> p(x[k])
    requires y == [] || !p(y[0])
    ensures SkipWhile(w + x + y, |w|, p) == |w| + |x|
  {
    var s := w + x + y;
    forall k | |w| <= k < |w| + |x| ensures p(s[k]) {
      assert s[k] == x[k - |w|];
    }
    if y != [] {
      assert s[|w| + |x|] == y[0];
    }
    SkipWhileExact(s, |w|, |w| + |x|, p);
  }

  function SkipSpaces(s: string, i: nat): (j: nat)
    requires i <= |s|
    ensures i <= j <= |s|
    ensures forall k :: i <= k < j ==> IsSpace(s[k])
    ensures j == |s| || !IsSpace(s[j])
  {
    SkipWhile(s, i, IsSpace)
  }

  predicate NotSpace(c: char) { !IsSpace(c) }

  /** The end of the run of non-whitespace characters that starts at `i`. */
  function TokenEnd(s: string, i: nat): (j: nat)
    requires i <= |s|
    ensures i <= j <= |s|
    ensures forall k :: i <= k < j ==> !IsSpace(s[k])
    ensures j == |s| || IsSpace(s[j])
  {
    SkipWhile(s, i, NotSpace)
  }

  /** `r` sits at offset `a` of `s`, and everything of `s` before and after it satisfies `p`. */
  ghost predicate TrimmedAt(s: string, r: string, a: int, p: char -> bool) {
    0 <= a <= |s| - |r| && s[a..a + |r|] == r
    && (forall k :: 0 <= k < a ==> p(s[k]))
    && (forall k :: a + |r| <= k < |s| ==> p(s[k]))
  }

  /** `s.strip(chars)` where `p` tells which characters are in `chars`. */
  function StripBy(s: string, p: char -> bool): (r: string)
    ensures |r| <= |s|
    ensures r != [] ==> !p(r[0]) && !p(r[|r| - 1])
    ensures exists a :: TrimmedAt(s, r, a, p)
  {
    var a := SkipWhile(s, 0, p);
    var b := SkipBackWhile(s, a, |s|, p);
    assert b > a ==> !p(s[b - 1]);
    assert TrimmedAt(s, s[a..b], a, p);
    s[a..b]
  }

  /** The contract of `StripBy` fixes its result: only one stretch of `s` has stripped
      characters all around it and none at its own ends. */
  lemma StripByUnique(s: string, p: char -> bool, r1: string, a1: int, r2: string, a2: int)
    requires r1 != [] ==> !p(r1[0]) && !p(r1[|r1| - 1])
    requires r2 != [] ==> !p(r2[0]) && !p(r2[|r2| - 1])
    requires TrimmedAt(s, r1, a1, p) && TrimmedAt(s, r2, a2, p)
    ensures r1 == r2
  {
    if r1 != [] {
      assert s[a1] == r1[0] && s[a1 + |r1| - 1] == r1[|r1| - 1];
    }
    if r2 != [] {
      assert s[a2] == r2[0] && s[a2 + |r2| - 1] == r2[|r2| - 1];
    }
  }

  /** `s.strip()`: leading and trailing whitespace removed. */
  function Strip(s: string): (r: string)
    ensures |r| <= |s|
    ensures r != [] ==> !IsSpace(r[0]) && !IsSpace(r[|r| - 1])
  {
    StripBy(s, IsSpace)
  }

  /** A string with no whitespace at either end is its own strip. */
  lemma {:induction false} StripUnchanged(s: string)
    requires s == [] || (!IsSpace(s[0]) && !IsSpace(s[|s| - 1]))
    ensures Strip(s) == s
  {
    var a := SkipWhile(s, 0, IsSpace);
    assert a == 0;
    var b := SkipBackWhile(s, a, |s|, IsSpace);
    assert b == |s|;
    assert s[a..b] == s;
  }

  /** Whitespace around a string that neither starts nor ends with whitespace is what `strip()`
      removes. */
  lemma StripAround(ws1: string, x: string, ws2: string)
    requires AllSpace(ws1) && AllSpace(ws2)
    requires x != [] && !IsSpace(x[0]) && !IsSpace(x[|x| - 1])
    ensures Strip(ws1 + x + ws2) == x
  {
    var s := ws1 + x + ws2;
    var a, b := |ws1|, |ws1| + |x|;
    forall k | 0 <= k < a ensures IsSpace(s[k]) {
      assert s[k] == ws1[k];
    }
    assert s[a] == x[0];
    SkipWhileExact(s, 0, a, IsSpace);
    forall k | b <= k < |s| ensures IsSpace(s[k]) {
      assert s[k] == ws2[k - b];
    }
    assert s[b - 1] == x[|x| - 1];
    SkipBackWhileExact(s, a, |s|, b, IsSpace);
    forall k | 0 <= k < |x| ensures s[a + k] == x[k] {
    }
    SliceIs(s, a, x);
  }

  /** A line of whitespace strips to nothing. */
  lemma StripBlank(s: string)
    requires AllSpace(s)
    ensures Strip(s) == []
  {
    SkipWhileExact(s, 0, |s|, IsSpace);
  }

  /** After leading whitespace, the first other character begins the stripped string. */
  lemma StripStartsWith(ws: string, c: char, t: string)
    requires AllSpace(ws) && !IsSpace(c)
    ensures var r := Strip(ws + [c] + t); r != [] && r[0] == c
  {
    var s := ws + [c] + t;
    forall k | 0 <= k < |ws| ensures IsSpace(s[k]) {
      assert s[k] == ws[k];
    }
    assert s[|ws|] == c;
    SkipWhileExact(s, 0, |ws|, IsSpace);
  }

  // ---------------------------------------------------------------------------
  // str.split(sep) and its inverse sep.join

  /** The least index of `c` in `s` at or after `from`, if any. */
  function IndexFrom(s: string, from: nat, c: char): (r: Option<nat>)
    requires from <= |s|
    ensures r.Some? ==> from <= r.value < |s| && s[r.value] == c
    ensures forall k :: from <= k < (if r.Some? then r.value else |s|) ==> s[k] != c
    decreases |s| - from
  {
    if from == |s| then None
    else if s[from] == c then Some(from)
    else IndexFrom(s, from + 1, c)
  }

  /** The search stops at the first `c` at or after `from`. */
  lemma {:induction false} IndexFromIs(s: string, from: nat, e: nat, c: char)
    requires from <= e < |s| && s[e] == c
    requires forall k :: from <= k < e ==> s[k] != c
    ensures IndexFrom(s, from, c) == Some(e)
    decreases e - from
  {
    if from < e {
      IndexFromIs(s, from + 1, e, c);
    }
  }

  /** `sep.join(parts)`. */
  function Join(parts: seq<string>, sep: char): string {
    if |parts| == 0 then "" else if |parts| == 1 then parts[0] else parts[0] + [sep] + Join(parts[1..], sep)
  }

  lemma JoinCons(p: string, rest: seq<string>, sep: char)
    requires rest != []
    ensures Join([p] + rest, sep) == p + [sep] + Join(rest, sep)
  {
    assert ([p] + rest)[1..] == rest;
  }

  /** `s.split(sep)` for a one-character separator: always at least one part, none holding `sep`,
      and joining the parts with `sep` gives `s` back. */
  function Split(s: string, sep: char): (parts: seq<string>)
    ensures |parts| >= 1
    ensures forall k :: 0 <= k < |parts| ==> sep !in parts[k]
    ensures Join(parts, sep) == s
    decreases |s|
  {
    match IndexFrom(s, 0, sep)
    case None => [s]
    case Some(i) =>
      var rest := Split(s[i + 1..], sep);
      assert s == s[..i] + [sep] + s[i + 1..];
      [s[..i]] + rest
  }

  /** Splitting `a + sep + b` where `a` holds no separator peels off `a`. */
  lemma SplitCons(a: string, sep: char, b: string)
    requires sep !in a
    ensures Split(a + [sep] + b, sep) == [a] + Split(b, sep)
  {
    var s := a + [sep] + b;
    assert s[|a|] == sep;
    assert forall k :: 0 <= k < |a| ==> s[k] == a[k];
    assert IndexFrom(s, 0, sep) == Some(|a|);
    assert s[..|a|] == a;
    assert s[|a| + 1..] == b;
  }

  /** A string without the separator is a single part. */
  lemma SplitNone(s: string, sep: char)
    requires sep !in s
    ensures Split(s, sep) == [s]
  {
  }

  /** Splitting at a separator between `a` and `b` splits `a` and `b` separately. */
  lemma {:induction false} SplitAppend(a: string, sep: char, b: string)
    ensures Split(a + [sep] + b, sep) == Split(a, sep) + Split(b, sep)
    decreases |a|
  {
    match IndexFrom(a, 0, sep)
    case None =>
      SplitNone(a, sep);
      SplitCons(a, sep, b);
    case Some(i) =>
      var head, tail := a[..i], a[i + 1..];
      assert a == head + [sep] + tail;
      assert sep !in head;
      SplitCons(head, sep, tail);
      assert a + [sep] + b == head + [sep] + (tail + [sep] + b);
      SplitCons(head, sep, tail + [sep] + b);
      SplitAppend(tail, sep, b);
  }

  /** Joining parts that hold no separator and splitting again gives the parts back. */
  lemma {:induction false} SplitJoin(parts: seq<string>, sep: char)
    requires |parts| >= 1
    requires forall k :: 0 <= k < |parts| ==> sep !in parts[k]
    ensures Split(Join(parts, sep), sep) == parts
    decreases |parts|
  {
    if |parts| == 1 {
      SplitNone(parts[0], sep);
    } else {
      SplitJoin(parts[1..], sep);
      SplitCons(parts[0], sep, Join(parts[1..], sep));
    }
  }

  /** The number of occurrences of `c` in `s`. */
  function Count(s: string, c: char): nat {
    if s == [] then 0 else (if s[0] == c then 1 else 0) + Count(s[1..], c)
  }

  lemma {:induction false} CountAppend(a: string, b: string, c: char)
    ensures Count(a + b, c) == Count(a, c) + Count(b, c)
    decreases |a|
  {
    if a == [] {
      assert a + b == b;
    } else {
      assert (a + b)[1..] == a[1..] + b;
      CountAppend(a[1..], b, c);
    }
  }

  lemma {:induction false} CountAbsent(s: string, c: char)
    requires c !in s
    ensures Count(s, c) == 0
    decreases |s|
  {
    if s != [] { CountAbsent(s[1..], c); }
  }

  /** `s.split(sep)` has exactly one more part than `s` has separators. */
  lemma {:induction false} SplitLength(s: string, sep: char)
    ensures |Split(s, sep)| == Count(s, sep) + 1
    decreases |s|
  {
    match IndexFrom(s, 0, sep)
    case None =>
      CountAbsent(s, sep);
    case Some(i) =>
      SplitLength(s[i + 1..], sep);
      assert s == s[..i] + ([sep] + s[i + 1..]);
      CountAppend(s[..i], [sep] + s[i + 1..], sep);
      CountAbsent(s[..i], sep);
      assert ([sep] + s[i + 1..])[1..] == s[i + 1..];
  }

  // ---------------------------------------------------------------------------
  // str.splitlines()

  /** Length of the line boundary starting at `i` (0 if there is none): `\r\n` counts as one boundary of length 2. */
  function BreakLength(s: string, i: nat): (n: nat)
    requires i < |s|
    ensures n <= 2 && i + n <= |s|
  {
    var c := s[i];
    if c == '\r' && i + 1 < |s| && s[i + 1] == '\n' then 2
    else if c == '\n' || c == '\r' || c == '\U{0b}' || c == '\U{0c}' || ('\U{1c}' <= c <= '\U{1e}')
         || c == '\U{85}' || c == '\U{2028}' || c == '\U{2029}' then 1
    else 0
  }

  predicate IsBreak(c: char) {
    c == '\n' || c == '\r' || c == '\U{0b}' || c == '\U{0c}' || ('\U{1c}' <= c <= '\U{1e}')
    || c == '\U{85}' || c == '\U{2028}' || c == '\U{2029}'
  }

  /** `s.splitlines()`: the lines of `s` without their boundaries; a final boundary does not start a new line. */
  function SplitLines(s: string): (lines: seq<string>)
    ensures s == [] <==> lines == []
    ensures forall k, j :: 0 <= k < |lines| && 0 <= j < |lines[k]| ==> !IsBreak(lines[k][j])
    decreases |s|
  {
    if s == [] then []
    else
      var i := SkipWhile(s, 0, c => !IsBreak(c));
      if i == |s| then [s]
      else
        assert BreakLength(s, i) >= 1;
        [s[..i]] + SplitLines(s[i + BreakLength(s, i)..])
  }

  predicate NoBreak(s: string) {
    forall k :: 0 <= k < |s| ==> !IsBreak(s[k])
  }

  /** `br` is one line boundary in front of `rest`: a single boundary character, except a `\r`
      that a `\n` follows, or the pair `\r\n`. */
  predicate Boundary(br: string, rest: string) {
    (|br| == 1 && IsBreak(br[0]) && !(br[0] == '\r' && rest != [] && rest[0] == '\n')) || br == "\r\n"
  }

  /** A non-empty text without a boundary is one line. */
  lemma SplitLinesOne(a: string)
    requires a != [] && NoBreak(a)
    ensures SplitLines(a) == [a]
  {
    SkipWhileExact(a, 0, |a|, c => !IsBreak(c));
  }

  /** A line followed by a boundary is the first line; the lines of the rest follow. */
  lemma SplitLinesCons(a: string, br: string, rest: string)
    requires NoBreak(a) && Boundary(br, rest)
    ensures SplitLines(a + br + rest) == [a] + SplitLines(rest)
  {
    var s := a + br + rest;
    forall k | 0 <= k < |a| ensures !IsBreak(s[k]) {
      assert s[k] == a[k];
    }
    assert s[|a|] == br[0];
    SkipWhileExact(s, 0, |a|, c => !IsBreak(c));
    if |br| == 1 && rest != [] {
      assert s[|a| + 1] == rest[0];
    }
    if br == "\r\n" {
      assert s[|a| + 1] == '\n';
    }
    assert BreakLength(s, |a|) == |br|;
    assert s[..|a|] == a;
    assert s[|a| + |br|..] == rest;
  }

  /** Lines without boundaries, joined by `\n`, split back into the same lines, as long as the last
      one is not empty (a final `\n` does not start a line). */
  lemma {:induction false} SplitLinesJoin(lines: seq<string>)
    requires lines != [] && lines[|lines| - 1] != []
    requires forall k :: 0 <= k < |lines| ==> NoBreak(lines[k])
    ensures SplitLines(Join(lines, '\n')) == lines
    decreases |lines|
  {
    if |lines| == 1 {
      SplitLinesOne(lines[0]);
    } else {
      var rest := lines[1..];
      assert lines == [lines[0]] + rest;
      JoinCons(lines[0], rest, '\n');
      SplitLinesJoin(rest);
      SplitLinesCons(lines[0], "\n", Join(rest, '\n'));
    }
  }

  /** `t` is a maximal run of non-whitespace at offset `a` of `s`, preceded only by whitespace. */
  ghost predicate TokenAt(s: string, t: string, a: int) {
    0 <= a && a + |t| <= |s| && AllSpace(s[..a]) && s[a..a + |t|] == t
    && (a + |t| == |s| || IsSpace(s[a + |t|]))
  }

  /** `s.split()[0]` for a line that holds a non-whitespace character: its first whitespace-separated token. */
  function FirstToken(s: string): (r: Option<string>)
    ensures r.None? <==> AllSpace(s)
    ensures r.Some? ==> r.value != [] && forall k :: 0 <= k < |r.value| ==> !IsSpace(r.value[k])
    ensures r.Some? ==> exists a :: TokenAt(s, r.value, a)
  {
    var a := SkipSpaces(s, 0);
    if a == |s| then None
    else
      var b := TokenEnd(s, a);
      assert TokenAt(s, s[a..b], a);
      Some(s[a..b])
  }
}
