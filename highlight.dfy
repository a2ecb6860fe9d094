/**
 * The keyword pattern of the text viewer in tui.py, `(error|warning|success)`
 * compiled with `re.IGNORECASE` (line 204): where an alternative matches, and
 * where `finditer` finds the next match of a line.
 */
module KeywordMatch {
  import opened Text

  /** The three alternatives of the pattern, in the order they are tried. */
  datatype Word = Error | Warning | Success

  function Spelling(w: Word): (s: string)
    ensures |s| >= 5
  {
    match w
    case Error => "error"
    case Warning => "warning"
    case Success => "success"
  }

  /** The alternative `w` matches at position `i` of `line`, ignoring ASCII case: letter by
      letter, the lower-cased character of the line is the letter of the keyword. */
  predicate WordAt(line: string, i: nat, w: Word) {
    match w
    case Error =>
      && i + 5 <= |line|
      && LowerChar(line[i]) == 'e' && LowerChar(line[i + 1]) == 'r' && LowerChar(line[i + 2]) == 'r'
      && LowerChar(line[i + 3]) == 'o' && LowerChar(line[i + 4]) == 'r'
    case Warning =>
      && i + 7 <= |line|
      && LowerChar(line[i]) == 'w' && LowerChar(line[i + 1]) == 'a' && LowerChar(line[i + 2]) == 'r'
      && LowerChar(line[i + 3]) == 'n' && LowerChar(line[i + 4]) == 'i'
      && LowerChar(line[i + 5]) == 'n' && LowerChar(line[i + 6]) == 'g'
    case Success =>
      && i + 7 <= |line|
      && LowerChar(line[i]) == 's' && LowerChar(line[i + 1]) == 'u' && LowerChar(line[i + 2]) == 'c'
      && LowerChar(line[i + 3]) == 'c' && LowerChar(line[i + 4]) == 'e'
      && LowerChar(line[i + 5]) == 's' && LowerChar(line[i + 6]) == 's'
  }

  /** `WordAt` is the comparison of the lower-cased stretch of the line with the spelling of the
      alternative. */
  lemma WordAtLower(line: string, i: nat, w: Word)
    ensures WordAt(line, i, w) <==>
              i + |Spelling(w)| <= |line| && Lower(line[i..i + |Spelling(w)|]) == Spelling(w)
  {
    var n := |Spelling(w)|;
    if i + n <= |line| {
      var s := Lower(line[i..i + n]);
      forall j | 0 <= j < n ensures s[j] == LowerChar(line[i + j]) {
        assert line[i..i + n][j] == line[i + j];
      }
      WordAtPointwise(line, i, w, s);
    }
  }

  /** `WordAt` compares the line letter by letter with the spelling. */
  lemma WordAtPointwise(line: string, i: nat, w: Word, s: string)
    requires |s| == |Spelling(w)| && i + |s| <= |line|
    requires forall j :: 0 <= j < |s| ==> s[j] == LowerChar(line[i + j])
    ensures WordAt(line, i, w) <==> s == Spelling(w)
  {
    match w
    case Error =>
      assert s == [s[0], s[1], s[2], s[3], s[4]];
    case Warning =>
      assert s == [s[0], s[1], s[2], s[3], s[4], s[5], s[6]];
    case Success =>
      assert s == [s[0], s[1], s[2], s[3], s[4], s[5], s[6]];
  }

  /** The alternative of the pattern that matches at `i`, tried in pattern order. */
  function KeywordAt(line: string, i: nat): (r: Option<Word>)
    ensures r.Some? ==> WordAt(line, i, r.value)
    ensures r.None? ==> forall w :: !WordAt(line, i, w)
  {
    if WordAt(line, i, Error) then Some(Error)
    else if WordAt(line, i, Warning) then Some(Warning)
    else if WordAt(line, i, Success) then Some(Success)
    else None
  }

  /** The alternatives never compete: at most one of them matches at a position, so the order
      in which the pattern tries them does not matter. */
  lemma AlternativesExclusive(line: string, i: nat, a: Word, b: Word)
    requires WordAt(line, i, a) && WordAt(line, i, b)
    ensures a == b
  {
  }

  /** A match inside a stretch of the line is a match in the line. */
  lemma WordAtShift(line: string, lo: nat, hi: nat, j: nat, w: Word)
    requires lo <= hi <= |line|
    ensures WordAt(line[lo..hi], j, w) ==> WordAt(line, lo + j, w)
  {
  }

  /** The start of the leftmost match at or after `from` (how `finditer` goes on after a match). */
  function NextMatch(line: string, from: nat): (r: Option<nat>)
    requires from <= |line|
    ensures r.Some? ==> from <= r.value < |line| && KeywordAt(line, r.value).Some?
    decreases |line| - from
  {
    if KeywordAt(line, from).Some? then Some(from)
    else if from == |line| then None
    else NextMatch(line, from + 1)
  }

  /** `NextMatch` finds the leftmost match: none starts between `from` and the result. */
  lemma {:induction false} NextMatchLeftmost(line: string, from: nat, k: nat)
    requires from <= k <= |line|
    requires NextMatch(line, from).None? || k < NextMatch(line, from).value
    ensures KeywordAt(line, k).None?
    decreases |line| - from
  {
    if KeywordAt(line, from).None? && k > from {
      assert NextMatch(line, from) == NextMatch(line, from + 1);
      NextMatchLeftmost(line, from + 1, k);
    }
  }
}

/**
 * Keyword highlighting in the text viewer of tui.py: each displayed line is cut
 * into plain text and the leftmost, non-overlapping matches of the keyword
 * pattern, and each match is drawn in a colour pair chosen from its lower-cased
 * text (1 = red, 2 = yellow, 3 = green, set up at lines 299-301).
 */
module Highlight {
  import opened Text
  import opened KeywordMatch

  /** A curses colour pair, or the default attribute (`curses.A_NORMAL`). */
  datatype Color = Pair(n: nat) | Normal

  datatype Segment = Plain(text: string) | Keyword(text: string, color: Color)

  /** Lines 225-233: the colour for a matched word, after lower-casing it. */
  function ColorOf(word: string): Color {
    if word == "error" then Pair(1)
    else if word == "warning" then Pair(2)
    else if word == "success" then Pair(3)
    else Normal
  }

  /** The colour pair of each alternative. */
  function PairOf(w: Word): Color {
    match w
    case Error => Pair(1)
    case Warning => Pair(2)
    case Success => Pair(3)
  }

  /** Where the match that starts at `start` ends. */
  function MatchEnd(line: string, start: nat): (stop: nat)
    requires KeywordAt(line, start).Some?
    ensures start < stop <= |line|
  {
    start + |Spelling(KeywordAt(line, start).value)|
  }

  /** Lower-casing the text of a match and choosing its colour gives the pair of the
      alternative that matched: the `A_NORMAL` branch is never taken for an ASCII match. */
  lemma MatchColor(line: string, start: nat)
    requires KeywordAt(line, start).Some?
    ensures ColorOf(Lower(line[start..MatchEnd(line, start)])) == PairOf(KeywordAt(line, start).value) != Normal
  {
    var w := KeywordAt(line, start).value;
    WordAtLower(line, start, w);
  }

  /** The plain text between `pos` and the next match, if there is any. */
  function Before(line: string, pos: nat, start: nat): seq<Segment>
    requires pos <= start <= |line|
  {
    if start > pos then [Plain(line[pos..start])] else []
  }

  /** Lines 218-240 without the column clipping: plain text before each match, the match
      itself, and the rest of the line after the last match. The colour is the pair of the
      alternative that matched (`MatchColor` shows it is what lines 225-233 choose). */
  function SegmentsFrom(line: string, pos: nat): seq<Segment>
    requires pos <= |line|
    decreases |line| - pos
  {
    match NextMatch(line, pos)
    case None => if pos < |line| then [Plain(line[pos..])] else []
    case Some(start) =>
      var stop := MatchEnd(line, start);
      Before(line, pos, start)
      + [Keyword(line[start..stop], PairOf(KeywordAt(line, start).value))]
      + SegmentsFrom(line, stop)
  }

  function Segments(line: string): seq<Segment> {
    SegmentsFrom(line, 0)
  }

  /** The text of the segments, drawn one after another. */
  function Flatten(segs: seq<Segment>): string {
    if segs == [] then "" else segs[0].text + Flatten(segs[1..])
  }

  lemma {:induction false} FlattenAppend(a: seq<Segment>, b: seq<Segment>)
    ensures Flatten(a + b) == Flatten(a) + Flatten(b)
    decreases |a|
  {
    if a == [] {
      assert a + b == b;
    } else {
      assert (a + b)[1..] == a[1..] + b;
      FlattenAppend(a[1..], b);
    }
  }

  lemma FlattenSingle(seg: Segment)
    ensures Flatten([seg]) == seg.text
  {
    assert [seg][1..] == [];
  }

  /** One step of the segmentation: the text before the next match, the match, and the rest. */
  lemma SegmentsStep(line: string, pos: nat, start: nat)
    requires pos <= |line| && NextMatch(line, pos) == Some(start)
    ensures SegmentsFrom(line, pos)
            == Before(line, pos, start)
               + [Keyword(line[start..MatchEnd(line, start)], PairOf(KeywordAt(line, start).value))]
               + SegmentsFrom(line, MatchEnd(line, start))
  {
  }

  lemma FlattenThree(a: seq<Segment>, k: Segment, r: seq<Segment>)
    ensures Flatten(a + [k] + r) == Flatten(a) + k.text + Flatten(r)
  {
    FlattenAppend(a + [k], r);
    FlattenAppend(a, [k]);
    FlattenSingle(k);
  }

  lemma FlattenBefore(line: string, pos: nat, start: nat)
    requires pos <= start <= |line|
    ensures Flatten(Before(line, pos, start)) == line[pos..start]
  {
    if start > pos {
      FlattenSingle(Plain(line[pos..start]));
    }
  }

  /** Pieces that rebuild three consecutive stretches of the line rebuild their union. */
  lemma RebuildPiece(line: string, pos: nat, start: nat, stop: nat,
                     front: seq<Segment>, k: Segment, rest: seq<Segment>)
    requires pos <= start <= stop <= |line|
    requires Flatten(front) == line[pos..start] && k.text == line[start..stop]
    requires Flatten(rest) == line[stop..]
    ensures Flatten(front + [k] + rest) == line[pos..]
  {
    FlattenThree(front, k, rest);
    SlicesJoin(line, pos, start, stop);
    SlicesJoin(line, pos, stop, |line|);
  }

  /** Drawing the segments reproduces the line exactly. */
  lemma {:induction false} SegmentsRebuildLine(line: string, pos: nat)
    requires pos <= |line|
    ensures Flatten(SegmentsFrom(line, pos)) == line[pos..]
    decreases |line| - pos
  {
    match NextMatch(line, pos)
    case None =>
      if pos < |line| {
        FlattenSingle(Plain(line[pos..]));
      }
    case Some(start) =>
      var stop := MatchEnd(line, start);
      var kw := Keyword(line[start..stop], PairOf(KeywordAt(line, start).value));
      SegmentsStep(line, pos, start);
      SegmentsRebuildLine(line, stop);
      FlattenBefore(line, pos, start);
      RebuildPiece(line, pos, start, stop, Before(line, pos, start), kw, SegmentsFrom(line, stop));
  }

  /** No keyword occurs anywhere in `t`. */
  ghost predicate KeywordFree(t: string) {
    forall j :: 0 <= j <= |t| ==> KeywordAt(t, j).None?
  }

  /** A stretch of the line in which no match starts holds no keyword. */
  lemma FreeStretch(line: string, lo: nat, hi: nat)
    requires lo <= hi <= |line|
    requires NextMatch(line, lo).None? || hi <= NextMatch(line, lo).value
    ensures KeywordFree(line[lo..hi])
  {
    var t := line[lo..hi];
    forall j | 0 <= j <= |t| ensures KeywordAt(t, j).None? {
      var r := KeywordAt(t, j);
      if r.Some? {
        WordAtShift(line, lo, hi, j, r.value);
        NextMatchLeftmost(line, lo, lo + j);
        assert false;
      }
    }
  }

  /** The segment property the viewer relies on: a keyword segment gets the colour that
      lines 225-233 choose for its lower-cased text, and that colour is a pair (so the text is
      one of the keywords); a plain segment is non-empty and holds no keyword. */
  ghost predicate WellColored(seg: Segment) {
    match seg
    case Keyword(t, c) => c == ColorOf(Lower(t)) && c != Normal
    case Plain(t) => t != [] && KeywordFree(t)
  }

  ghost predicate AllWellColored(segs: seq<Segment>) {
    forall i :: 0 <= i < |segs| ==> WellColored(segs[i])
  }

  lemma AllWellColoredThree(a: seq<Segment>, k: Segment, r: seq<Segment>)
    requires AllWellColored(a) && WellColored(k) && AllWellColored(r)
    ensures AllWellColored(a + [k] + r)
  {
    var s := a + [k] + r;
    forall i | 0 <= i < |s| ensures WellColored(s[i]) {
      if i < |a| { assert s[i] == a[i]; }
      else if i > |a| { assert s[i] == r[i - |a| - 1]; }
    }
  }

  lemma MatchWell(line: string, start: nat)
    requires KeywordAt(line, start).Some?
    ensures WellColored(Keyword(line[start..MatchEnd(line, start)], PairOf(KeywordAt(line, start).value)))
  {
    MatchColor(line, start);
  }

  lemma BeforeWell(line: string, pos: nat, start: nat)
    requires pos <= start <= |line|
    requires NextMatch(line, pos).None? || start <= NextMatch(line, pos).value
    ensures AllWellColored(Before(line, pos, start))
  {
    if start > pos {
      FreeStretch(line, pos, start);
    }
  }

  lemma {:induction false} SegmentsWellColored(line: string, pos: nat)
    requires pos <= |line|
    ensures AllWellColored(SegmentsFrom(line, pos))
    decreases |line| - pos
  {
    match NextMatch(line, pos)
    case None =>
      if pos < |line| {
        FreeStretch(line, pos, |line|);
        assert line[pos..|line|] == line[pos..];
      }
    case Some(start) =>
      var stop := MatchEnd(line, start);
      var kw := Keyword(line[start..stop], PairOf(KeywordAt(line, start).value));
      SegmentsStep(line, pos, start);
      SegmentsWellColored(line, stop);
      BeforeWell(line, pos, start);
      MatchWell(line, start);
      AllWellColoredThree(Before(line, pos, start), kw, SegmentsFrom(line, stop));
  }

  /** Laid end to end from `pos`, no match of the pattern starts at any position of the line
      covered by a plain segment: each keyword segment is the leftmost match after the one
      before it, as `finditer` reports them. */
  ghost predicate LeftmostFrom(line: string, pos: nat, segs: seq<Segment>)
    decreases |segs|
  {
    segs == [] ||
    var stop := pos + |segs[0].text|;
    && stop <= |line|
    && (segs[0].Plain? ==> forall k :: pos <= k < stop ==> KeywordAt(line, k).None?)
    && LeftmostFrom(line, stop, segs[1..])
  }

  /** The plain text between two matches is drawn as one piece: no two plain segments are
      adjacent. */
  ghost predicate PlainRunsMaximal(segs: seq<Segment>) {
    forall i :: 0 <= i < |segs| - 1 ==> !(segs[i].Plain? && segs[i + 1].Plain?)
  }

  lemma LeftmostCons(line: string, pos: nat, seg: Segment, rest: seq<Segment>)
    requires pos + |seg.text| <= |line|
    requires seg.Plain? ==> forall k :: pos <= k < pos + |seg.text| ==> KeywordAt(line, k).None?
    requires LeftmostFrom(line, pos + |seg.text|, rest)
    ensures LeftmostFrom(line, pos, [seg] + rest)
  {
    assert ([seg] + rest)[0] == seg && ([seg] + rest)[1..] == rest;
  }

  lemma LeftmostUncons(line: string, pos: nat, segs: seq<Segment>)
    requires segs != [] && LeftmostFrom(line, pos, segs)
    ensures pos + |segs[0].text| <= |line|
    ensures segs[0].Plain? ==> forall k :: pos <= k < pos + |segs[0].text| ==> KeywordAt(line, k).None?
    ensures LeftmostFrom(line, pos + |segs[0].text|, segs[1..])
  {
  }

  /** No match after `pos`: the rest of the line is one plain segment free of matches. */
  lemma LeftmostLast(line: string, pos: nat)
    requires pos <= |line| && NextMatch(line, pos).None?
    ensures LeftmostFrom(line, pos, SegmentsFrom(line, pos))
  {
      if pos < |line| {
        forall k | pos <= k < |line| ensures KeywordAt(line, k).None? {
          NextMatchLeftmost(line, pos, k);
        }
        assert LeftmostFrom(line, |line|, []);
        LeftmostCons(line, pos, Plain(line[pos..]), []);
        assert [Plain(line[pos..])] + [] == [Plain(line[pos..])];
      }
  }

  lemma LeftmostStep(line: string, pos: nat, start: nat, stop: nat, kw: Segment, rest: seq<Segment>)
    requires pos <= start <= stop <= |line| && kw.Keyword? && |kw.text| == stop - start
    requires forall k :: pos <= k < start ==> KeywordAt(line, k).None?
    requires LeftmostFrom(line, stop, rest)
    ensures LeftmostFrom(line, pos, Before(line, pos, start) + [kw] + rest)
  {
    LeftmostCons(line, start, kw, rest);
    if start > pos {
      var p := Plain(line[pos..start]);
      LeftmostCons(line, pos, p, [kw] + rest);
      ConsAssoc(p, kw, rest);
    } else {
      assert Before(line, pos, start) + [kw] + rest == [kw] + rest;
    }
  }

  lemma PlainBeforeFree(line: string, pos: nat, start: nat)
    requires pos <= |line| && NextMatch(line, pos) == Some(start)
    ensures forall k :: pos <= k < start ==> KeywordAt(line, k).None?
  {
    forall k | pos <= k < start ensures KeywordAt(line, k).None? {
      NextMatchLeftmost(line, pos, k);
    }
  }

  /** One step of the segmentation keeps the leftmost property. */
  lemma LeftmostNext(line: string, pos: nat, start: nat)
    requires pos <= |line| && NextMatch(line, pos) == Some(start)
    requires LeftmostFrom(line, MatchEnd(line, start), SegmentsFrom(line, MatchEnd(line, start)))
    ensures LeftmostFrom(line, pos, SegmentsFrom(line, pos))
  {
    var stop := MatchEnd(line, start);
    var kw := Keyword(line[start..stop], PairOf(KeywordAt(line, start).value));
    var rest := SegmentsFrom(line, stop);
    PlainBeforeFree(line, pos, start);
    LeftmostStep(line, pos, start, stop, kw, rest);
    SegmentsStep(line, pos, start);
  }

  lemma {:induction false} SegmentsLeftmost(line: string, pos: nat)
    requires pos <= |line|
    ensures LeftmostFrom(line, pos, SegmentsFrom(line, pos))
    decreases |line| - pos
  {
    match NextMatch(line, pos)
    case None =>
      LeftmostLast(line, pos);
    case Some(start) =>
      SegmentsLeftmost(line, MatchEnd(line, start));
      LeftmostNext(line, pos, start);
  }

  lemma {:induction false} SegmentsPlainRunsMaximal(line: string, pos: nat)
    requires pos <= |line|
    ensures PlainRunsMaximal(SegmentsFrom(line, pos))
    decreases |line| - pos
  {
    match NextMatch(line, pos)
    case None =>
    case Some(start) =>
      var stop := MatchEnd(line, start);
      var kw := Keyword(line[start..stop], PairOf(KeywordAt(line, start).value));
      var front, rest := Before(line, pos, start), SegmentsFrom(line, stop);
      SegmentsStep(line, pos, start);
      SegmentsPlainRunsMaximal(line, stop);
      var segs := front + [kw] + rest;
      forall i | 0 <= i < |segs| - 1 ensures !(segs[i].Plain? && segs[i + 1].Plain?) {
        if i == |front| - 1 {
          assert segs[i + 1] == kw;
        } else if i > |front| {
          assert segs[i] == rest[i - |front| - 1] && segs[i + 1] == rest[i - |front|];
        }
      }
  }

  /** The segmentation of a whole line: it rebuilds the line, every segment is well coloured,
      the matches are the leftmost ones, and the text between two matches is one segment. */
  lemma SegmentationCorrect(line: string)
    ensures AllWellColored(Segments(line))
    ensures Flatten(Segments(line)) == line
    ensures LeftmostFrom(line, 0, Segments(line))
    ensures PlainRunsMaximal(Segments(line))
  {
    SegmentsWellColored(line, 0);
    SegmentsRebuildLine(line, 0);
    SegmentsLeftmost(line, 0);
    SegmentsPlainRunsMaximal(line, 0);
  }

  /** What is drawn from `pos` on starts with `t`. */
  lemma TextAt(line: string, pos: nat, t: string, r: string)
    requires pos <= |line| && line[pos..] == t + r
    ensures pos + |t| <= |line| && line[pos..pos + |t|] == t && line[pos + |t|..] == r
  {
    var e := pos + |t|;
    forall k | 0 <= k < |t| ensures line[pos + k] == t[k] {
      assert line[pos..][k] == (t + r)[k];
    }
    SliceIs(line, pos, t);
    forall k | 0 <= k < |r| ensures line[e + k] == r[k] {
      assert line[pos..][|t| + k] == (t + r)[|t| + k];
    }
    SliceIs(line, e, r);
  }

  /** A well-coloured keyword segment standing at `pos` is the match the pattern finds there. */
  lemma KeywordSegmentAt(line: string, pos: nat, t: string, c: Color)
    requires pos + |t| <= |line| && line[pos..pos + |t|] == t
    requires WellColored(Keyword(t, c))
    ensures KeywordAt(line, pos).Some?
    ensures MatchEnd(line, pos) == pos + |t|
    ensures PairOf(KeywordAt(line, pos).value) == c
  {
    var w := if Lower(t) == "error" then Error else if Lower(t) == "warning" then Warning else Success;
    assert Spelling(w) == Lower(t);
    WordAtLower(line, pos, w);
    var v := KeywordAt(line, pos).value;
    AlternativesExclusive(line, pos, v, w);
  }

  /** No match starts in `from .. to`: the search goes on from `to`. */
  lemma {:induction false} NoMatchBetween(line: string, from: nat, to: nat)
    requires from <= to <= |line|
    requires forall k :: from <= k < to ==> KeywordAt(line, k).None?
    ensures NextMatch(line, from) == NextMatch(line, to)
    decreases |line| - from
  {
    if from < to {
      NoMatchBetween(line, from + 1, to);
    }
  }

  lemma ConsAssoc(p: Segment, q: Segment, tail: seq<Segment>)
    ensures [p] + [q] + tail == [p] + ([q] + tail)
  {
  }

  /** At a match, the segmentation starts with the keyword segment of that match. */
  lemma SegmentsAtMatch(line: string, start: nat)
    requires start <= |line| && KeywordAt(line, start).Some?
    ensures SegmentsFrom(line, start)
            == [Keyword(line[start..MatchEnd(line, start)], PairOf(KeywordAt(line, start).value))]
               + SegmentsFrom(line, MatchEnd(line, start))
  {
    SegmentsStep(line, start, start);
    assert Before(line, start, start) == [];
  }

  /** `SegmentsFrom` under a name that is not recursive, so that a fact stated with it needs no
      unfolding to match a goal stated with it. */
  function Rest(line: string, pos: nat): seq<Segment>
    requires pos <= |line|
  {
    SegmentsFrom(line, pos)
  }

  /** The segmentation from `pos` starts with `seg` and goes on from where `seg` ends. */
  ghost predicate FirstIs(line: string, pos: nat, seg: Segment) {
    pos + |seg.text| <= |line| && Rest(line, pos) == [seg] + Rest(line, pos + |seg.text|)
  }

  /** Segments laid end to end from `pos` with the properties `SegmentationCorrect` states. */
  ghost predicate Laid(line: string, pos: nat, segs: seq<Segment>) {
    pos <= |line| && Flatten(segs) == line[pos..]
    && AllWellColored(segs) && LeftmostFrom(line, pos, segs) && PlainRunsMaximal(segs)
  }

  /** The segments `segs` are the segmentation of the line from `pos`. */
  ghost predicate SegmentationFrom(line: string, pos: nat, segs: seq<Segment>) {
    pos <= |line| && segs == Rest(line, pos)
  }

  /** Plain text up to the match at `stop` comes first, then the segmentation from the match. */
  lemma SegmentsAfterPlain(line: string, pos: nat, stop: nat)
    requires pos < stop <= |line| && NextMatch(line, pos) == Some(stop)
    ensures SegmentsFrom(line, pos) == [Plain(line[pos..stop])] + SegmentsFrom(line, stop)
  {
    var p := Plain(line[pos..stop]);
    var kw := Keyword(line[stop..MatchEnd(line, stop)], PairOf(KeywordAt(line, stop).value));
    var tail := SegmentsFrom(line, MatchEnd(line, stop));
    SegmentsStep(line, pos, stop);
    SegmentsAtMatch(line, stop);
    ConsAssoc(p, kw, tail);
  }

  /** Plain text free of matches up to a match at `e`. */
  lemma PlainBeforeMatch(line: string, pos: nat, e: nat)
    requires pos < e < |line| && KeywordAt(line, e).Some?
    requires forall k :: pos <= k < e ==> KeywordAt(line, k).None?
    ensures FirstIs(line, pos, Plain(line[pos..e]))
  {
    NoMatchBetween(line, pos, e);
    SegmentsAfterPlain(line, pos, e);
  }

  /** Nothing is left to segment at the end of the line. */
  lemma SegmentsAtEnd(line: string)
    ensures SegmentsFrom(line, |line|) == []
  {
    assert KeywordAt(line, |line|).None?;
  }

  /** Plain text free of matches up to the end of the line. */
  lemma PlainToEnd(line: string, pos: nat)
    requires pos < |line|
    requires forall k :: pos <= k < |line| ==> KeywordAt(line, k).None?
    ensures SegmentsFrom(line, pos) == [Plain(line[pos..])]
  {
    SegmentsAtEnd(line);
    NoMatchBetween(line, pos, |line|);
  }

  lemma TailProperties(segs: seq<Segment>)
    requires segs != [] && AllWellColored(segs) && PlainRunsMaximal(segs)
    ensures AllWellColored(segs[1..]) && PlainRunsMaximal(segs[1..])
    ensures |segs| > 1 && segs[0].Plain? ==> segs[1].Keyword?
  {
    var rest := segs[1..];
    forall i | 0 <= i < |rest| ensures WellColored(rest[i]) {
      assert rest[i] == segs[i + 1];
    }
    forall i | 0 <= i < |rest| - 1 ensures !(rest[i].Plain? && rest[i + 1].Plain?) {
      assert rest[i] == segs[i + 1] && rest[i + 1] == segs[i + 2];
    }
  }

  /** A well-coloured keyword segment at the head of the rest of the line starts a match. */
  lemma KeywordAfter(line: string, e: nat, t: string, c: Color, r: string)
    requires e <= |line| && line[e..] == t + r && WellColored(Keyword(t, c))
    ensures KeywordAt(line, e).Some?
  {
    TextAt(line, e, t, r);
    KeywordSegmentAt(line, e, t, c);
  }

  lemma FlattenSecond(segs: seq<Segment>)
    requires |segs| > 1
    ensures Flatten(segs[1..]) == segs[1].text + Flatten(segs[2..])
  {
    assert segs[1..][0] == segs[1] && segs[1..][1..] == segs[2..];
  }

  /** At a match, the segmentation takes the keyword segment of that match as its first step. */
  lemma MatchFirst(line: string, start: nat)
    requires start <= |line| && KeywordAt(line, start).Some?
    ensures FirstIs(line, start,
                    Keyword(line[start..MatchEnd(line, start)], PairOf(KeywordAt(line, start).value)))
  {
    SegmentsAtMatch(line, start);
  }

  /** A keyword segment at the match at `pos` is the first segment from `pos`. */
  lemma KeywordStep(line: string, pos: nat, t: string, c: Color)
    requires pos + |t| <= |line| && line[pos..pos + |t|] == t && WellColored(Keyword(t, c))
    ensures FirstIs(line, pos, Keyword(t, c))
  {
    KeywordSegmentAt(line, pos, t, c);
    MatchFirst(line, pos);
  }

  /** Plain text free of matches up to the end of the line is the last segment. */
  lemma PlainEndStep(line: string, pos: nat, t: string)
    requires pos < |line| && line[pos..] == t
    requires forall k :: pos <= k < |line| ==> KeywordAt(line, k).None?
    ensures FirstIs(line, pos, Plain(t))
  {
    PlainToEnd(line, pos);
    SegmentsAtEnd(line);
    assert [Plain(t)] + [] == [Plain(t)];
  }

  /** A well-coloured segment laid at `pos` is the first segment from `pos` when, if it is
      plain, no match starts inside it and a match (or the end of the line) follows it. */
  lemma FirstStep(line: string, pos: nat, seg: Segment)
    requires pos + |seg.text| <= |line| && line[pos..pos + |seg.text|] == seg.text
    requires WellColored(seg)
    requires seg.Plain? ==> forall k :: pos <= k < pos + |seg.text| ==> KeywordAt(line, k).None?
    requires seg.Plain? ==> pos + |seg.text| == |line| || KeywordAt(line, pos + |seg.text|).Some?
    ensures FirstIs(line, pos, seg)
  {
    var e := pos + |seg.text|;
    match seg
    case Keyword(t, c) =>
      KeywordStep(line, pos, t, c);
    case Plain(t) =>
      if e == |line| {
        PlainEndStep(line, pos, t);
      } else {
        PlainBeforeMatch(line, pos, e);
      }
  }

  /** Segments with the properties below keep them after their first segment, from where the
      first segment ends, and their first segment is laid out as `FirstStep` needs. */
  lemma UniqueTail(line: string, pos: nat, segs: seq<Segment>)
    requires segs != [] && Laid(line, pos, segs)
    ensures Laid(line, pos + |segs[0].text|, segs[1..])
  {
    TextAt(line, pos, segs[0].text, Flatten(segs[1..]));
    LeftmostUncons(line, pos, segs);
    TailProperties(segs);
  }

  lemma HeadPlaced(line: string, pos: nat, segs: seq<Segment>)
    requires segs != [] && Laid(line, pos, segs)
    ensures pos + |segs[0].text| <= |line| && line[pos..pos + |segs[0].text|] == segs[0].text
    ensures WellColored(segs[0])
  {
    TextAt(line, pos, segs[0].text, Flatten(segs[1..]));
  }

  lemma HeadFree(line: string, pos: nat, segs: seq<Segment>)
    requires segs != [] && Laid(line, pos, segs)
    ensures segs[0].Plain? ==>
              forall k :: pos <= k < pos + |segs[0].text| ==> KeywordAt(line, k).None?
  {
    LeftmostUncons(line, pos, segs);
  }

  lemma HeadFollowed(line: string, pos: nat, segs: seq<Segment>)
    requires segs != [] && Laid(line, pos, segs)
    ensures segs[0].Plain? ==>
              pos + |segs[0].text| == |line| || KeywordAt(line, pos + |segs[0].text|).Some?
  {
    if segs[0].Plain? {
      var e := pos + |segs[0].text|;
      TextAt(line, pos, segs[0].text, Flatten(segs[1..]));
      if |segs| > 1 {
        TailProperties(segs);
        var k := segs[1];
        assert WellColored(k) && k == Keyword(k.text, k.color);
        FlattenSecond(segs);
        KeywordAfter(line, e, k.text, k.color, Flatten(segs[2..]));
      }
    }
  }

  /** The first of such segments is the first step of the segmentation. */
  lemma HeadFirst(line: string, pos: nat, segs: seq<Segment>)
    requires segs != [] && Laid(line, pos, segs)
    ensures FirstIs(line, pos, segs[0])
  {
    HeadPlaced(line, pos, segs);
    HeadFree(line, pos, segs);
    HeadFollowed(line, pos, segs);
    FirstStep(line, pos, segs[0]);
  }

  /** A first step followed by the segmentation from where it ends is the segmentation. */
  lemma ChainStep(line: string, pos: nat, segs: seq<Segment>)
    requires segs != [] && FirstIs(line, pos, segs[0])
    requires SegmentationFrom(line, pos + |segs[0].text|, segs[1..])
    ensures SegmentationFrom(line, pos, segs)
  {
    assert segs == [segs[0]] + segs[1..];
  }

  /** The segmentation is the only one with these properties: any segments that rebuild the line
      from `pos`, are well coloured, have no match starting inside plain text and never put two
      plain segments side by side are the segments `finditer` yields. */
  lemma {:induction false} SegmentsUnique(line: string, pos: nat, segs: seq<Segment>)
    requires Laid(line, pos, segs)
    ensures SegmentationFrom(line, pos, segs)
    decreases |segs|
  {
    if segs == [] {
      assert pos == |line|;
      SegmentsAtEnd(line);
    } else {
      UniqueTail(line, pos, segs);
      SegmentsUnique(line, pos + |segs[0].text|, segs[1..]);
      HeadFirst(line, pos, segs);
      ChainStep(line, pos, segs);
    }
  }

  /** The segmentation of a whole line is determined by the properties `SegmentationCorrect`
      states of it. */
  lemma SegmentationUnique(line: string, segs: seq<Segment>)
    requires Flatten(segs) == line && AllWellColored(segs)
    requires LeftmostFrom(line, 0, segs) && PlainRunsMaximal(segs)
    ensures segs == Segments(line)
  {
    SegmentsUnique(line, 0, segs);
  }

  lemma Regroup(done: seq<Segment>, front: seq<Segment>, k: Segment, rest: seq<Segment>)
    ensures done + front + [k] + rest == done + (front + [k] + rest)
  {
  }

  /** The `finditer` loop of lines 218-240 (without the column clipping). */
  method HighlightLine(line: string) returns (segs: seq<Segment>)
    ensures segs == Segments(line)
  {
    segs := [];
    var pos := 0;
    var m := NextMatch(line, 0);
    while m.Some?
      invariant pos <= |line|
      invariant m == NextMatch(line, pos)
      invariant segs + SegmentsFrom(line, pos) == Segments(line)
      decreases |line| - pos
    {
      var start := m.value;
      var stop := MatchEnd(line, start);
      var front: seq<Segment> := [];
      if start > pos {
        front := [Plain(line[pos..start])];
      }
      MatchColor(line, start);
      var word := Lower(line[start..stop]);
      var kw := Keyword(line[start..stop], ColorOf(word));
      assert kw == Keyword(line[start..stop], PairOf(KeywordAt(line, start).value));
      SegmentsStep(line, pos, start);
      assert front == Before(line, pos, start);
      Regroup(segs, front, kw, SegmentsFrom(line, stop));
      segs := segs + front + [kw];
      pos := stop;
      m := NextMatch(line, pos);
    }
    if pos < |line| {
      segs := segs + [Plain(line[pos..])];
    }
  }
}
