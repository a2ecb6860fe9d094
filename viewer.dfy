/**
 * The scrollable text viewer of tui.py (`display_text`, lines 190-255): the text
 * is cut into lines, `display_height` of them are drawn from `current_line` on,
 * each with its keywords highlighted, and a key either scrolls or closes the
 * viewer.
 */
module Viewer {
  import opened Text
  import opened Keys
  import opened Highlight

  function Min(a: int, b: int): int { if a <= b then a else b }
  function Max(a: int, b: int): int { if a >= b then a else b }

  /** Lines 249 and 253: the last first line, `max(0, len(lines) - display_height)`. */
  function MaxTop(n: nat, h: int): (m: nat)
    ensures m >= n - h
    ensures m == 0 || m == n - h
  {
    if n - h > 0 then n - h else 0
  }

  /** The positions the viewer is meant to stay in. */
  predicate InRange(n: nat, h: int, cur: int) {
    0 <= cur <= MaxTop(n, h)
  }

  /** Lines 244-255: the first line shown after `key`, or `None` when the key closes the
      viewer. Up on the first line and Down on the last page are not scroll moves: they reach
      the final `else: break` like any other key. */
  function Scroll(n: nat, h: int, cur: int, key: Key): Option<int> {
    match key
    case Up => if cur > 0 then Some(cur - 1) else None
    case Down => if cur < n - h then Some(cur + 1) else None
    case PageDown => Some(Min(cur + h, MaxTop(n, h)))
    case PageUp => Some(Max(cur - h, 0))
    case End => Some(MaxTop(n, h))
    case _ => None
  }

  predicate IsScrollKey(key: Key) {
    key == Up || key == Down || key == PageUp || key == PageDown || key == End
  }

  /** With a page height of at least zero every scroll move keeps the position in range. */
  lemma ScrollKeepsRange(n: nat, h: int, cur: int, key: Key)
    requires h >= 0 && InRange(n, h, cur)
    ensures Scroll(n, h, cur, key).Some? ==> InRange(n, h, Scroll(n, h, cur, key).value)
  {
  }

  /** Exactly these keys close the viewer: keys that do not scroll, Up on the first line and
      Down once the last page is reached. */
  lemma ScrollCloses(n: nat, h: int, cur: int, key: Key)
    requires h >= 0 && InRange(n, h, cur)
    ensures Scroll(n, h, cur, key).None?
            <==> !IsScrollKey(key) || (key == Up && cur == 0) || (key == Down && cur == MaxTop(n, h))
  {
  }

  /** Up and Down move by exactly one line when they do not close the viewer; End goes to the
      last page, from which neither End nor Page Down moves further. */
  lemma ScrollSteps(n: nat, h: int, cur: int)
    requires h >= 0 && InRange(n, h, cur)
    ensures Scroll(n, h, cur, Up).Some? ==> Scroll(n, h, cur, Up).value == cur - 1
    ensures Scroll(n, h, cur, Down).Some? ==> Scroll(n, h, cur, Down).value == cur + 1
    ensures var e := Scroll(n, h, cur, End).value;
            e == MaxTop(n, h)
            && Scroll(n, h, e, End) == Some(e)
            && Scroll(n, h, e, PageDown) == Some(e)
            && Scroll(n, h, e, Down).None?
  {
  }

  /** Page Up undoes a Page Down that did not hit the last page, and Page Down undoes a Page Up
      that did not hit the first line. */
  lemma PagesUndo(n: nat, h: int, cur: int)
    requires h >= 0 && InRange(n, h, cur)
    ensures cur + h <= MaxTop(n, h) ==> Scroll(n, h, Scroll(n, h, cur, PageDown).value, PageUp) == Some(cur)
    ensures cur - h >= 0 ==> Scroll(n, h, Scroll(n, h, cur, PageUp).value, PageDown) == Some(cur)
  {
  }

  /** The position after a sequence of keys, and whether one of them closed the viewer (the
      keys after it are never read). */
  function Browse(n: nat, h: int, cur: int, keys: seq<Key>): (int, bool)
    decreases |keys|
  {
    if keys == [] then (cur, false)
    else match Scroll(n, h, cur, keys[0])
      case None => (cur, true)
      case Some(next) => Browse(n, h, next, keys[1..])
  }

  /** Browsing in two runs: the second run starts where the first stopped, unless the first
      closed the viewer. */
  lemma {:induction false} BrowseAppend(n: nat, h: int, cur: int, a: seq<Key>, b: seq<Key>)
    ensures var r := Browse(n, h, cur, a);
            Browse(n, h, cur, a + b) == if r.1 then r else Browse(n, h, r.0, b)
    decreases |a|
  {
    if a == [] {
      assert a + b == b;
    } else {
      assert (a + b)[0] == a[0] && (a + b)[1..] == a[1..] + b;
      match Scroll(n, h, cur, a[0])
      case None =>
      case Some(next) => BrowseAppend(n, h, next, a[1..], b);
    }
  }

  /** Whatever keys are pressed, the position stays in range. */
  lemma {:induction false} BrowseInRange(n: nat, h: int, cur: int, keys: seq<Key>)
    requires h >= 0 && InRange(n, h, cur)
    ensures InRange(n, h, Browse(n, h, cur, keys).0)
    decreases |keys|
  {
    if keys != [] {
      ScrollKeepsRange(n, h, cur, keys[0]);
      match Scroll(n, h, cur, keys[0])
      case None =>
      case Some(next) => BrowseInRange(n, h, next, keys[1..]);
    }
  }

  function PageDowns(k: nat): (keys: seq<Key>)
    ensures |keys| == k && forall i :: 0 <= i < k ==> keys[i] == PageDown
  {
    if k == 0 then [] else [PageDown] + PageDowns(k - 1)
  }

  /** Enough Page Downs reach the last page and never close the viewer. */
  lemma {:induction false} PageDownsReachEnd(n: nat, h: int, cur: int, k: nat)
    requires h >= 0 && InRange(n, h, cur) && cur + k * h >= MaxTop(n, h)
    ensures Browse(n, h, cur, PageDowns(k)) == (MaxTop(n, h), false)
    decreases k
  {
    if k == 0 {
    } else {
      var keys := PageDowns(k);
      assert keys[0] == PageDown && keys[1..] == PageDowns(k - 1);
      var next := Min(cur + h, MaxTop(n, h));
      assert next + (k - 1) * h >= MaxTop(n, h) by {
        assert k * h == h + (k - 1) * h;
      }
      PageDownsReachEnd(n, h, next, k - 1);
    }
  }

  /** Fifty lines on a ten-line page: five Page Downs show lines 40 to 49, and a further Down
      closes the viewer. */
  lemma FiftyLines()
    ensures Browse(50, 10, 0, PageDowns(5)) == (40, false)
    ensures Browse(50, 10, 0, PageDowns(5) + [Down]) == (40, true)
  {
    PageDownsReachEnd(50, 10, 0, 5);
    BrowseAppend(50, 10, 0, PageDowns(5), [Down]);
    assert [Down][1..] == [];
  }

  /** Lines 213-214: how many lines a page starting at `top` draws. */
  function Rows(n: nat, top: int, h: int): (r: nat)
    requires h > 0 ==> 0 <= top
    ensures r <= Max(h, 0) && (r > 0 ==> top + r <= n)
    ensures h > 0 && top < n ==> r == Min(h, n - top)
  {
    if h <= 0 || top >= n then 0 else Min(h, n - top)
  }

  /** Within range the viewer draws a full page, or every line when there are fewer. */
  lemma FullPage(n: nat, h: int, top: int)
    requires h > 0 && InRange(n, h, top)
    ensures Rows(n, top, h) == Min(h, n)
  {
  }

  /** Lines 213-240: the highlighted lines of one page. */
  function Frame(lines: seq<string>, top: int, h: int): (f: seq<seq<Segment>>)
    requires h > 0 ==> 0 <= top
    ensures |f| == Rows(|lines|, top, h)
  {
    seq(Rows(|lines|, top, h), i requires 0 <= i < Rows(|lines|, top, h) => Segments(lines[top + i]))
  }

  /** Each drawn row spells out the line it stands for, with every keyword in its colour. */
  lemma FrameShowsLines(lines: seq<string>, top: int, h: int)
    requires h > 0 ==> 0 <= top
    ensures var f := Frame(lines, top, h);
            forall i :: 0 <= i < |f| ==> Flatten(f[i]) == lines[top + i] && AllWellColored(f[i])
  {
    var f := Frame(lines, top, h);
    forall i | 0 <= i < |f|
      ensures Flatten(f[i]) == lines[top + i] && AllWellColored(f[i])
    {
      SegmentationCorrect(lines[top + i]);
    }
  }

  /** The `for i in range(display_height)` loop of lines 213-240. */
  method RenderFrame(lines: seq<string>, top: int, h: int) returns (f: seq<seq<Segment>>)
    requires h > 0 ==> 0 <= top
    ensures f == Frame(lines, top, h)
  {
    f := [];
    var i := 0;
    while i < h
      invariant 0 <= i <= Max(h, 0)
      invariant f == Frame(lines, top, i)
    {
      if top + i < |lines| {
        var segs := HighlightLine(lines[top + i]);
        assert Frame(lines, top, i + 1) == Frame(lines, top, i) + [segs];
        f := f + [segs];
      } else {
        assert Frame(lines, top, i + 1) == Frame(lines, top, i);
      }
      i := i + 1;
    }
    if h <= 0 {
      assert Frame(lines, top, h) == [];
    }
  }

  /** Lines 205-255: the viewer reads `keys` until one closes it. It returns the first line
      shown, whether the viewer closed, and the page on screen at that point. */
  method DisplayText(text: string, maxRows: int, keys: seq<Key>)
    returns (top: int, closed: bool, shown: seq<seq<Segment>>)
    ensures (top, closed) == Browse(|SplitLines(text)|, maxRows - 2, 0, keys)
    ensures maxRows - 2 >= 0 ==> InRange(|SplitLines(text)|, maxRows - 2, top)
    ensures shown == Frame(SplitLines(text), top, maxRows - 2)
  {
    var lines := SplitLines(text);
    var h := maxRows - 2;
    top := 0;
    closed := false;
    shown := RenderFrame(lines, top, h);
    var i := 0;
    while i < |keys| && !closed
      invariant 0 <= i <= |keys|
      invariant h >= 0 ==> InRange(|lines|, h, top)
      invariant h > 0 ==> 0 <= top
      invariant shown == Frame(lines, top, h)
      invariant closed ==> Browse(|lines|, h, 0, keys) == (top, true)
      invariant !closed ==> Browse(|lines|, h, 0, keys) == Browse(|lines|, h, top, keys[i..])
    {
      assert keys[i..][0] == keys[i] && keys[i..][1..] == keys[i + 1..];
      if h >= 0 {
        ScrollKeepsRange(|lines|, h, top, keys[i]);
      }
      var next := Scroll(|lines|, h, top, keys[i]);
      if next.None? {
        closed := true;
      } else {
        top := next.value;
        shown := RenderFrame(lines, top, h);
      }
      i := i + 1;
    }
  }
}
