/**
 * The list selector of tui.py (`select_option`): a copied option list with
 * optional "Go Back" / "Exit" sentinels, an incremental case-insensitive
 * search, a cursor and a scroll window computed once from the terminal height.
 *
 * The pure part (sentinel insertion, the filter comprehension, the reaction to
 * one key, the scroll rule) is given as functions with lemmas; the loop itself
 * is the class `Selector`, whose fields are the loop variables of the source,
 * driven by `SelectOption` over a finite sequence of key events.
 */
module Selector {
  import opened Text
  import opened Keys

  /** A menu entry: a caller's value, or one of the two sentinels. An option of the
      caller's list that equals a sentinel string is represented by the sentinel itself. */
  datatype Entry<T> = Item(value: T) | GoBack | Exit

  /** The selector's loop variables besides the fixed option list. */
  datatype ListState<T> = ListState(filtered: seq<Entry<T>>, query: string, row: nat, scroll: nat)

  /** What one key does: keep looping with a new state, return an entry, or fail
      indexing `filtered_options[current_row]` (IndexError in the source). */
  datatype Reaction<T> = Continue(next: ListState<T>) | Chosen(entry: Entry<T>) | IndexError

  /** How a run over a finite sequence of keys ends. */
  datatype Outcome<T> = Selected(entry: Entry<T>) | Crashed | Waiting

  // ---------------------------------------------------------------------------
  // Sentinels

  /** The option list after the copy: "Go Back" in front unless already present,
      then "Exit" at the back unless already present. */
  function WithSentinels<T(==)>(options: seq<Entry<T>>, includeBack: bool, includeExit: bool): seq<Entry<T>>
  {
    var withBack := if includeBack && GoBack !in options then [GoBack] + options else options;
    if includeExit && Exit !in withBack then withBack + [Exit] else withBack
  }

  /** Where the sentinels go: the caller's options appear unchanged as one block, preceded by
      "Go Back" exactly when it was requested and missing, followed by "Exit" likewise. */
  lemma SentinelPlacement<T>(options: seq<Entry<T>>, includeBack: bool, includeExit: bool)
    ensures var r := WithSentinels(options, includeBack, includeExit);
            var front := if includeBack && GoBack !in options then 1 else 0;
            var back := if includeExit && Exit !in options then 1 else 0;
            && |r| == front + |options| + back
            && r[front..front + |options|] == options
            && (front == 1 ==> r[0] == GoBack)
            && (back == 1 ==> r[|r| - 1] == Exit)
            && (GoBack in r <==> includeBack || GoBack in options)
            && (Exit in r <==> includeExit || Exit in options)
  {
  }

  /** A sentinel is never added twice: applying the insertion to its own result changes nothing,
      and the number of "Go Back" entries grows only from zero to one. */
  lemma SentinelsIdempotent<T>(options: seq<Entry<T>>, includeBack: bool, includeExit: bool)
    ensures var r := WithSentinels(options, includeBack, includeExit);
            && WithSentinels(r, includeBack, includeExit) == r
            && multiset(r)[GoBack] == (if includeBack && GoBack !in options then 1 else multiset(options)[GoBack])
            && multiset(r)[Exit] == (if includeExit && Exit !in options then 1 else multiset(options)[Exit])
  {
  }

  // ---------------------------------------------------------------------------
  // The search filter (line 93 and line 98)

  /** `search_query.lower() in get_label(opt).lower()`. */
  predicate Matches<T>(labelOf: Entry<T> -> string, query: string, e: Entry<T>) {
    Contains(Lower(query), Lower(labelOf(e)))
  }

  /** `[opt for opt in original_options if ...]`. */
  function Filter<T>(entries: seq<Entry<T>>, labelOf: Entry<T> -> string, query: string): (r: seq<Entry<T>>)
    ensures |r| <= |entries|
    decreases |entries|
  {
    if entries == [] then []
    else (if Matches(labelOf, query, entries[0]) then [entries[0]] else []) + Filter(entries[1..], labelOf, query)
  }

  /** An entry survives the filter exactly when it is in the list and its label contains the query. */
  lemma {:induction false} FilterMembers<T>(entries: seq<Entry<T>>, labelOf: Entry<T> -> string, query: string, e: Entry<T>)
    ensures e in Filter(entries, labelOf, query) <==> e in entries && Matches(labelOf, query, e)
    decreases |entries|
  {
    if entries != [] {
      FilterMembers(entries[1..], labelOf, query, e);
      assert entries == [entries[0]] + entries[1..];
    }
  }

  /** Duplicates are kept: each matching entry occurs as often as in the list, a non-matching one never. */
  lemma {:induction false} FilterCount<T>(entries: seq<Entry<T>>, labelOf: Entry<T> -> string, query: string, e: Entry<T>)
    ensures multiset(Filter(entries, labelOf, query))[e] == if Matches(labelOf, query, e) then multiset(entries)[e] else 0
    decreases |entries|
  {
    if entries != [] {
      FilterCount(entries[1..], labelOf, query, e);
      assert entries == [entries[0]] + entries[1..];
    }
  }

  /** `idx` maps each position of `a` to a position of `b` holding the same element, increasingly. */
  ghost predicate OrderEmbedding<X>(a: seq<X>, b: seq<X>, idx: seq<int>) {
    && |idx| == |a|
    && (forall i :: 0 <= i < |idx| ==> 0 <= idx[i] < |b| && a[i] == b[idx[i]])
    && (forall i, j :: 0 <= i < j < |idx| ==> idx[i] < idx[j])
  }

  /** An order embedding of `a` into `tail` extends to one of `x` or `[x] + a` into `[x] + tail`. */
  lemma ShiftEmbedding<X>(a: seq<X>, x: X, tail: seq<X>, idx: seq<int>, keep: bool)
    requires OrderEmbedding(a, tail, idx)
    ensures var shifted := seq(|idx|, i requires 0 <= i < |idx| => idx[i] + 1);
            if keep then OrderEmbedding([x] + a, [x] + tail, [0] + shifted)
            else OrderEmbedding(a, [x] + tail, shifted)
  {
    var shifted := seq(|idx|, i requires 0 <= i < |idx| => idx[i] + 1);
    var b := [x] + tail;
    assert forall i :: 0 <= i < |shifted| ==> b[shifted[i]] == tail[idx[i]];
    if keep {
      var a' := [x] + a;
      var idx' := [0] + shifted;
      forall i | 0 <= i < |idx'| ensures 0 <= idx'[i] < |b| && a'[i] == b[idx'[i]] {
        if i > 0 { assert idx'[i] == shifted[i - 1] && a'[i] == a[i - 1]; }
      }
      forall i, j | 0 <= i < j < |idx'| ensures idx'[i] < idx'[j] {
        if i > 0 { assert idx'[i] == shifted[i - 1] && idx'[j] == shifted[j - 1]; }
      }
    }
  }

  /** The filter keeps the original order. */
  lemma {:induction false} FilterKeepsOrder<T>(entries: seq<Entry<T>>, labelOf: Entry<T> -> string, query: string)
    ensures exists idx :: OrderEmbedding(Filter(entries, labelOf, query), entries, idx)
    decreases |entries|
  {
    if entries == [] {
      assert OrderEmbedding(Filter(entries, labelOf, query), entries, []);
    } else {
      FilterKeepsOrder(entries[1..], labelOf, query);
      var rest := Filter(entries[1..], labelOf, query);
      var idx :| OrderEmbedding(rest, entries[1..], idx);
      var keep := Matches(labelOf, query, entries[0]);
      ShiftEmbedding(rest, entries[0], entries[1..], idx, keep);
      assert entries == [entries[0]] + entries[1..];
      var shifted := seq(|idx|, i requires 0 <= i < |idx| => idx[i] + 1);
      if keep {
        assert OrderEmbedding(Filter(entries, labelOf, query), entries, [0] + shifted);
      } else {
        assert OrderEmbedding(Filter(entries, labelOf, query), entries, shifted);
      }
    }
  }

  /** An empty query keeps the whole list. */
  lemma {:induction false} FilterAll<T>(entries: seq<Entry<T>>, labelOf: Entry<T> -> string)
    ensures Filter(entries, labelOf, "") == entries
    decreases |entries|
  {
    if entries != [] {
      EmptyContained(Lower(labelOf(entries[0])));
      FilterAll(entries[1..], labelOf);
    }
  }

  lemma {:induction false} FilterAppend<T>(a: seq<Entry<T>>, b: seq<Entry<T>>, labelOf: Entry<T> -> string, query: string)
    ensures Filter(a + b, labelOf, query) == Filter(a, labelOf, query) + Filter(b, labelOf, query)
    decreases |a|
  {
    if a == [] {
      assert a + b == b;
    } else {
      var ab := a + b;
      assert ab[0] == a[0] && ab[1..] == a[1..] + b;
      FilterAppend(a[1..], b, labelOf, query);
      var head := if Matches(labelOf, query, a[0]) then [a[0]] else [];
      assert Filter(ab, labelOf, query) == head + Filter(ab[1..], labelOf, query);
      assert Filter(a, labelOf, query) == head + Filter(a[1..], labelOf, query);
    }
  }

  /** Typing one more character only narrows the list: filtering the previous result again
      gives the same list as filtering the originals. */
  lemma {:induction false} FilterNarrows<T>(entries: seq<Entry<T>>, labelOf: Entry<T> -> string, query: string, c: char)
    ensures Filter(entries, labelOf, query + [c]) == Filter(Filter(entries, labelOf, query), labelOf, query + [c])
    decreases |entries|
  {
    if entries != [] {
      FilterNarrows(entries[1..], labelOf, query, c);
      var e := entries[0];
      var rest := Filter(entries[1..], labelOf, query);
      var head := if Matches(labelOf, query, e) then [e] else [];
      assert Filter(entries, labelOf, query) == head + rest;
      FilterAppend(head, rest, labelOf, query + [c]);
      assert [e][1..] == [];
      if Matches(labelOf, query + [c], e) {
        LowerAppend(query, [c]);
        assert Lower(query + [c])[..|query|] == Lower(query);
        ContainsPrefix(Lower(query + [c]), |query|, Lower(labelOf(e)));
      }
    }
  }

  // ---------------------------------------------------------------------------
  // The scroll window (lines 63-64 and 71-75)

  function Distance(a: int, b: int): nat {
    if a <= b then b - a else a - b
  }

  /** Lines 71-74: move the window start just enough to bring the cursor into view. */
  function AdjustScroll(row: nat, scroll: nat, visible: int): (s: nat)
    ensures visible >= 1 ==> s <= row < s + visible
    ensures scroll <= row < scroll + visible ==> s == scroll
  {
    if row >= scroll + visible then row - visible + 1
    else if row < scroll then row
    else scroll
  }

  /** The window moves as little as any window showing the cursor would. */
  lemma WindowMovesLeast(row: nat, scroll: nat, visible: int, t: int)
    requires visible >= 1 && t <= row < t + visible
    ensures Distance(AdjustScroll(row, scroll, visible), scroll) <= Distance(t, scroll)
  {
  }

  /** Python's slice `s[start:start + count]`, which clamps instead of failing. */
  function Window<X>(s: seq<X>, start: nat, count: int): (r: seq<X>)
    ensures count >= 0 ==> |r| <= count
    ensures forall i :: 0 <= i < |r| ==> start + i < |s| && r[i] == s[start + i]
    ensures start < |s| && count > 0 ==> |r| == (if count < |s| - start then count else |s| - start)
  {
    if start >= |s| || count <= 0 then []
    else s[start..if start + count < |s| then start + count else |s|]
  }

  /** Line 77: sentinels are shown by their own text, other entries through the labelOf function. */
  function Caption<T>(labelOf: Entry<T> -> string, e: Entry<T>): string {
    match e
    case GoBack => "Go Back"
    case Exit => "Exit"
    case Item(_) => labelOf(e)
  }

  /** Lines 75-82: the menu lines of one frame; the line of the cursor's entry starts with "> ",
      every other one with two spaces. */
  function MenuLines<T>(labelOf: Entry<T> -> string, st: ListState<T>, visible: int): (lines: seq<string>)
    ensures |lines| == |Window(st.filtered, st.scroll, visible)|
    ensures forall i :: 0 <= i < |lines| ==>
              lines[i] == (if st.scroll + i == st.row then "> " else "  ") + Caption(labelOf, st.filtered[st.scroll + i])
  {
    var shown := Window(st.filtered, st.scroll, visible);
    seq(|shown|, i requires 0 <= i < |shown| =>
      (if st.scroll + i == st.row then "> " else "  ") + Caption(labelOf, shown[i]))
  }

  /** Once the window has been adjusted, the cursor's entry is on screen and it is the one marked. */
  lemma CursorIsShown<T>(labelOf: Entry<T> -> string, st: ListState<T>, visible: int)
    requires visible >= 1 && st.row < |st.filtered|
    ensures var shown := st.(scroll := AdjustScroll(st.row, st.scroll, visible));
            var lines := MenuLines(labelOf, shown, visible);
            var i := st.row - shown.scroll;
            && 0 <= i < |lines|
            && lines[i] == "> " + Caption(labelOf, st.filtered[st.row])
            && forall j :: 0 <= j < |lines| && j != i ==> lines[j][..2] == "  "
  {
  }

  // ---------------------------------------------------------------------------
  // One key (lines 84-100)

  /** What the selector state always satisfies: the filtered list is the filter of the full list
      by the current query, and the cursor lies in `0 .. max(0, len(filtered) - 1)`. */
  ghost predicate Inv<T>(original: seq<Entry<T>>, labelOf: Entry<T> -> string, st: ListState<T>) {
    st.filtered == Filter(original, labelOf, st.query) && (st.row == 0 || st.row < |st.filtered|)
  }

  /** Lines 85-100. Up and Down move the cursor when not at a boundary; Enter returns the entry at
      the cursor; with search enabled a printable key or Backspace edits the query, refilters and
      resets cursor and window; anything else leaves the state alone. */
  function React<T>(original: seq<Entry<T>>, labelOf: Entry<T> -> string, searchEnabled: bool,
                    st: ListState<T>, key: Key): Reaction<T>
  {
    match key
    case Up => Continue(if st.row > 0 then st.(row := st.row - 1) else st)
    case Down => Continue(if st.row < |st.filtered| - 1 then st.(row := st.row + 1) else st)
    case Enter => if st.row < |st.filtered| then Chosen(st.filtered[st.row]) else IndexError
    case Printable(c) =>
      if searchEnabled then
        var q := st.query + [c];
        Continue(ListState(Filter(original, labelOf, q), q, 0, 0))
      else Continue(st)
    case Backspace =>
      if searchEnabled then
        var q := DropLast(st.query);
        Continue(ListState(Filter(original, labelOf, q), q, 0, 0))
      else Continue(st)
    case _ => Continue(st)
  }

  /** Every key that keeps the loop going preserves the invariant. */
  lemma ReactKeepsInv<T>(original: seq<Entry<T>>, labelOf: Entry<T> -> string, searchEnabled: bool,
                         st: ListState<T>, key: Key)
    requires Inv(original, labelOf, st)
    ensures React(original, labelOf, searchEnabled, st, key).Continue? ==>
              Inv(original, labelOf, React(original, labelOf, searchEnabled, st, key).next)
  {
  }

  /** Up and Down: the cursor moves by one and stops at the ends of the filtered list;
      list, query and window are untouched. */
  lemma CursorMoves<T>(original: seq<Entry<T>>, labelOf: Entry<T> -> string, searchEnabled: bool,
                       st: ListState<T>, key: Key)
    requires Inv(original, labelOf, st)
    requires key == Up || key == Down
    ensures var r := React(original, labelOf, searchEnabled, st, key);
            && r.Continue?
            && r.next.filtered == st.filtered && r.next.query == st.query && r.next.scroll == st.scroll
            && (key == Up ==> r.next.row == (if st.row == 0 then 0 else st.row - 1))
            && (key == Down ==> r.next.row == (if st.row + 1 < |st.filtered| then st.row + 1 else st.row))
            && (r.next.row == 0 || r.next.row < |st.filtered|)
  {
  }

  /** Enter returns the highlighted entry, which is one of the full list whose labelOf matches the
      query; with an empty filtered list the source's indexing fails. */
  lemma EnterChooses<T>(original: seq<Entry<T>>, labelOf: Entry<T> -> string, searchEnabled: bool,
                        st: ListState<T>)
    requires Inv(original, labelOf, st)
    ensures st.filtered == [] <==> React(original, labelOf, searchEnabled, st, Enter) == IndexError
    ensures st.filtered != [] ==>
              && React(original, labelOf, searchEnabled, st, Enter) == Chosen(st.filtered[st.row])
              && st.filtered[st.row] in original
              && Matches(labelOf, st.query, st.filtered[st.row])
  {
    if st.filtered != [] {
      FilterMembers(original, labelOf, st.query, st.filtered[st.row]);
    }
  }

  /** Editing the query: a printable character is appended, Backspace drops the last one (an empty
      query stays empty); the list becomes exactly the matching entries of the full list, in
      their order, and cursor and window go back to the top. Without search the query never changes. */
  lemma QueryEdits<T>(original: seq<Entry<T>>, labelOf: Entry<T> -> string, searchEnabled: bool,
                      st: ListState<T>, key: Key)
    requires key.Printable? || key == Backspace
    ensures var r := React(original, labelOf, searchEnabled, st, key);
            && r.Continue?
            && (!searchEnabled ==> r.next == st)
            && (searchEnabled ==>
                  && r.next.query == (if key.Printable? then st.query + [key.ch] else DropLast(st.query))
                  && r.next.row == 0 && r.next.scroll == 0
                  && (forall e :: e in r.next.filtered <==> e in original && Matches(labelOf, r.next.query, e))
                  && (exists idx :: OrderEmbedding(r.next.filtered, original, idx)))
  {
    var r := React(original, labelOf, searchEnabled, st, key);
    if searchEnabled {
      forall e ensures e in r.next.filtered <==> e in original && Matches(labelOf, r.next.query, e) {
        FilterMembers(original, labelOf, r.next.query, e);
      }
      FilterKeepsOrder(original, labelOf, r.next.query);
    }
  }

  // ---------------------------------------------------------------------------
  // The whole loop over a sequence of keys

  /** The initial state: the whole list, empty query, cursor and window at the top. */
  function Initial<T>(original: seq<Entry<T>>): ListState<T> {
    ListState(original, "", 0, 0)
  }

  /** Each round adjusts the window (line 71-74), renders, then reacts to the next key. */
  function Run<T>(original: seq<Entry<T>>, labelOf: Entry<T> -> string, searchEnabled: bool, visible: int,
                  st: ListState<T>, keys: seq<Key>): Outcome<T>
    decreases |keys|
  {
    if keys == [] then Waiting
    else
      var shown := st.(scroll := AdjustScroll(st.row, st.scroll, visible));
      match React(original, labelOf, searchEnabled, shown, keys[0])
      case Continue(next) => Run(original, labelOf, searchEnabled, visible, next, keys[1..])
      case Chosen(e) => Selected(e)
      case IndexError => Crashed
  }

  /** Whatever the keys, a selection is an entry of the full list (sentinels included). */
  lemma {:induction false} RunSelectsListed<T>(original: seq<Entry<T>>, labelOf: Entry<T> -> string, searchEnabled: bool,
                                              visible: int, st: ListState<T>, keys: seq<Key>)
    requires Inv(original, labelOf, st)
    ensures Run(original, labelOf, searchEnabled, visible, st, keys).Selected? ==>
              Run(original, labelOf, searchEnabled, visible, st, keys).entry in original
    decreases |keys|
  {
    if keys != [] {
      var shown := st.(scroll := AdjustScroll(st.row, st.scroll, visible));
      ReactKeepsInv(original, labelOf, searchEnabled, shown, keys[0]);
      match React(original, labelOf, searchEnabled, shown, keys[0])
      case Continue(next) =>
        RunSelectsListed(original, labelOf, searchEnabled, visible, next, keys[1..]);
      case Chosen(e) =>
        EnterChooses(original, labelOf, searchEnabled, shown);
      case IndexError =>
    }
  }

  /** Without search the list never shrinks, so a non-empty menu never fails on Enter. */
  lemma {:induction false} NoSearchNeverCrashes<T>(original: seq<Entry<T>>, labelOf: Entry<T> -> string,
                                                  visible: int, st: ListState<T>, keys: seq<Key>)
    requires original != [] && st.filtered == original && st.row < |original|
    ensures Run(original, labelOf, false, visible, st, keys) != Crashed
    decreases |keys|
  {
    if keys != [] {
      var shown := st.(scroll := AdjustScroll(st.row, st.scroll, visible));
      match React(original, labelOf, false, shown, keys[0])
      case Continue(next) =>
        NoSearchNeverCrashes(original, labelOf, visible, next, keys[1..]);
      case Chosen(_) =>
      case IndexError =>
    }
  }

  /** With search, a query that matches nothing makes Enter fail. */
  lemma EnterOnNoMatchCrashes(visible: int)
    ensures var original := [Item("dev")];
            Run(original, (e: Entry<string>) => if e.Item? then e.value else "", true, visible,
                Initial(original), [Printable('x'), Enter]) == Crashed
  {
    var labelOf := (e: Entry<string>) => if e.Item? then e.value else "";
    assert Lower("x") == "x";
    assert Lower("dev") == "dev";
    ContainsChar('x', "dev");
    assert !Matches(labelOf, "x", Item("dev"));
    assert Filter([Item("dev")], labelOf, "x") == [];
  }

  // ---------------------------------------------------------------------------
  // The selector object

  class Selector<T(==)> {
    const original: seq<Entry<T>>
    const labelOf: Entry<T> -> string
    const searchEnabled: bool
    const maxVisible: int
    var filtered: seq<Entry<T>>
    var query: string
    var row: nat
    var scroll: nat

    function State(): ListState<T>
      reads this
    {
      ListState(filtered, query, row, scroll)
    }

    ghost predicate Valid()
      reads this
    {
      Inv(original, labelOf, State())
    }

    /** Lines 54-64: copy the options, add the sentinels, start unfiltered at the top. */
    constructor (options: seq<Entry<T>>, labelOf: Entry<T> -> string, includeBack: bool, includeExit: bool,
                 searchEnabled: bool, maxRows: int)
      ensures original == WithSentinels(options, includeBack, includeExit)
      ensures this.labelOf == labelOf && this.searchEnabled == searchEnabled && maxVisible == maxRows - 4
      ensures State() == Initial(original)
      ensures Valid()
    {
      var copy := options;
      if includeBack && GoBack !in copy {
        copy := [GoBack] + copy;
      }
      if includeExit && Exit !in copy {
        copy := copy + [Exit];
      }
      original := copy;
      this.labelOf := labelOf;
      this.searchEnabled := searchEnabled;
      maxVisible := maxRows - 4;
      filtered := copy;
      query := "";
      row := 0;
      scroll := 0;
      new;
      FilterAll(original, labelOf);
    }

    /** Lines 71-74. */
    method FollowCursor()
      requires Valid()
      modifies this`scroll
      ensures Valid()
      ensures State() == old(State()).(scroll := AdjustScroll(row, old(scroll), maxVisible))
    {
      if row >= scroll + maxVisible {
        scroll := row - maxVisible + 1;
      } else if row < scroll {
        scroll := row;
      }
    }

    /** Line 75: the entries on screen. */
    function Shown(): seq<Entry<T>>
      reads this
    {
      Window(filtered, scroll, maxVisible)
    }

    /** Lines 85-100: react to one key. */
    method HandleKey(key: Key) returns (r: Reaction<T>)
      requires Valid()
      modifies this
      ensures r == React(original, labelOf, searchEnabled, old(State()), key)
      ensures r.Continue? ==> State() == r.next
      ensures !r.Continue? ==> State() == old(State())
      ensures Valid()
    {
      ReactKeepsInv(original, labelOf, searchEnabled, State(), key);
      if key == Up && row > 0 {
        row := row - 1;
      } else if key == Down && row < |filtered| - 1 {
        row := row + 1;
      } else if key == Enter {
        if row < |filtered| {
          return Chosen(filtered[row]);
        }
        return IndexError;
      } else if searchEnabled && key.Printable? {
        query := query + [key.ch];
        filtered := Filter(original, labelOf, query);
        row := 0;
        scroll := 0;
      } else if searchEnabled && key == Backspace {
        query := DropLast(query);
        filtered := Filter(original, labelOf, query);
        row := 0;
        scroll := 0;
      }
      r := Continue(State());
    }
  }

  /** `select_option`: run the selector over the given keys until an entry is returned, the
      indexing fails, or the keys run out. */
  method SelectOption<T(==)>(options: seq<Entry<T>>, labelOf: Entry<T> -> string, includeBack: bool, includeExit: bool,
                             searchEnabled: bool, maxRows: int, keys: seq<Key>) returns (r: Outcome<T>)
    ensures var original := WithSentinels(options, includeBack, includeExit);
            r == Run(original, labelOf, searchEnabled, maxRows - 4, Initial(original), keys)
  {
    var sel := new Selector(options, labelOf, includeBack, includeExit, searchEnabled, maxRows);
    ghost var original := sel.original;
    var i := 0;
    while i < |keys|
      invariant 0 <= i <= |keys|
      invariant sel.Valid() && sel.original == original && sel.labelOf == labelOf
      invariant sel.searchEnabled == searchEnabled && sel.maxVisible == maxRows - 4
      invariant Run(original, labelOf, searchEnabled, maxRows - 4, Initial(original), keys)
                == Run(original, labelOf, searchEnabled, maxRows - 4, sel.State(), keys[i..])
    {
      ghost var before := sel.State();
      sel.FollowCursor();
      var reaction := sel.HandleKey(keys[i]);
      assert keys[i..][1..] == keys[i + 1..];
      match reaction
      case Chosen(e) =>
        return Selected(e);
      case IndexError =>
        return Crashed;
      case Continue(_) =>
        i := i + 1;
    }
    r := Waiting;
  }
}
