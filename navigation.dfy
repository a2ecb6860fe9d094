/**
 * The menus of tui.py's `main` (lines 296-484) as a state machine. Each nested
 * `while True` loop is one menu; a selection either descends into the next
 * loop, stays in the same loop (after an action or a message), or leaves the
 * loop by `break` or the whole program by `return`. What the program learns
 * from the outside world on the way (whether namespaces were found, whether the
 * environment has a jumphost, whether kubectl listed pods) is given with each
 * selection. A failing selection (the `IndexError` of an Enter on an empty
 * filtered list) is caught by nobody and ends the program.
 */
module Navigation {
  import Keys
  import Selector

  /** The loop the program is in. The menus below the environment type remember whether the
      chosen environment type has a jumphost (line 330). */
  datatype Menu =
    | EnvironmentMenu
    | EnvTypeMenu
    | NamespaceMenu(jumphost: bool)
    | ActionMenu(jumphost: bool)
    | KubernetesMenu(jumphost: bool)
    | PodMenu(jumphost: bool)
    | Ended
    | Crashed

  /** What `select_option` returned: the "Go Back" or "Exit" entry, or an option; or `Failed`
      when it raised `IndexError`. */
  datatype Choice = GoBack | Exit | Pick(option: string) | Failed

  /** The outcome of the work done after a selection: whether the chosen environment type has a
      jumphost (line 384), whether namespaces were found in its repository (line 339), and whether
      `kubectl get pods` listed any pod (line 403). */
  datatype World = World(hasJumphost: bool, namespacesFound: bool, podsFound: bool)

  /** Lines 303-311: with no environments the program ends before any menu. */
  function Start(environments: nat): (m: Menu)
    ensures m == Ended <==> environments == 0
  {
    if environments == 0 then Ended else EnvironmentMenu
  }

  /** The program has left `main`, by returning or by an exception. */
  predicate Stopped(m: Menu) {
    m == Ended || m == Crashed
  }

  /** Lines 348-355 and 410-417: the namespace and pod menus call `select_option` with search on. */
  predicate Searches(m: Menu) {
    m.NamespaceMenu? || m.PodMenu?
  }

  /** Line 314 asks for "Exit" in the environment menu; every other menu asks for "Go Back". */
  predicate IncludesBack(m: Menu) {
    m != EnvironmentMenu
  }

  predicate IncludesExit(m: Menu) {
    m == EnvironmentMenu
  }

  /** One selection. */
  function Next(m: Menu, c: Choice, w: World): Menu {
    if Stopped(m) then m
    // line 487: no loop catches the IndexError, so it leaves `main` through `curses.wrapper`
    else if c == Failed then Crashed
    else match m
    // lines 313-315: "Exit" returns from main; an environment opens its types
    case EnvironmentMenu => if c == Exit then Ended else EnvTypeMenu
    // lines 327-328 and 338-344: "Go Back" breaks to the environments, and so do no namespaces
    case EnvTypeMenu =>
      if c == GoBack then EnvironmentMenu
      else if !w.namespacesFound then EnvironmentMenu
      else NamespaceMenu(w.hasJumphost)
    // lines 355-356 and 484: "Go Back" breaks out of the namespace loop onto the `return`
    case NamespaceMenu(j) => if c == GoBack then Ended else ActionMenu(j)
    // lines 368-369 and 371-481: MariaDB and Cassandra show something and stay
    case ActionMenu(j) =>
      if c == GoBack then NamespaceMenu(j)
      else if c == Pick("Kubernetes") then KubernetesMenu(j)
      else ActionMenu(j)
    // lines 381-389 and 391-409: without a jumphost nothing runs; Show Logs with pods opens them
    case KubernetesMenu(j) =>
      if c == GoBack then ActionMenu(j)
      else if !j then KubernetesMenu(j)
      else if c == Pick("Show Logs") && w.podsFound then PodMenu(j)
      else KubernetesMenu(j)
    // lines 418-426: "Go Back" continues the Kubernetes loop, and so does showing the logs
    case PodMenu(j) => KubernetesMenu(j)
    case Ended => Ended
    case Crashed => Crashed
  }

  /** The loop `Back` leaves for, for the menus that offer "Go Back". */
  function Parent(m: Menu): Menu
    requires m != EnvironmentMenu && !Stopped(m)
  {
    match m
    case EnvTypeMenu => EnvironmentMenu
    case NamespaceMenu(_) => Ended
    case ActionMenu(j) => NamespaceMenu(j)
    case KubernetesMenu(j) => ActionMenu(j)
    case PodMenu(j) => KubernetesMenu(j)
  }

  /** "Go Back" returns to the enclosing menu. From the namespace menu this ends the program,
      because the environment type loop returns right after the namespace loop. */
  lemma BackGoesUp(m: Menu, w: World)
    requires m != EnvironmentMenu && !Stopped(m)
    ensures Next(m, GoBack, w) == Parent(m)
  {
  }

  /** The program returns exactly on "Exit" in the environment menu or "Go Back" in the namespace
      menu, it crashes exactly on a failing selection, and it stays where it stopped. */
  lemma EndsIff(m: Menu, c: Choice, w: World)
    ensures Next(m, c, w) == Ended
            <==> m == Ended || (m == EnvironmentMenu && c == Exit) || (m.NamespaceMenu? && c == GoBack)
    ensures Next(m, c, w) == Crashed <==> m == Crashed || (m != Ended && c == Failed)
  {
  }

  /** Only the two menus with search can fail: in every other menu `select_option` is called with
      search off and with a sentinel requested, so its list is never empty and no sequence of keys
      makes it raise `IndexError`. */
  lemma NonSearchMenusNeverFail<T>(m: Menu, options: seq<Selector.Entry<T>>, labelOf: Selector.Entry<T> -> string,
                                   visible: int, keys: seq<Keys.Key>)
    requires !Stopped(m) && !Searches(m)
    ensures var list := Selector.WithSentinels(options, IncludesBack(m), IncludesExit(m));
            Selector.Run(list, labelOf, Searches(m), visible, Selector.Initial(list), keys) != Selector.Crashed
  {
    var list := Selector.WithSentinels(options, IncludesBack(m), IncludesExit(m));
    Selector.SentinelPlacement(options, IncludesBack(m), IncludesExit(m));
    assert list != [];
    Selector.NoSearchNeverCrashes(list, labelOf, visible, Selector.Initial(list), keys);
  }

  /** Without a jumphost every Kubernetes action leaves the program in the Kubernetes menu. */
  lemma NoJumphostStays(c: Choice, w: World)
    requires c != GoBack && c != Failed
    ensures Next(KubernetesMenu(false), c, w) == KubernetesMenu(false)
  {
  }

  /** The pod menu is entered only by Show Logs in the Kubernetes menu of an environment type with
      a jumphost, and only when pods were listed. */
  lemma PodMenuIff(m: Menu, c: Choice, w: World)
    ensures Next(m, c, w).PodMenu?
            <==> m == KubernetesMenu(true) && c == Pick("Show Logs") && w.podsFound
  {
  }

  /** The selections made one after another from `m`. */
  function Run(m: Menu, events: seq<(Choice, World)>): Menu
    decreases |events|
  {
    if events == [] then m else Run(Next(m, events[0].0, events[0].1), events[1..])
  }

  lemma {:induction false} RunAppend(m: Menu, a: seq<(Choice, World)>, b: seq<(Choice, World)>)
    ensures Run(m, a + b) == Run(Run(m, a), b)
    decreases |a|
  {
    if a == [] {
      assert a + b == b;
    } else {
      assert (a + b)[0] == a[0] && (a + b)[1..] == a[1..] + b;
      RunAppend(Next(m, a[0].0, a[0].1), a[1..], b);
    }
  }

  /** Once stopped, nothing more happens. */
  lemma {:induction false} StoppedStays(m: Menu, events: seq<(Choice, World)>)
    requires Stopped(m)
    ensures Run(m, events) == m
    decreases |events|
  {
    if events != [] {
      StoppedStays(m, events[1..]);
    }
  }

  /** The menu a run is in always agrees with what it has learnt: the pod menu only appears with
      a jumphost. */
  ghost predicate Sound(m: Menu) {
    m.PodMenu? ==> m.jumphost
  }

  lemma {:induction false} RunSound(m: Menu, events: seq<(Choice, World)>)
    requires Sound(m)
    ensures Sound(Run(m, events))
    decreases |events|
  {
    if events != [] {
      PodMenuIff(m, events[0].0, events[0].1);
      RunSound(Next(m, events[0].0, events[0].1), events[1..]);
    }
  }

  /** Lines 303-487: the program reads selections until it stops or they run out. It returns the
      menu it is in and how many selections it read; selections after it stopped change nothing. */
  method Session(environments: nat, events: seq<(Choice, World)>) returns (m: Menu, read: nat)
    ensures read <= |events|
    ensures m == Run(Start(environments), events[..read])
    ensures Stopped(m) || read == |events|
    ensures m == Run(Start(environments), events)
  {
    m := Start(environments);
    read := 0;
    while read < |events| && !Stopped(m)
      invariant read <= |events|
      invariant m == Run(Start(environments), events[..read])
    {
      RunAppend(Start(environments), events[..read], [events[read]]);
      assert events[..read + 1] == events[..read] + [events[read]];
      m := Next(m, events[read].0, events[read].1);
      read := read + 1;
    }
    RunAppend(Start(environments), events[..read], events[read..]);
    assert events[..read] + events[read..] == events;
    if read < |events| {
      StoppedStays(m, events[read..]);
    }
  }
}
