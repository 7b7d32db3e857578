/** Navigation history and the split pane (src/contexts/NavigationContext.tsx). Each callback is
one atomic step on committed state. */
module Navigation {
  import opened Wrappers

  datatype ViewType =
    | Inbox | Tasks | Today | DailyNotes | ThisWeek | Overdue | Waiting | Eventually | CompletedView
    | ObjectView | Settings | TimeMachine | Archive | Search | SavedView | TypeBrowse | Browse
    | Projects | Areas | Tags | Templates | Pinned

  datatype Place = Place(
    view: ViewType,
    objectId: Option<string> := None,
    searchQuery: Option<string> := None,
    timeMachineFilter: Option<string> := None,
    savedViewId: Option<string> := None,
    browseTypeId: Option<string> := None)

  datatype Frontier = Frontier(heads: seq<(string, int)>)
  datatype Context = Context(selectedDate: string, changeIndex: int)
  datatype PaneMode = Normal | VersionComparison

  datatype SplitPane = SplitPane(
    isOpen: bool, objectId: Option<string>, width: real, mode: PaneMode,
    frontier: Option<Frontier>, timestamp: Option<int>, context: Option<Context>)

  datatype State = State(current: Place, history: seq<Place>, forward: seq<Place>, pane: SplitPane)

  const CLOSED: SplitPane := SplitPane(false, None, 50.0, Normal, None, None, None)
  const INITIAL: State := State(Place(Inbox), [], [], CLOSED)

  datatype Action =
    | ToObject(objectId: string)
    | ToView(view: ViewType)
    | ToSearch(query: Option<string>)
    | ToTimeMachine(filter: Option<string>)
    | ToSavedView(viewId: string)
    | ToTypeBrowse(typeId: string)
    | Back
    | Forward
    | OpenInSplit(objectId: string)
    | CloseSplit
    | SetSplitWidth(width: real)
    | SwapPanes
    | OpenComparison(objectId: string, frontier: Frontier, timestamp: int, context: Option<Context>)
    | UpdateComparison(frontier: Frontier, timestamp: int)
    | ReturnToTimeMachine

  // ---------------------------------------------------------------- steps

  function ObjectPlace(id: string): Place { Place(ObjectView, objectId := Some(id)) }

  /** JavaScript's test of a string that may be missing: the empty string counts as missing. */
  predicate Present(id: Option<string>) { id.Some? && id.value != "" }

  function Init<T>(xs: seq<T>): seq<T>
    requires xs != []
  {
    xs[..|xs| - 1]
  }

  function Last<T>(xs: seq<T>): T
    requires xs != []
  {
    xs[|xs| - 1]
  }

  function WithoutComparison(pane: SplitPane): SplitPane {
    if pane.mode == VersionComparison then CLOSED else pane
  }

  function GoTo(s: State, target: Place, pane: SplitPane): State {
    State(target, s.history + [s.current], [], pane)
  }

  function Clamp(width: real): real {
    var capped := if width < 75.0 then width else 75.0;
    if capped < 25.0 then 25.0 else capped
  }

  function Next(s: State, a: Action): State {
    match a
    case ToObject(id) =>
      GoTo(s, ObjectPlace(id), if s.pane.objectId != Some(id) then WithoutComparison(s.pane) else s.pane)
    case ToView(view) => GoTo(s, Place(view), WithoutComparison(s.pane))
    case ToSearch(query) => GoTo(s, Place(Search, searchQuery := query), WithoutComparison(s.pane))
    case ToTimeMachine(filter) => GoTo(s, Place(TimeMachine, timeMachineFilter := filter), WithoutComparison(s.pane))
    case ToSavedView(id) => GoTo(s, Place(SavedView, savedViewId := Some(id)), WithoutComparison(s.pane))
    case ToTypeBrowse(id) => GoTo(s, Place(TypeBrowse, browseTypeId := Some(id)), WithoutComparison(s.pane))
    case Back =>
      if s.history == [] then s
      else State(Last(s.history), Init(s.history), s.forward + [s.current], WithoutComparison(s.pane))
    case Forward =>
      if s.forward == [] then s
      else State(Last(s.forward), s.history + [s.current], Init(s.forward), WithoutComparison(s.pane))
    case OpenInSplit(id) => s.(pane := s.pane.(isOpen := true, objectId := Some(id)))
    case CloseSplit => s.(pane := CLOSED)
    case SetSplitWidth(width) => s.(pane := s.pane.(width := Clamp(width)))
    case SwapPanes =>
      if !Present(s.pane.objectId) || !Present(s.current.objectId) then s
      else State(ObjectPlace(s.pane.objectId.value), s.history + [s.current], s.forward,
                 s.pane.(objectId := s.current.objectId))
    case OpenComparison(id, frontier, timestamp, context) =>
      State(ObjectPlace(id), s.history + [s.current], s.forward,
            SplitPane(true, Some(id), 50.0, VersionComparison, Some(frontier), Some(timestamp), context))
    case UpdateComparison(frontier, timestamp) =>
      s.(pane := s.pane.(frontier := Some(frontier), timestamp := Some(timestamp)))
    case ReturnToTimeMachine =>
      if s.history != [] && Last(s.history).view == TimeMachine
      then State(Last(s.history), Init(s.history), s.forward, CLOSED)
      else s.(current := Place(TimeMachine), pane := CLOSED)
  }

  function Run(s: State, actions: seq<Action>): State
    decreases |actions|
  {
    if actions == [] then s else Run(Next(s, actions[0]), actions[1..])
  }

  // ---------------------------------------------------------------- the object

  class NavigationProvider {
    var currentState: Place
    var history: seq<Place>
    var forwardHistory: seq<Place>
    var splitPane: SplitPane

    ghost function Contents(): State reads this {
      State(currentState, history, forwardHistory, splitPane)
    }

    constructor ()
      ensures Contents() == INITIAL
    {
      currentState, history, forwardHistory, splitPane := Place(Inbox), [], [], CLOSED;
    }

    method CloseVersionComparisonIfActive()
      modifies this`splitPane
      ensures splitPane == WithoutComparison(old(splitPane))
    {
      if splitPane.mode == VersionComparison {
        splitPane := CLOSED;
      }
    }

    method Push(target: Place)
      modifies this`history, this`forwardHistory, this`currentState
      ensures Contents() == GoTo(old(Contents()), target, splitPane)
    {
      history := history + [currentState];
      forwardHistory := [];
      currentState := target;
    }

    method NavigateToObject(objectId: string)
      modifies this
      ensures Contents() == Next(old(Contents()), ToObject(objectId))
    {
      if splitPane.mode == VersionComparison && splitPane.objectId != Some(objectId) {
        CloseVersionComparisonIfActive();
      }
      Push(ObjectPlace(objectId));
    }

    /** The other plain navigations: they differ only in the place they go to. */
    method NavigateTo(a: Action)
      requires a.ToView? || a.ToSearch? || a.ToTimeMachine? || a.ToSavedView? || a.ToTypeBrowse?
      modifies this
      ensures Contents() == Next(old(Contents()), a)
    {
      CloseVersionComparisonIfActive();
      match a
      case ToView(view) => Push(Place(view));
      case ToSearch(query) => Push(Place(Search, searchQuery := query));
      case ToTimeMachine(filter) => Push(Place(TimeMachine, timeMachineFilter := filter));
      case ToSavedView(viewId) => Push(Place(SavedView, savedViewId := Some(viewId)));
      case ToTypeBrowse(typeId) => Push(Place(TypeBrowse, browseTypeId := Some(typeId)));
    }

    method NavigateBack()
      modifies this
      ensures Contents() == Next(old(Contents()), Back)
    {
      if |history| == 0 {
        return;
      }
      CloseVersionComparisonIfActive();
      var previous := history[|history| - 1];
      forwardHistory := forwardHistory + [currentState];
      history := history[..|history| - 1];
      currentState := previous;
    }

    method NavigateForward()
      modifies this
      ensures Contents() == Next(old(Contents()), Forward)
    {
      if |forwardHistory| == 0 {
        return;
      }
      CloseVersionComparisonIfActive();
      var next := forwardHistory[|forwardHistory| - 1];
      history := history + [currentState];
      forwardHistory := forwardHistory[..|forwardHistory| - 1];
      currentState := next;
    }

    method ChangePane(a: Action)
      requires a.OpenInSplit? || a.CloseSplit? || a.SetSplitWidth? || a.UpdateComparison?
      modifies this`splitPane
      ensures Contents() == Next(old(Contents()), a)
    {
      match a
      case OpenInSplit(objectId) => splitPane := splitPane.(isOpen := true, objectId := Some(objectId));
      case CloseSplit => splitPane := CLOSED;
      case SetSplitWidth(width) => splitPane := splitPane.(width := Clamp(width));
      case UpdateComparison(frontier, timestamp) =>
        splitPane := splitPane.(frontier := Some(frontier), timestamp := Some(timestamp));
    }

    method SwapPanes()
      modifies this
      ensures Contents() == Next(old(Contents()), Action.SwapPanes)
    {
      if !Present(splitPane.objectId) || !Present(currentState.objectId) {
        return;
      }
      var tempId := currentState.objectId;
      history := history + [currentState];
      currentState := ObjectPlace(splitPane.objectId.value);
      splitPane := splitPane.(objectId := tempId);
    }

    method OpenVersionComparison(objectId: string, frontier: Frontier, timestamp: int, context: Option<Context>)
      modifies this
      ensures Contents() == Next(old(Contents()), OpenComparison(objectId, frontier, timestamp, context))
    {
      history := history + [currentState];
      currentState := ObjectPlace(objectId);
      splitPane := SplitPane(true, Some(objectId), 50.0, VersionComparison, Some(frontier), Some(timestamp), context);
    }

    method ReturnToTimeMachine()
      modifies this
      ensures Contents() == Next(old(Contents()), Action.ReturnToTimeMachine)
    {
      splitPane := CLOSED;
      if |history| > 0 {
        var lastState := history[|history| - 1];
        if lastState.view == TimeMachine {
          history := history[..|history| - 1];
          currentState := lastState;
          return;
        }
      }
      currentState := Place(TimeMachine);
    }
  }

  // ---------------------------------------------------------------- the tape

  /** Places visited, oldest first, and which of them is shown. */
  datatype Tape = Tape(places: seq<Place>, cursor: nat)

  function Reverse<T>(xs: seq<T>): (r: seq<T>)
    ensures |r| == |xs|
    ensures forall i :: 0 <= i < |xs| ==> r[i] == xs[|xs| - 1 - i]
  {
    if xs == [] then [] else [Last(xs)] + Reverse(Init(xs))
  }

  function TapeOf(s: State): (t: Tape)
    ensures t.cursor < |t.places| && t.places[t.cursor] == s.current
    ensures |t.places| == |s.history| + 1 + |s.forward|
  {
    Tape(s.history + [s.current] + Reverse(s.forward), |s.history|)
  }

  datatype Edit =
    | Stay
    | MoveBack
    | MoveForward
    | TruncateAndAppend(place: Place)
    | InsertAfter(place: Place)
    | DeleteCurrent
    | ReplaceCurrent(place: Place)

  function Edited(t: Tape, e: Edit): Tape
    requires t.cursor < |t.places|
  {
    match e
    case Stay => t
    case MoveBack => t.(cursor := if t.cursor == 0 then 0 else t.cursor - 1)
    case MoveForward => t.(cursor := if t.cursor + 1 == |t.places| then t.cursor else t.cursor + 1)
    case TruncateAndAppend(place) => Tape(t.places[..t.cursor + 1] + [place], t.cursor + 1)
    case InsertAfter(place) =>
      Tape(t.places[..t.cursor + 1] + [place] + t.places[t.cursor + 1..], t.cursor + 1)
    case DeleteCurrent =>
      Tape(t.places[..t.cursor] + t.places[t.cursor + 1..], if t.cursor == 0 then 0 else t.cursor - 1)
    case ReplaceCurrent(place) => t.(places := t.places[t.cursor := place])
  }

  /** What each action is on the tape. Swapping panes and opening a comparison insert: they
      keep what lies ahead, where a plain navigation cuts it off. */
  function EditOf(s: State, a: Action): Edit {
    match a
    case ToObject(id) => TruncateAndAppend(ObjectPlace(id))
    case ToView(view) => TruncateAndAppend(Place(view))
    case ToSearch(query) => TruncateAndAppend(Place(Search, searchQuery := query))
    case ToTimeMachine(filter) => TruncateAndAppend(Place(TimeMachine, timeMachineFilter := filter))
    case ToSavedView(id) => TruncateAndAppend(Place(SavedView, savedViewId := Some(id)))
    case ToTypeBrowse(id) => TruncateAndAppend(Place(TypeBrowse, browseTypeId := Some(id)))
    case Back => MoveBack
    case Forward => MoveForward
    case SwapPanes =>
      if Present(s.pane.objectId) && Present(s.current.objectId)
      then InsertAfter(ObjectPlace(s.pane.objectId.value)) else Stay
    case OpenComparison(id, _, _, _) => InsertAfter(ObjectPlace(id))
    case ReturnToTimeMachine =>
      var t := TapeOf(s);
      if t.cursor > 0 && t.places[t.cursor - 1].view == TimeMachine then DeleteCurrent
      else ReplaceCurrent(Place(TimeMachine))
    case _ => Stay
  }

  lemma TapeParts(s: State)
    ensures var p := TapeOf(s).places;
            && p[..|s.history|] == s.history
            && p[..|s.history| + 1] == s.history + [s.current]
            && p[|s.history| + 1..] == Reverse(s.forward)
  {
  }

  lemma ReverseSnoc<T>(xs: seq<T>, x: T)
    ensures Reverse(xs + [x]) == [x] + Reverse(xs)
  {
    assert Init(xs + [x]) == xs;
  }

  lemma BackMoves(s: State)
    ensures TapeOf(Next(s, Back)) == Edited(TapeOf(s), MoveBack)
  {
    if s.history != [] {
      hide Reverse;
      ReverseSnoc(s.forward, s.current);
      var h, l := Init(s.history), Last(s.history);
      assert s.history == h + [l];
      assert h + [l] + ([s.current] + Reverse(s.forward)) == h + [l] + [s.current] + Reverse(s.forward);
    }
  }

  lemma ForwardMoves(s: State)
    ensures TapeOf(Next(s, Forward)) == Edited(TapeOf(s), MoveForward)
  {
    if s.forward != [] {
      hide Reverse;
      var f, l := Init(s.forward), Last(s.forward);
      assert s.forward == f + [l];
      ReverseSnoc(f, l);
      assert s.history + [s.current] + ([l] + Reverse(f)) == s.history + [s.current] + [l] + Reverse(f);
    }
  }

  lemma ReturnDeletesOrReplaces(s: State)
    ensures TapeOf(Next(s, Action.ReturnToTimeMachine)) == Edited(TapeOf(s), EditOf(s, Action.ReturnToTimeMachine))
  {
    hide Reverse;
    TapeParts(s);
    if s.history != [] {
      var h, l := Init(s.history), Last(s.history);
      assert TapeOf(s).places[|s.history| - 1] == l;
      assert s.history == h + [l];
    }
  }

  /** The two stacks refine a tape with a cursor: every action does to the tape what its edit
      says. In particular back and forward never change the tape. */
  lemma StacksRefineTape(s: State, a: Action)
    ensures TapeOf(Next(s, a)) == Edited(TapeOf(s), EditOf(s, a))
  {
    hide Reverse;
    match a
    case Back => BackMoves(s);
    case Forward => ForwardMoves(s);
    case ReturnToTimeMachine => ReturnDeletesOrReplaces(s);
    case ToObject(_) => TapeParts(s); ForwardCut(s, a);
    case ToView(_) => TapeParts(s); ForwardCut(s, a);
    case ToSearch(_) => TapeParts(s); ForwardCut(s, a);
    case ToTimeMachine(_) => TapeParts(s); ForwardCut(s, a);
    case ToSavedView(_) => TapeParts(s); ForwardCut(s, a);
    case ToTypeBrowse(_) => TapeParts(s); ForwardCut(s, a);
    case _ => TapeParts(s);
  }

  lemma ForwardCut(s: State, a: Action)
    requires Next(s, a).forward == []
    ensures TapeOf(Next(s, a)).places == Next(s, a).history + [Next(s, a).current]
  {
    var t := Next(s, a);
    assert t.history + [t.current] + Reverse([]) == t.history + [t.current];
  }

  /** The tape and cursor are all there is to the three stacks. */
  lemma TapeDeterminesStacks(s: State, t: State)
    requires TapeOf(s) == TapeOf(t)
    ensures s.current == t.current && s.history == t.history && s.forward == t.forward
  {
    var p := TapeOf(s).places;
    assert s.history == p[..|s.history|] == t.history;
    assert Reverse(s.forward) == p[|s.history| + 1..] == Reverse(t.forward);
    forall i | 0 <= i < |s.forward| ensures s.forward[i] == t.forward[i] {
      assert Reverse(s.forward)[|s.forward| - 1 - i] == s.forward[i];
      assert Reverse(t.forward)[|t.forward| - 1 - i] == t.forward[i];
    }
  }

  function Times(a: Action, n: nat): seq<Action> {
    if n == 0 then [] else [a] + Times(a, n - 1)
  }

  lemma {:induction false} BackTimes(s: State, n: nat)
    ensures var t := TapeOf(s);
            TapeOf(Run(s, Times(Back, n))) == t.(cursor := if n <= t.cursor then t.cursor - n else 0)
    decreases n
  {
    hide Next, TapeOf;
    if n > 0 {
      BackMoves(s);
      BackTimes(Next(s, Back), n - 1);
      assert Times(Back, n)[1..] == Times(Back, n - 1);
    }
  }

  lemma {:induction false} ForwardTimes(s: State, n: nat)
    ensures var t := TapeOf(s);
            TapeOf(Run(s, Times(Forward, n)))
            == t.(cursor := if t.cursor + n < |t.places| then t.cursor + n else |t.places| - 1)
    decreases n
  {
    hide Next, TapeOf;
    if n > 0 {
      ForwardMoves(s);
      ForwardTimes(Next(s, Forward), n - 1);
      assert Times(Forward, n)[1..] == Times(Forward, n - 1);
    }
  }

  /** k times back and then k times forward restores the current place and both stacks if and
      only if there were k places to go back to, or nothing ahead to overshoot into. */
  lemma BackThenForwardExactly(s: State, k: nat)
    ensures var s' := Run(Run(s, Times(Back, k)), Times(Forward, k));
            (s'.current == s.current && s'.history == s.history && s'.forward == s.forward)
            <==> (k <= |s.history| || s.forward == [])
  {
    BackTimes(s, k);
    ForwardTimes(Run(s, Times(Back, k)), k);
    var s' := Run(Run(s, Times(Back, k)), Times(Forward, k));
    if TapeOf(s') == TapeOf(s) { TapeDeterminesStacks(s', s); }
  }

  // ---------------------------------------------------------------- comparison mode

  /** A comparison always has an open pane with an object, a frontier and a time. */
  predicate ComparisonOpen(s: State) {
    s.pane.mode == VersionComparison ==>
      s.pane.isOpen && s.pane.objectId.Some? && s.pane.frontier.Some? && s.pane.timestamp.Some?
  }

  /** A comparison compares the object shown in the primary pane with its own past. */
  predicate ComparesSameObject(s: State) {
    s.pane.mode == VersionComparison ==> s.current.view == ObjectView && s.pane.objectId == s.current.objectId
  }

  lemma {:induction false} ComparisonAlwaysOpen(s: State, actions: seq<Action>)
    requires ComparisonOpen(s)
    ensures ComparisonOpen(Run(s, actions))
    decreases |actions|
  {
    if actions != [] { ComparisonAlwaysOpen(Next(s, actions[0]), actions[1..]); }
  }

  /** One action breaks the comparison's meaning if and only if it opens another object in the
      split pane while the comparison is on. */
  lemma SameObjectKeptExactly(s: State, a: Action)
    requires ComparesSameObject(s)
    ensures ComparesSameObject(Next(s, a))
            <==> !(a.OpenInSplit? && s.pane.mode == VersionComparison && s.current.objectId != Some(a.objectId))
  {
  }

  predicate NoForeignSplit(s: State, actions: seq<Action>)
    decreases |actions|
  {
    actions == [] ||
    (&& !(actions[0].OpenInSplit? && s.pane.mode == VersionComparison
          && s.current.objectId != Some(actions[0].objectId))
     && NoForeignSplit(Next(s, actions[0]), actions[1..]))
  }

  /** So over every run from the start in which that does not happen, comparison mode shows the
      primary pane's object, with a frontier, in an open pane. */
  lemma {:induction false} ComparisonInvariant(s: State, actions: seq<Action>)
    requires ComparisonOpen(s) && ComparesSameObject(s) && NoForeignSplit(s, actions)
    ensures ComparisonOpen(Run(s, actions)) && ComparesSameObject(Run(s, actions))
    decreases |actions|
  {
    if actions != [] {
      SameObjectKeptExactly(s, actions[0]);
      ComparisonInvariant(Next(s, actions[0]), actions[1..]);
    }
  }

  lemma StartIsComparisonFree(actions: seq<Action>)
    requires NoForeignSplit(INITIAL, actions)
    ensures ComparisonOpen(Run(INITIAL, actions)) && ComparesSameObject(Run(INITIAL, actions))
  {
    ComparisonInvariant(INITIAL, actions);
  }

  /** The split never takes less than a quarter or more than three quarters of the window. */
  lemma {:induction false} WidthInRange(s: State, actions: seq<Action>)
    requires 25.0 <= s.pane.width <= 75.0
    ensures 25.0 <= Run(s, actions).pane.width <= 75.0
    decreases |actions|
  {
    if actions != [] { WidthInRange(Next(s, actions[0]), actions[1..]); }
  }

  // ---------------------------------------------------------------- the two panes

  /** The objects shown: in the primary pane and in the split pane. */
  function Shown(s: State): (Option<string>, Option<string>) {
    (s.current.objectId, s.pane.objectId)
  }

  predicate PlaceFits(p: Place) {
    p.objectId.Some? ==> p == ObjectPlace(p.objectId.value)
  }

  /** A place with an object is a view of that object and has nothing else. */
  predicate PlacesFit(s: State) {
    && PlaceFits(s.current)
    && (forall i :: 0 <= i < |s.history| ==> PlaceFits(s.history[i]))
    && (forall i :: 0 <= i < |s.forward| ==> PlaceFits(s.forward[i]))
  }

  lemma {:induction false} PlacesAlwaysFit(s: State, actions: seq<Action>)
    requires PlacesFit(s)
    ensures PlacesFit(Run(s, actions))
    decreases |actions|
  {
    if actions != [] {
      assert PlacesFit(Next(s, actions[0]));
      PlacesAlwaysFit(Next(s, actions[0]), actions[1..]);
    }
  }

  /** Swapping exchanges the two objects shown if both panes show one, and does nothing
      otherwise; the pane keeps its width, its mode and all the rest. */
  lemma SwapExchangesExactly(s: State)
    ensures var t := Next(s, Action.SwapPanes);
            && (Shown(t) == (Shown(s).1, Shown(s).0)
                <==> Shown(s).0 == Shown(s).1 || (Present(Shown(s).0) && Present(Shown(s).1)))
            && (!Present(Shown(s).0) || !Present(Shown(s).1) ==> t == s)
            && t.pane.(objectId := s.pane.objectId) == s.pane
            && (t != s ==> t.current.view == ObjectView)
  {
  }

  /** So in every run two swaps bring back the primary place and the whole pane, and a swap shows
      in each pane what the other one showed, or nothing happens. */
  lemma TwoSwapsRestore(actions: seq<Action>)
    ensures var s := Run(INITIAL, actions);
            var t := Next(Next(s, Action.SwapPanes), Action.SwapPanes);
            t.current == s.current && t.pane == s.pane
  {
    PlacesAlwaysFit(INITIAL, actions);
  }

  /** Opening in the split pane shows the object there, whatever was there, and changes nothing
      else; closing it leaves nothing of it. */
  lemma SplitShows(s: State, id: string)
    ensures var t := Next(s, OpenInSplit(id));
            && t.pane.isOpen && Shown(t) == (Shown(s).0, Some(id))
            && t.pane.(isOpen := s.pane.isOpen, objectId := s.pane.objectId) == s.pane
            && t.(pane := s.pane) == s
    ensures var t := Next(s, CloseSplit);
            && !t.pane.isOpen && t.pane.objectId == None && t.pane.mode == Normal && t.pane.frontier == None
            && t.(pane := s.pane) == s
  {
  }

  predicate IsNavigation(a: Action) {
    a.ToObject? || a.ToView? || a.ToSearch? || a.ToTimeMachine? || a.ToSavedView? || a.ToTypeBrowse?
  }

  /** A navigation goes to the view asked for with the one argument it has, and none of the others;
      from there, one step back leads to where it came from, and nothing lies ahead. */
  lemma GoesWhereAsked(s: State, a: Action)
    requires IsNavigation(a)
    ensures var t := Next(s, a);
            var p := t.current;
            && (p.objectId == if a.ToObject? then Some(a.objectId) else None)
            && (p.searchQuery == if a.ToSearch? then a.query else None)
            && (p.timeMachineFilter == if a.ToTimeMachine? then a.filter else None)
            && (p.savedViewId == if a.ToSavedView? then Some(a.viewId) else None)
            && (p.browseTypeId == if a.ToTypeBrowse? then Some(a.typeId) else None)
            && (a.ToView? ==> p.view == a.view) && (a.ToObject? ==> p.view == ObjectView)
            && (a.ToSearch? ==> p.view == Search) && (a.ToTimeMachine? ==> p.view == TimeMachine)
            && (a.ToSavedView? ==> p.view == SavedView) && (a.ToTypeBrowse? ==> p.view == TypeBrowse)
            && t.forward == [] && Next(t, Back).current == s.current && Next(t, Back).history == s.history
  {
  }

  /** Moving about leaves a normal pane alone, and ends a comparison except when it goes to the
      very object that is compared. */
  lemma MovingKeepsNormalPane(s: State, a: Action)
    requires IsNavigation(a) || a.Back? || a.Forward?
    ensures s.pane.mode == Normal ==> Next(s, a).pane == s.pane
    ensures s.pane.mode == VersionComparison && Next(s, a) != s ==>
              Next(s, a).pane == if a.ToObject? && s.pane.objectId == Some(a.objectId) then s.pane else INITIAL.pane
  {
  }

  /** A comparison shows the object in both panes, with the frontier, time and context given, and
      a later update changes only the frontier and the time; returning closes the pane. */
  lemma ComparisonShows(s: State, id: string, frontier: Frontier, timestamp: int, context: Option<Context>,
                        next: Frontier, later: int)
    ensures var t := Next(s, OpenComparison(id, frontier, timestamp, context));
            var u := Next(t, UpdateComparison(next, later));
            && Shown(t) == (Some(id), Some(id)) && t.pane.mode == VersionComparison && t.pane.isOpen
            && t.pane.frontier == Some(frontier) && t.pane.timestamp == Some(timestamp) && t.pane.context == context
            && u.pane.frontier == Some(next) && u.pane.timestamp == Some(later)
            && u.pane.(frontier := t.pane.frontier, timestamp := t.pane.timestamp) == t.pane
            && u.(pane := t.pane) == t
    ensures Next(s, Action.ReturnToTimeMachine).pane == INITIAL.pane
    ensures Next(s, Action.ReturnToTimeMachine).current.view == TimeMachine
  {
  }

  /** A width within the range is taken as it is, another one is moved to the nearer end. */
  lemma WidthTaken(s: State, width: real)
    ensures var t := Next(s, SetSplitWidth(width));
            && (t.pane.width == width <==> 25.0 <= width <= 75.0)
            && (width < 25.0 ==> t.pane.width == 25.0)
            && (width > 75.0 ==> t.pane.width == 75.0)
            && t.pane.(width := s.pane.width) == s.pane && t.(pane := s.pane) == s
  {
  }
}
