/**
  The `TodoList` component's state and event handlers, taken apart from the
  rendering framework.

  The component holds four pieces of state: the item descriptions `todos`,
  the completed positions `checked`, the input box's draft `text` and the
  selected `filter`. Every handler is a pure function from the old state to
  the new one, and the list and the footer count are derived from it.
 */
module TodoList {
  import opened JsTrim
  import opened CheckedList
  import opened FilterView

  /** A possibly-null value, as the toggle-button group reports a selection. */
  datatype Option<T> = None | Some(value: T)

  datatype State = State(todos: seq<string>, checked: seq<nat>, text: string, filter: Filter)

  /** The state the component mounts with: no items, nothing completed, an
      empty draft and the `all` filter. It already has the shape `Inv`
      describes, which every later state keeps (`ReachableFromInit`). */
  function Init(): (r: State)
    ensures r.todos == [] && r.checked == [] && r.text == "" && r.filter == All
    ensures Inv(r)
  {
    State([], [], "", All)
  }

  /** The shape every state the widget can reach has: `checked` is a set of
      positions of existing items. */
  predicate Inv(st: State) {
    && NoDup(st.checked)
    && forall i :: i in st.checked ==> i < |st.todos|
  }

  /** The input box's change handler: the draft becomes what was typed and
      nothing else moves. */
  function SetText(st: State, s: string): (r: State)
    ensures r.text == s
    ensures r.todos == st.todos && r.checked == st.checked && r.filter == st.filter
  {
    st.(text := s)
  }

  /** Clicking a row: position `v` is flipped in `checked` and the items, the
      draft and the filter stay. An absent position is appended; on a
      duplicate-free `checked` exactly the membership of `v` changes. */
  function HandleToggle(st: State, v: nat): (r: State)
    ensures r.todos == st.todos && r.text == st.text && r.filter == st.filter
    ensures v !in st.checked ==> r.checked == st.checked + [v]
    ensures v in st.checked ==> multiset(r.checked) == multiset(st.checked) - multiset{v}
    ensures NoDup(st.checked) ==> NoDup(r.checked) && forall x :: x in r.checked <==> (x in st.checked <==> x != v)
  {
    st.(checked := Toggle(st.checked, v))
  }

  /** Adding the draft. A blank draft (empty or whitespace only) changes
      nothing. Otherwise the trimmed draft, which is non-empty and tight, is
      appended after the existing items and the draft is cleared; the
      completed positions and the filter stay. */
  function HandleAddTodo(st: State): (r: State)
    ensures r.checked == st.checked && r.filter == st.filter
    ensures Blank(st.text) ==> r == st
    ensures !Blank(st.text) ==>
      && r.text == ""
      && |r.todos| == |st.todos| + 1
      && r.todos[..|st.todos|] == st.todos
      && r.todos[|st.todos|] == Trim(st.text)
      && r.todos[|st.todos|] != []
      && Tight(r.todos[|st.todos|])
  {
    var t := Trim(st.text);
    if t != [] then
      assert (st.todos + [t])[..|st.todos|] == st.todos;
      st.(todos := st.todos + [t], text := "")
    else
      st
  }

  /** The input box's key handler: the Enter key adds the draft and every
      other key leaves the state alone. */
  function HandleKeyEnter(st: State, key: string): (r: State)
    ensures key == "Enter" ==> r == HandleAddTodo(st)
    ensures key != "Enter" ==> r == st
  {
    if key == "Enter" then HandleAddTodo(st) else st
  }

  /** The filter buttons' change handler: a null selection (clicking the
      button already selected) keeps the filter; any other selection replaces
      it. Nothing else moves. */
  function HandleFilterChange(st: State, selection: Option<Filter>): (r: State)
    ensures r.todos == st.todos && r.checked == st.checked && r.text == st.text
    ensures selection.None? ==> r.filter == st.filter
    ensures selection.Some? ==> r.filter == selection.value
  {
    match selection
    case None => st
    case Some(f) => st.(filter := f)
  }

  /** The list on screen: the items whose position the selected filter shows,
      in their original order, and under `all` every item. */
  function FilteredTodos(st: State): (r: seq<string>)
    ensures |r| == |Kept(|st.todos|, st.checked, st.filter)|
    ensures forall k :: 0 <= k < |r| ==> r[k] == st.todos[Kept(|st.todos|, st.checked, st.filter)[k]]
    ensures st.filter == All ==> r == st.todos
  {
    ViewIsKept(st.todos, st.checked, st.filter);
    ViewAll(st.todos, st.checked);
    View(st.todos, st.checked, st.filter)
  }

  /** The footer's "items left": the number of items minus the number of
      distinct completed positions that name an item. */
  function ActiveTodosCount(st: State): (n: nat)
    ensures n == |st.todos| - |CompletedPositions(st.checked, |st.todos|)|
    ensures n <= |st.todos|
  {
    ActiveCount(st.todos, st.checked);
    |View(st.todos, st.checked, Active)|
  }

  /** "Clear completed": the items at completed positions are dropped, the
      others are kept in order, and no position is completed any more. */
  function HandleClearCompleted(st: State): (r: State)
    ensures r.checked == [] && r.text == st.text && r.filter == st.filter
    ensures |r.todos| == |Kept(|st.todos|, st.checked, Active)|
    ensures forall k :: 0 <= k < |r.todos| ==> r.todos[k] == st.todos[Kept(|st.todos|, st.checked, Active)[k]]
    ensures multiset(r.todos) + multiset(View(st.todos, st.checked, Completed)) == multiset(st.todos)
  {
    ViewIsKept(st.todos, st.checked, Active);
    ViewPartition(st.todos, st.checked);
    st.(todos := View(st.todos, st.checked, Active), checked := [])
  }

  /** The key handler changes the state exactly when Enter is pressed over a
      draft that is not blank. */
  lemma KeyEnterChangesState(st: State, key: string)
    ensures HandleKeyEnter(st, key) != st <==> key == "Enter" && !Blank(st.text)
  {
    if key == "Enter" && !Blank(st.text) {
      assert |HandleKeyEnter(st, key).todos| == |st.todos| + 1;
    }
  }

  /** Clicking the same row twice gives back the same completed set (and the
      very same list when the row was not completed). */
  lemma ToggleTwiceRestores(st: State, v: nat)
    requires NoDup(st.checked)
    ensures HandleToggle(HandleToggle(st, v), v).todos == st.todos
    ensures forall x :: x in HandleToggle(HandleToggle(st, v), v).checked <==> x in st.checked
    ensures v !in st.checked ==> HandleToggle(HandleToggle(st, v), v) == st
  {
    ToggleTwice(st.checked, v);
  }

  /** Clearing twice is clearing once. */
  lemma ClearCompletedIdempotent(st: State)
    ensures HandleClearCompleted(HandleClearCompleted(st)) == HandleClearCompleted(st)
  {
    ViewNothingChecked(HandleClearCompleted(st).todos);
  }

  /** Clearing when no item is completed leaves the items as they are. */
  lemma ClearCompletedNothingChecked(st: State)
    requires forall i :: i in st.checked ==> i >= |st.todos|
    ensures HandleClearCompleted(st).todos == st.todos
  {
    ViewActiveUntouched(st.todos, st.checked);
  }

  /** After clearing, every item is active. */
  lemma ActiveCountAfterClear(st: State)
    ensures ActiveTodosCount(HandleClearCompleted(st)) == |HandleClearCompleted(st).todos|
  {
    ViewNothingChecked(HandleClearCompleted(st).todos);
  }

  /** In every reachable state the count of active items is the number of
      items minus the number of completed ones. */
  lemma ActiveCountUnderInv(st: State)
    requires Inv(st)
    ensures ActiveTodosCount(st) == |st.todos| - |st.checked|
  {
    assert CompletedPositions(st.checked, |st.todos|) == Elems(st.checked);
    NoDupCardinality(st.checked);
  }

  /** An added item shows up at the end of the active view. */
  lemma AddedTodoIsActive(st: State)
    requires Inv(st) && !Blank(st.text)
    ensures View(HandleAddTodo(st).todos, st.checked, Active)
         == View(st.todos, st.checked, Active) + [Trim(st.text)]
  {
    ViewAppend(st.todos, st.checked, Active, Trim(st.text));
  }

  /** Adding keeps the invariant: the new item's position is not completed
      and no old position goes out of range. */
  lemma AddPreservesInv(st: State)
    requires Inv(st)
    ensures Inv(HandleAddTodo(st))
  {
  }

  /** Toggling a position that names an item, as every row click does,
      keeps the invariant. */
  lemma TogglePreservesInv(st: State, v: nat)
    requires Inv(st) && v < |st.todos|
    ensures Inv(HandleToggle(st, v))
  {
  }

  /** Clearing establishes the invariant whatever `checked` held. */
  lemma ClearPreservesInv(st: State)
    ensures Inv(HandleClearCompleted(st))
  {
  }

  /** The user events the component reacts to. A row click carries the
      position of the clicked item. */
  datatype Event =
    | Typed(s: string)
    | KeyDown(key: string)
    | RowClicked(position: nat)
    | FilterPicked(selection: Option<Filter>)
    | ClearClicked

  /** The handler each event reaches. Only Enter and the clear button can
      change the items, only a click and the clear button the completed
      positions, only typing and Enter the draft, and only a filter pick the
      filter; at most one item is added per event. */
  function Step(st: State, e: Event): (r: State)
    ensures !e.KeyDown? && !e.ClearClicked? ==> r.todos == st.todos
    ensures |r.todos| <= |st.todos| + 1
    ensures !e.RowClicked? && !e.ClearClicked? ==> r.checked == st.checked
    ensures e.ClearClicked? ==> r.checked == []
    ensures e.Typed? ==> r.text == e.s
    ensures !e.Typed? && !e.KeyDown? ==> r.text == st.text
    ensures !e.FilterPicked? ==> r.filter == st.filter
    ensures e.FilterPicked? ==> r.filter == (if e.selection.Some? then e.selection.value else st.filter)
  {
    match e
    case Typed(s) => SetText(st, s)
    case KeyDown(key) => HandleKeyEnter(st, key)
    case RowClicked(v) => HandleToggle(st, v)
    case FilterPicked(sel) => HandleFilterChange(st, sel)
    case ClearClicked => HandleClearCompleted(st)
  }

  /** Rows exist only for items, so a click names a position below the
      number of items. */
  predicate Enabled(st: State, e: Event) {
    e.RowClicked? ==> e.position < |st.todos|
  }

  /** The state after a sequence of events. */
  function Run(st: State, es: seq<Event>): State
    decreases |es|
  {
    if es == [] then st else Run(Step(st, es[0]), es[1..])
  }

  /** Every event of the sequence could happen in the state it meets. */
  predicate Feasible(st: State, es: seq<Event>)
    decreases |es|
  {
    es == [] || (Enabled(st, es[0]) && Feasible(Step(st, es[0]), es[1..]))
  }

  /** Every event that can happen keeps the invariant. */
  lemma StepPreservesInv(st: State, e: Event)
    requires Inv(st) && Enabled(st, e)
    ensures Inv(Step(st, e))
  {
    match e
    case Typed(s) =>
    case KeyDown(key) => AddPreservesInv(st);
    case RowClicked(v) => TogglePreservesInv(st, v);
    case FilterPicked(sel) =>
    case ClearClicked => ClearPreservesInv(st);
  }

  /** Every state reachable from a state with the invariant has it too, and
      in each the footer count is the number of items minus the number
      completed. */
  lemma {:induction false} ReachableInv(st: State, es: seq<Event>)
    requires Inv(st) && Feasible(st, es)
    ensures Inv(Run(st, es))
    ensures ActiveTodosCount(Run(st, es)) == |Run(st, es).todos| - |Run(st, es).checked|
    decreases |es|
  {
    if es == [] {
      ActiveCountUnderInv(st);
    } else {
      StepPreservesInv(st, es[0]);
      ReachableInv(Step(st, es[0]), es[1..]);
    }
  }

  /** The mounted state has the invariant, so every state the widget
      reaches has it and shows "items left" as items minus completed. */
  lemma ReachableFromInit(es: seq<Event>)
    requires Feasible(Init(), es)
    ensures Inv(Run(Init(), es))
    ensures ActiveTodosCount(Run(Init(), es)) == |Run(Init(), es).todos| - |Run(Init(), es).checked|
  {
    ReachableInv(Init(), es);
  }

  /** Typing a non-empty tight text and pressing Enter appends exactly that
      text. */
  lemma EnterOnTightDraft(st: State, t: string)
    requires t != [] && Tight(t)
    ensures Run(st, [Typed(t), KeyDown("Enter")]) == st.(todos := st.todos + [t], text := "")
  {
    var es := [Typed(t), KeyDown("Enter")];
    var typed := SetText(st, t);
    assert Run(st, es) == Run(typed, es[1..]);
    assert es[1..] == [KeyDown("Enter")];
    assert Run(typed, es[1..]) == Run(HandleKeyEnter(typed, "Enter"), []);
    TrimOfTight(t);
    assert HandleKeyEnter(typed, "Enter") == HandleAddTodo(typed);
  }

  /** The component test: typing "New Task" and pressing Enter puts the item
      on screen and empties the input box. */
  lemma AddsNewTodoWhenEnterPressed()
    ensures "New Task" in FilteredTodos(Run(Init(), [Typed("New Task"), KeyDown("Enter")]))
    ensures Run(Init(), [Typed("New Task"), KeyDown("Enter")]).text == ""
  {
    EnterOnTightDraft(Init(), "New Task");
  }

  /** Running two event sequences one after the other. */
  lemma {:induction false} RunConcat(st: State, es: seq<Event>, fs: seq<Event>)
    ensures Run(st, es + fs) == Run(Run(st, es), fs)
    decreases |es|
  {
    if es == [] {
      assert es + fs == fs;
    } else {
      assert (es + fs)[1..] == es[1..] + fs;
      RunConcat(Step(st, es[0]), es[1..], fs);
    }
  }

  /** The events of a session: add "Buy milk" and "Walk dog", complete the
      first, then pick the active view. */
  const Session := [Typed("Buy milk"), KeyDown("Enter"), Typed("Walk dog"), KeyDown("Enter"),
                    RowClicked(0), FilterPicked(Some(Active))]

  /** The state the session ends in. */
  lemma SessionRun()
    ensures Run(Init(), Session) == State(["Buy milk", "Walk dog"], [0], "", Active)
  {
    var add1, add2 := [Typed("Buy milk"), KeyDown("Enter")], [Typed("Walk dog"), KeyDown("Enter")];
    var rest := [RowClicked(0), FilterPicked(Some(Active))];
    assert Session == add1 + (add2 + rest);
    RunConcat(Init(), add1, add2 + rest);
    SessionFirstAdd();
    SessionSecondAdd();
    RunConcat(State(["Buy milk"], [], "", All), add2, rest);
    SessionFinish();
  }

  /** The first addition of the session. */
  lemma SessionFirstAdd()
    ensures Run(Init(), [Typed("Buy milk"), KeyDown("Enter")]) == State(["Buy milk"], [], "", All)
  {
    EnterOnTightDraft(Init(), "Buy milk");
    assert [] + ["Buy milk"] == ["Buy milk"];
  }

  /** The second addition of the session. */
  lemma SessionSecondAdd()
    ensures Run(State(["Buy milk"], [], "", All), [Typed("Walk dog"), KeyDown("Enter")])
         == State(["Buy milk", "Walk dog"], [], "", All)
  {
    EnterOnTightDraft(State(["Buy milk"], [], "", All), "Walk dog");
  }

  /** The click and the filter change that end the session. */
  lemma SessionFinish()
    ensures Run(State(["Buy milk", "Walk dog"], [], "", All), [RowClicked(0), FilterPicked(Some(Active))])
         == State(["Buy milk", "Walk dog"], [0], "", Active)
  {
    var rest := [RowClicked(0), FilterPicked(Some(Active))];
    var s2 := State(["Buy milk", "Walk dog"], [], "", All);
    var s3 := State(["Buy milk", "Walk dog"], [0], "", All);
    assert HandleToggle(s2, 0) == s3;
    assert Run(s2, rest) == Run(s3, rest[1..]);
    assert rest[1..][1..] == [];
  }

  /** After the session the active view shows "Walk dog" alone, one item is
      left, and the completed view shows "Buy milk" alone. */
  lemma ShoppingSession()
    ensures FilteredTodos(Run(Init(), Session)) == ["Walk dog"]
    ensures ActiveTodosCount(Run(Init(), Session)) == 1
    ensures FilteredTodos(HandleFilterChange(Run(Init(), Session), Some(Completed))) == ["Buy milk"]
  {
    SessionRun();
    ShoppingViews();
  }

  /** The views of the two-item list whose first item is completed. */
  lemma ShoppingViews()
    ensures View(["Buy milk", "Walk dog"], [0], Active) == ["Walk dog"]
    ensures View(["Buy milk", "Walk dog"], [0], Completed) == ["Buy milk"]
  {
    assert ["Buy milk", "Walk dog"][..1] == ["Buy milk"];
    assert ["Buy milk"][..0] == [];
  }
}
