/**
  The derived lists of the to-do widget: the filtered view shown in the list
  and the number of active items shown in the footer.

  Both are `todos.filter((_, index) => ...)` in the component: the predicate
  asks whether the item's position is among the completed positions, and the
  filter keeps the items it accepts in their original order.
 */
module FilterView {
  import opened CheckedList

  /** The view selector of the toggle-button group. */
  datatype Filter = All | Active | Completed

  /** Whether the filter shows an item with the given completion state. */
  predicate Shows(f: Filter, completed: bool) {
    match f
    case All => true
    case Active => !completed
    case Completed => completed
  }

  /** The distinct completed positions that name an item of a list of
      length `n`. */
  function CompletedPositions(checked: seq<nat>, n: nat): set<nat> {
    set i | i in checked && i < n
  }

  /** The positions below `n` that `f` shows, in increasing order. `KeptSpec`
      states what it lists without reference to how it is computed. */
  function Kept(n: nat, checked: seq<nat>, f: Filter): (ks: seq<nat>)
    ensures |ks| <= n
    ensures forall k :: 0 <= k < |ks| ==> ks[k] < n
  {
    if n == 0 then []
    else Kept(n - 1, checked, f) + (if Shows(f, n - 1 in checked) then [n - 1] else [])
  }

  /** The declarative description of which items a view keeps: `Kept` lists
      positions strictly increasing, and a position below `n` is listed
      exactly when the filter shows it. */
  lemma {:induction false} KeptSpec(n: nat, checked: seq<nat>, f: Filter)
    ensures forall k, l :: 0 <= k < l < |Kept(n, checked, f)| ==> Kept(n, checked, f)[k] < Kept(n, checked, f)[l]
    ensures forall i :: 0 <= i < n ==> (i in Kept(n, checked, f) <==> Shows(f, i in checked))
  {
    if n > 0 {
      KeptSpec(n - 1, checked, f);
    }
  }

  /** `todos.filter(...)` as the component writes it: each item is kept when
      the filter shows its position. The view never grows the list. */
  function View(todos: seq<string>, checked: seq<nat>, f: Filter): (r: seq<string>)
    ensures |r| <= |todos|
  {
    if |todos| == 0 then []
    else
      var n := |todos| - 1;
      View(todos[..n], checked, f) + (if Shows(f, n in checked) then [todos[n]] else [])
  }

  /** The view is the items at the positions `Kept` lists, in that order: an
      order-preserving subsequence holding exactly the shown positions. */
  lemma {:induction false} ViewIsKept(todos: seq<string>, checked: seq<nat>, f: Filter)
    ensures |View(todos, checked, f)| == |Kept(|todos|, checked, f)|
    ensures forall k :: 0 <= k < |View(todos, checked, f)| ==>
      View(todos, checked, f)[k] == todos[Kept(|todos|, checked, f)[k]]
  {
    if todos != [] {
      var n := |todos| - 1;
      ViewIsKept(todos[..n], checked, f);
      ViewSnoc(todos, checked, f);
      var prev, ks := View(todos[..n], checked, f), Kept(n, checked, f);
      var tail := if Shows(f, n in checked) then [n] else [];
      var view, kept := View(todos, checked, f), Kept(n + 1, checked, f);
      assert kept == ks + tail;
      forall k | 0 <= k < |view|
        ensures view[k] == todos[kept[k]]
      {
        if k < |prev| {
          assert view[k] == prev[k] == todos[..n][ks[k]];
        } else {
          assert view[k] == todos[n] && kept[k] == n;
        }
      }
    }
  }

  /** Filtering a list extended by one item extends the view by that item
      exactly when the filter shows its position. */
  lemma ViewAppend(todos: seq<string>, checked: seq<nat>, f: Filter, item: string)
    ensures View(todos + [item], checked, f)
         == View(todos, checked, f) + (if Shows(f, |todos| in checked) then [item] else [])
  {
    assert (todos + [item])[..|todos|] == todos;
  }

  /** The `all` view is the whole list. */
  lemma {:induction false} ViewAll(todos: seq<string>, checked: seq<nat>)
    ensures View(todos, checked, All) == todos
  {
    if todos != [] {
      var n := |todos| - 1;
      ViewAll(todos[..n], checked);
      assert todos == todos[..n] + [todos[n]];
    }
  }

  /** With no completed position, everything is active and nothing completed. */
  lemma {:induction false} ViewNothingChecked(todos: seq<string>)
    ensures View(todos, [], Active) == todos
    ensures View(todos, [], Completed) == []
  {
    if todos != [] {
      var n := |todos| - 1;
      ViewNothingChecked(todos[..n]);
      assert todos == todos[..n] + [todos[n]];
    }
  }

  /** When no completed position names an item, the active view is the
      whole list. */
  lemma {:induction false} ViewActiveUntouched(todos: seq<string>, checked: seq<nat>)
    requires forall i :: i in checked ==> i >= |todos|
    ensures View(todos, checked, Active) == todos
  {
    if todos != [] {
      var n := |todos| - 1;
      ViewActiveUntouched(todos[..n], checked);
      assert todos == todos[..n] + [todos[n]];
    }
  }

  /** One step of the filter: the view of a non-empty list is the view of
      all but its last item, extended by that item when it is shown. */
  lemma ViewSnoc(todos: seq<string>, checked: seq<nat>, f: Filter)
    requires todos != []
    ensures View(todos, checked, f) == View(todos[..|todos| - 1], checked, f)
      + (if Shows(f, |todos| - 1 in checked) then [todos[|todos| - 1]] else [])
  {
  }

  /** The active and the completed views split the list: their items together
      are the list's items. */
  lemma {:induction false} ViewPartition(todos: seq<string>, checked: seq<nat>)
    ensures multiset(View(todos, checked, Active)) + multiset(View(todos, checked, Completed)) == multiset(todos)
  {
    if todos != [] {
      var n := |todos| - 1;
      ViewPartition(todos[..n], checked);
      ViewSnoc(todos, checked, Active);
      ViewSnoc(todos, checked, Completed);
      MultisetSnoc(todos);
    }
  }

  /** The multiset of a non-empty list is that of all but its last item plus
      the last item. */
  lemma MultisetSnoc(s: seq<string>)
    requires s != []
    ensures multiset(s) == multiset(s[..|s| - 1]) + multiset{s[|s| - 1]}
  {
    assert s == s[..|s| - 1] + [s[|s| - 1]];
  }

  /** The lengths of the active and the completed views add up to the
      length of the list. */
  lemma ViewLengths(todos: seq<string>, checked: seq<nat>)
    ensures |View(todos, checked, Active)| + |View(todos, checked, Completed)| == |todos|
  {
    var a, c := View(todos, checked, Active), View(todos, checked, Completed);
    ViewPartition(todos, checked);
    assert |multiset(a) + multiset(c)| == |multiset(todos)|;
  }

  /** The completed view has one item per distinct completed position that
      is in range. */
  lemma CompletedCount(todos: seq<string>, checked: seq<nat>)
    ensures |View(todos, checked, Completed)| == |CompletedPositions(checked, |todos|)|
  {
    var n := |todos|;
    var ks := Kept(n, checked, Completed);
    ViewIsKept(todos, checked, Completed);
    KeptSpec(n, checked, Completed);
    assert NoDup(ks);
    NoDupCardinality(ks);
    assert Elems(ks) == CompletedPositions(checked, n);
  }

  /** The number of active items is the number of items minus the number of
      distinct completed positions that are in range. */
  lemma ActiveCount(todos: seq<string>, checked: seq<nat>)
    ensures |View(todos, checked, Active)| == |todos| - |CompletedPositions(checked, |todos|)|
  {
    ViewLengths(todos, checked);
    CompletedCount(todos, checked);
  }
}
