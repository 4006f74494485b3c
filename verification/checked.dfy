/**
  The list of completed positions (`checked` in the component) and the
  toggle that the row click handler applies to it.

  The component keeps the positions in a JavaScript number array and treats
  it as a set: `indexOf` looks a position up, `push` adds it at the end and
  `splice(i, 1)` removes the element found.
 */
module CheckedList {

  /** No position occurs twice: the array really is a set. */
  predicate NoDup(s: seq<nat>) {
    forall i, j :: 0 <= i < j < |s| ==> s[i] != s[j]
  }

  /** The positions the list holds, as a set. */
  function Elems(s: seq<nat>): set<nat> {
    set x | x in s
  }

  /** `Array.prototype.indexOf`: the position of the first occurrence of `v`,
      or -1 when `v` does not occur. */
  function IndexOf(s: seq<nat>, v: nat): (r: int)
    ensures -1 <= r < |s|
    ensures r == -1 <==> v !in s
    ensures 0 <= r ==> s[r] == v && v !in s[..r]
  {
    if |s| == 0 then -1
    else if s[0] == v then 0
    else
      var k := IndexOf(s[1..], v);
      assert k >= 0 ==> s[..k + 1] == [s[0]] + s[1..][..k];
      if k == -1 then -1 else k + 1
  }

  /** The click handler's update of `checked`: an absent position is appended;
      a present one has its first occurrence cut out, the rest kept in order.
      On a duplicate-free list this flips the membership of `v` alone. */
  function Toggle(checked: seq<nat>, v: nat): (r: seq<nat>)
    ensures v !in checked ==> r == checked + [v]
    ensures v in checked ==>
      exists i :: 0 <= i < |checked| && checked[i] == v && v !in checked[..i] && r == checked[..i] + checked[i + 1..]
    ensures v in checked ==> multiset(r) == multiset(checked) - multiset{v}
    ensures v !in checked ==> multiset(r) == multiset(checked) + multiset{v}
    ensures NoDup(checked) ==> NoDup(r) && forall x :: x in r <==> (x in checked <==> x != v)
  {
    var i := IndexOf(checked, v);
    if i == -1 then
      AppendNoDup(checked, v);
      checked + [v]
    else
      CutMultiset(checked, i);
      CutNoDup(checked, i);
      checked[..i] + checked[i + 1..]
  }

  /** Appending an absent position keeps a list duplicate-free. */
  lemma AppendNoDup(s: seq<nat>, v: nat)
    requires v !in s
    ensures NoDup(s) ==> NoDup(s + [v])
  {
  }

  /** Cutting out the element at `i` removes one copy of it. */
  lemma CutMultiset(s: seq<nat>, i: nat)
    requires i < |s|
    ensures multiset(s[..i] + s[i + 1..]) == multiset(s) - multiset{s[i]}
  {
    assert s == s[..i] + [s[i]] + s[i + 1..];
  }

  /** Cutting an element out of a duplicate-free list keeps it duplicate-free
      and removes exactly that value. */
  lemma CutNoDup(s: seq<nat>, i: nat)
    requires i < |s|
    ensures NoDup(s) ==> NoDup(s[..i] + s[i + 1..])
    ensures NoDup(s) ==> forall x :: x in s[..i] + s[i + 1..] <==> x in s && x != s[i]
  {
    if !NoDup(s) {
      return;
    }
    var r := s[..i] + s[i + 1..];
    assert forall j :: 0 <= j < |r| ==> r[j] == s[if j < i then j else j + 1];
    forall x
      ensures x in r <==> x in s && x != s[i]
    {
      if x in s && x != s[i] {
        var j :| 0 <= j < |s| && s[j] == x;
        assert r[if j < i then j else j - 1] == x;
      }
    }
  }

  /** The set of a non-empty list is its head added to the set of its tail. */
  lemma ElemsCons(s: seq<nat>)
    requires s != []
    ensures Elems(s) == {s[0]} + Elems(s[1..])
  {
    assert s == [s[0]] + s[1..];
  }

  /** The tail of a duplicate-free list is duplicate-free and lacks the head. */
  lemma NoDupTail(s: seq<nat>)
    requires s != [] && NoDup(s)
    ensures NoDup(s[1..]) && s[0] !in s[1..]
  {
    var t := s[1..];
    forall i, j | 0 <= i < j < |t|
      ensures t[i] != t[j]
    {
      assert t[i] == s[i + 1] && t[j] == s[j + 1];
    }
  }

  /** The number of distinct positions of a duplicate-free list is its length. */
  lemma {:induction false} NoDupCardinality(s: seq<nat>)
    requires NoDup(s)
    ensures |Elems(s)| == |s|
  {
    if s == [] {
      assert Elems(s) == {};
    } else {
      NoDupTail(s);
      NoDupCardinality(s[1..]);
      ElemsCons(s);
      assert s[0] !in Elems(s[1..]);
    }
  }

  /** Toggling an absent position twice gives back the very same list. */
  lemma ToggleAbsentTwice(checked: seq<nat>, v: nat)
    requires v !in checked
    ensures Toggle(Toggle(checked, v), v) == checked
  {
    var once := checked + [v];
    assert once[..|checked|] == checked;
    assert IndexOf(once, v) == |checked|;
  }

  /** Toggling a position of a duplicate-free list twice gives back the same
      multiset, so the same set. */
  lemma ToggleNoDupTwice(checked: seq<nat>, v: nat)
    requires NoDup(checked)
    ensures multiset(Toggle(Toggle(checked, v), v)) == multiset(checked)
  {
    if v !in checked {
      ToggleAbsentTwice(checked, v);
    } else {
      var once := Toggle(checked, v);
      assert v !in once;
    }
  }

  /** Toggling the same position twice restores `checked` exactly when the
      position was absent, and up to order when the list is duplicate-free
      (with a duplicated `v` the second toggle would cut a second copy). */
  lemma ToggleTwice(checked: seq<nat>, v: nat)
    ensures v !in checked ==> Toggle(Toggle(checked, v), v) == checked
    ensures NoDup(checked) ==> multiset(Toggle(Toggle(checked, v), v)) == multiset(checked)
    ensures NoDup(checked) ==> forall x :: x in Toggle(Toggle(checked, v), v) <==> x in checked
  {
    if v !in checked {
      ToggleAbsentTwice(checked, v);
    }
    if NoDup(checked) {
      ToggleNoDupTwice(checked, v);
      var twice := Toggle(Toggle(checked, v), v);
      forall x
        ensures x in twice <==> x in checked
      {
        assert x in twice <==> x in multiset(twice);
        assert x in checked <==> x in multiset(checked);
      }
    }
  }
}
