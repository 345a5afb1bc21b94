/** The list logic of the todo application: the items, the display mode, the
    pure updates the store applies to the list and the views derived from it
    (src/App.tsx). Every update is a function from the old list to the new
    one; the store that holds the list is in module TodoStore. */
module TodoList {
  import opened Strings
  import opened Sequences

  /** One item of the list. */
  datatype Todo = Todo(id: nat, title: string, completed: bool)

  /** The display mode held by the `showMode` signal. The source casts the
      text of the location hash to a mode without checking it, so any other
      non-empty text can be the mode too; it is kept as Unrecognised. */
  datatype Mode = All | Active | Completed | Unrecognised(text: string)

  predicate IsDone(t: Todo) { t.completed }

  predicate IsActive(t: Todo) { !t.completed }

  // ---------------------------------------------------------------------
  // The invariant the store keeps

  /** Ids strictly increase along the list. */
  ghost predicate IdsIncreasing(s: seq<Todo>) {
    forall i, j :: 0 <= i < j < |s| ==> s[i].id < s[j].id
  }

  /** Every id is below the next id the counter will hand out. */
  ghost predicate IdsBelow(s: seq<Todo>, counter: nat) {
    forall i :: 0 <= i < |s| ==> s[i].id < counter
  }

  /** Every title is non-empty and has no white space at either end. */
  ghost predicate TitlesTrimmed(s: seq<Todo>) {
    forall i :: 0 <= i < |s| ==> s[i].title != [] && IsTrimmed(s[i].title)
  }

  ghost predicate WellFormed(s: seq<Todo>, counter: nat) {
    IdsIncreasing(s) && IdsBelow(s, counter) && TitlesTrimmed(s)
  }

  predicate HasId(s: seq<Todo>, id: int) {
    exists i :: 0 <= i < |s| && s[i].id == id
  }

  /** `r` has the items of `s` in the same order with the same ids and
      titles: at most the completed flags differ. */
  ghost predicate SameExceptCompleted(r: seq<Todo>, s: seq<Todo>) {
    |r| == |s| && forall i :: 0 <= i < |s| ==> r[i].id == s[i].id && r[i].title == s[i].title
  }

  /** Ids increasing in list order makes them pairwise distinct. */
  lemma IdsIncreasingUnique(s: seq<Todo>, i: int, j: int)
    requires IdsIncreasing(s) && 0 <= i < |s| && 0 <= j < |s| && s[i].id == s[j].id
    ensures i == j
  {
  }

  /** A subsequence of a well-formed list is well formed under the same
      counter: deleting items never breaks the invariant. */
  lemma SubsequenceWellFormed(r: seq<Todo>, s: seq<Todo>, counter: nat)
    requires IsSubsequence(r, s) && WellFormed(s, counter)
    ensures WellFormed(r, counter)
  {
    var idx :| IsEmbedding(idx, r, s);
    forall i, j | 0 <= i < j < |r| ensures r[i].id < r[j].id {
      assert r[i] == s[idx[i]] && r[j] == s[idx[j]];
    }
    forall i | 0 <= i < |r| ensures r[i].id < counter && r[i].title != [] && IsTrimmed(r[i].title) {
      assert r[i] == s[idx[i]];
    }
  }

  /** Changing completed flags never breaks the invariant. */
  lemma SameExceptCompletedWellFormed(r: seq<Todo>, s: seq<Todo>, counter: nat)
    requires SameExceptCompleted(r, s) && WellFormed(s, counter)
    ensures WellFormed(r, counter)
  {
  }

  // ---------------------------------------------------------------------
  // remainingCount

  /** The number of items left to do, computed as the source does: the
      length minus the number of completed items. It is the number of
      active items, so it lies in 0..|s|. */
  function RemainingCount(s: seq<Todo>): (n: int)
    ensures n == |Filter(s, IsActive)|
    ensures 0 <= n <= |s|
  {
    FilterComplement(s, IsActive, IsDone);
    |s| - |Filter(s, IsDone)|
  }

  /** The toggle-all checkbox is ticked (the remaining count is 0) exactly
      when every item is completed; the remaining count is the length
      exactly when no item is. */
  lemma RemainingCountExtremes(s: seq<Todo>)
    ensures RemainingCount(s) == 0 <==> forall i :: 0 <= i < |s| ==> s[i].completed
    ensures RemainingCount(s) == |s| <==> forall i :: 0 <= i < |s| ==> !s[i].completed
  {
    if forall i :: 0 <= i < |s| ==> s[i].completed {
      FilterKeepsNone(s, IsActive);
    }
    if forall i :: 0 <= i < |s| ==> !s[i].completed {
      FilterKeepsAll(s, IsActive);
    }
  }

  // ---------------------------------------------------------------------
  // addTodo: the list update

  /** Appending an item with the counter's id and a trimmed title, then
      bumping the counter, keeps the list well formed. */
  lemma {:induction false} AppendWellFormed(s: seq<Todo>, counter: nat, title: string)
    requires WellFormed(s, counter) && title != [] && IsTrimmed(title)
    ensures WellFormed(s + [Todo(counter, title, false)], counter + 1)
  {
    var r := s + [Todo(counter, title, false)];
    forall i | 0 <= i < |r| ensures r[i].id < counter + 1 && r[i].title != [] && IsTrimmed(r[i].title) {
      if i < |s| { assert r[i] == s[i]; }
    }
    forall i, j | 0 <= i < j < |r| ensures r[i].id < r[j].id {
      assert r[i] == s[i];
    }
  }

  /** Appending an active item raises the remaining count by one. */
  lemma RemainingAfterAppend(s: seq<Todo>, t: Todo)
    requires !t.completed
    ensures RemainingCount(s + [t]) == RemainingCount(s) + 1
  {
    FilterSnoc(s, t, IsDone);
  }

  // ---------------------------------------------------------------------
  // toggleTodo

  /** The list after flipping the completed flag of every item whose id is
      `id`. */
  function Toggled(s: seq<Todo>, id: int): (r: seq<Todo>)
    ensures SameExceptCompleted(r, s)
    ensures forall i :: 0 <= i < |s| ==> (r[i].completed != s[i].completed <==> s[i].id == id)
  {
    seq(|s|, i requires 0 <= i < |s| =>
      if s[i].id == id then s[i].(completed := !s[i].completed) else s[i])
  }

  /** Toggling the same id twice restores the list. */
  lemma ToggleTwice(s: seq<Todo>, id: int)
    ensures Toggled(Toggled(s, id), id) == s
  {
  }

  /** Toggling an id that is not in the list changes nothing. */
  lemma ToggleAbsent(s: seq<Todo>, id: int)
    requires !HasId(s, id)
    ensures Toggled(s, id) == s
  {
  }

  /** With distinct ids, toggling a present id flips exactly one item. */
  lemma ToggleFlipsOne(s: seq<Todo>, id: int) returns (k: nat)
    requires IdsIncreasing(s) && HasId(s, id)
    ensures k < |s| && s[k].id == id
    ensures Toggled(s, id) == s[k := s[k].(completed := !s[k].completed)]
  {
    k :| 0 <= k < |s| && s[k].id == id;
    forall i | 0 <= i < |s| && s[i].id == id ensures i == k {
      IdsIncreasingUnique(s, i, k);
    }
  }

  // ---------------------------------------------------------------------
  // remove

  /** The test `remove` filters with: the item's id is not `id`. */
  function IdDiffers(id: int): Todo -> bool {
    (t: Todo) => t.id != id
  }

  /** The list without the items whose id is `id`. */
  function RemoveById(s: seq<Todo>, id: int): (r: seq<Todo>)
    ensures forall i :: 0 <= i < |r| ==> r[i].id != id && r[i] in s
    ensures forall i :: 0 <= i < |s| && s[i].id != id ==> s[i] in r
  {
    Filter(s, IdDiffers(id))
  }

  /** Removal keeps the other items in their order. */
  lemma RemoveIsSubsequence(s: seq<Todo>, id: int)
    ensures IsSubsequence(RemoveById(s, id), s)
  {
    FilterIsSubsequence(s, IdDiffers(id));
  }

  /** Removing an id that is not in the list leaves the list identical. */
  lemma RemoveAbsent(s: seq<Todo>, id: int)
    requires !HasId(s, id)
    ensures RemoveById(s, id) == s
  {
    FilterKeepsAll(s, IdDiffers(id));
  }

  /** An id occurs in a list with one more item exactly when it occurs in
      the shorter list or is the id of the new item. */
  lemma HasIdSnoc(s: seq<Todo>, t: Todo, id: int)
    ensures HasId(s + [t], id) <==> HasId(s, id) || t.id == id
  {
    var r := s + [t];
    if HasId(r, id) {
      var i :| 0 <= i < |r| && r[i].id == id;
      if i < |s| { assert s[i] == r[i]; }
    }
    if HasId(s, id) {
      var i :| 0 <= i < |s| && s[i].id == id;
      assert r[i] == s[i];
    }
    assert r[|s|] == t;
  }

  /** With increasing ids, removal deletes one item when the id is present
      and none otherwise. */
  lemma {:induction false} RemoveLength(s: seq<Todo>, id: int)
    requires IdsIncreasing(s)
    ensures |RemoveById(s, id)| == if HasId(s, id) then |s| - 1 else |s|
  {
    if s != [] {
      var n := |s| - 1;
      var init, last := s[..n], s[n];
      assert s == init + [last];
      assert IdsIncreasing(init);
      FilterSnoc(init, last, IdDiffers(id));
      HasIdSnoc(init, last, id);
      if last.id == id {
        assert !HasId(init, id) by {
          forall i | 0 <= i < |init| ensures init[i].id != id {
            assert init[i] == s[i];
          }
        }
        RemoveAbsent(init, id);
      } else {
        RemoveLength(init, id);
      }
    }
  }

  // ---------------------------------------------------------------------
  // toggleAll

  /** The list with every completed flag set to `completed`. */
  function SetAllCompleted(s: seq<Todo>, completed: bool): (r: seq<Todo>)
    ensures SameExceptCompleted(r, s)
    ensures forall i :: 0 <= i < |r| ==> r[i].completed == completed
  {
    seq(|s|, i requires 0 <= i < |s| => s[i].(completed := completed))
  }

  /** After toggle-all the remaining count is 0 when everything was marked
      completed, and the whole length when everything was marked active. */
  lemma RemainingAfterSetAll(s: seq<Todo>, completed: bool)
    ensures RemainingCount(SetAllCompleted(s, completed)) == if completed then 0 else |s|
  {
    var r := SetAllCompleted(s, completed);
    if completed {
      FilterKeepsAll(r, IsDone);
    } else {
      FilterKeepsNone(r, IsDone);
    }
  }

  /** Setting all flags to one value and then to another is the same as
      setting them to the second value directly. */
  lemma SetAllTwice(s: seq<Todo>, first: bool, second: bool)
    ensures SetAllCompleted(SetAllCompleted(s, first), second) == SetAllCompleted(s, second)
  {
  }

  // ---------------------------------------------------------------------
  // clearCompleted

  /** The list without its completed items. */
  function ClearCompleted(s: seq<Todo>): (r: seq<Todo>)
    ensures forall i :: 0 <= i < |r| ==> !r[i].completed && r[i] in s
    ensures forall i :: 0 <= i < |s| && !s[i].completed ==> s[i] in r
  {
    Filter(s, IsActive)
  }

  /** Clearing keeps the active items in order, leaves exactly as many items
      as were remaining, and doing it twice is doing it once. */
  lemma ClearCompletedProperties(s: seq<Todo>)
    ensures IsSubsequence(ClearCompleted(s), s)
    ensures |ClearCompleted(s)| == RemainingCount(s)
    ensures ClearCompleted(ClearCompleted(s)) == ClearCompleted(s)
    ensures RemainingCount(ClearCompleted(s)) == RemainingCount(s)
  {
    FilterIsSubsequence(s, IsActive);
    FilterIdempotent(s, IsActive);
  }

  // ---------------------------------------------------------------------
  // filterTodos

  /** The items shown in a mode: active ones, completed ones, or, for "all"
      and any unrecognised mode, the whole list. */
  function FilterTodos(s: seq<Todo>, mode: Mode): (r: seq<Todo>)
    ensures |r| <= |s|
  {
    match mode
    case Active => Filter(s, IsActive)
    case Completed => Filter(s, IsDone)
    case _ => s
  }

  /** Every view keeps its items in list order; "active" shows exactly the
      items not completed, "completed" exactly the completed ones, and every
      other mode shows the list itself. */
  lemma FilterTodosSpec(s: seq<Todo>, mode: Mode)
    ensures IsSubsequence(FilterTodos(s, mode), s)
    ensures mode == Active ==> forall t :: t in FilterTodos(s, mode) <==> t in s && !t.completed
    ensures mode == Completed ==> forall t :: t in FilterTodos(s, mode) <==> t in s && t.completed
    ensures mode != Active && mode != Completed ==> FilterTodos(s, mode) == s
  {
    match mode
    case Active => FilterIsSubsequence(s, IsActive);
    case Completed => FilterIsSubsequence(s, IsDone);
    case _ => assert IsEmbedding(seq(|s|, i => i), s, s);
  }

  /** The "active" and "completed" views split the list, and the "active"
      view is as long as the remaining count. */
  lemma ViewCounts(s: seq<Todo>)
    ensures |FilterTodos(s, Active)| + |FilterTodos(s, Completed)| == |s|
    ensures |FilterTodos(s, Active)| == RemainingCount(s)
  {
    FilterComplement(s, IsActive, IsDone);
  }

  // ---------------------------------------------------------------------
  // locationHandler: the hash fragment selects the mode

  /** The text the `showMode` signal holds for a mode. The text of a
      well-formed mode is never empty, and it is one of the three names of
      the mode type exactly when the mode is not Unrecognised. */
  function ModeName(m: Mode): (r: string)
    ensures ValidMode(m) ==> r != ""
    ensures ValidMode(m) ==> (m.Unrecognised? <==> r != "all" && r != "active" && r != "completed")
  {
    match m
    case All => "all"
    case Active => "active"
    case Completed => "completed"
    case Unrecognised(text) => text
  }

  /** An Unrecognised mode never carries the empty text or one of the three
      names. */
  predicate ValidMode(m: Mode) {
    m.Unrecognised? ==> m.text != "" && m.text != "all" && m.text != "active" && m.text != "completed"
  }

  /** The mode whose text is `name`. */
  function ModeOf(name: string): (m: Mode)
    requires name != ""
    ensures ValidMode(m) && ModeName(m) == name
  {
    if name == "all" then All
    else if name == "active" then Active
    else if name == "completed" then Completed
    else Unrecognised(name)
  }

  /** A mode is determined by its text. */
  lemma ModeOfName(m: Mode)
    requires ValidMode(m)
    ensures ModeName(m) != "" && ModeOf(ModeName(m)) == m
  {
  }

  /** The mode selected by the location hash: the text after its first two
      characters (`#/`), or "all" when that text is empty. */
  function HashToMode(hash: string): (m: Mode)
    ensures ValidMode(m)
    ensures ModeName(m) == if |hash| <= 2 then "all" else hash[2..]
  {
    var urlMode := if |hash| <= 2 then "" else hash[2..];
    ModeOf(if urlMode == "" then "all" else urlMode)
  }

  /** The three filter links select the modes they are named after. */
  lemma FilterLinksSelectModes()
    ensures HashToMode("#/") == All
    ensures HashToMode("#/active") == Active
    ensures HashToMode("#/completed") == Completed
  {
  }

  /** Any hash other than those of the "active" and "completed" links shows
      the whole list. */
  lemma OtherHashShowsAll(s: seq<Todo>, hash: string)
    requires |hash| <= 2 || (hash[2..] != "active" && hash[2..] != "completed")
    ensures FilterTodos(s, HashToMode(hash)) == s
  {
  }
}
