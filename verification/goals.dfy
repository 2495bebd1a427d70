/** The daily-goals widget: a list of goals `{id, text, completed}` plus the
    editing and add-form state, and the six handlers that change it. Each
    handler is a pure transition from the component state before the event to
    the state after it. */
module DailyGoals {
  import opened Common
  import Text
  import Sequences

  datatype Goal = Goal(id: int, text: string, completed: bool)

  /** The component's `useState` cells. `editingId` is `null` when no goal is
      being edited. */
  datatype GoalsState = GoalsState(
    goals: seq<Goal>,
    editingId: Option<int>,
    editText: string,
    showAddForm: bool,
    newGoalText: string)

  const InitialState := GoalsState(
    [ Goal(1, "Practice mindfulness daily", false),
      Goal(2, "Write in journal", false),
      Goal(3, "Exercise for 30 minutes", false) ],
    None, "", false, "")

  predicate DistinctIds(goals: seq<Goal>) {
    forall i, j :: 0 <= i < j < |goals| ==> goals[i].id != goals[j].id
  }

  /** `a` and `b` hold the same ids in the same order. */
  predicate SameIdsAndOrder(a: seq<Goal>, b: seq<Goal>) {
    |a| == |b| && forall i :: 0 <= i < |a| ==> a[i].id == b[i].id
  }

  /** `toggleGoal(id)`: flips `completed` on the goals whose id is `id`. */
  function ToggleGoal(st: GoalsState, id: int): (r: GoalsState)
    ensures r == st.(goals := r.goals)
    ensures SameIdsAndOrder(r.goals, st.goals)
    ensures forall i :: 0 <= i < |st.goals| ==>
      r.goals[i].text == st.goals[i].text
      && (r.goals[i].completed <==> (st.goals[i].id == id) != st.goals[i].completed)
  {
    var gs := st.goals;
    st.(goals := seq(|gs|, i requires 0 <= i < |gs| =>
          if gs[i].id == id then gs[i].(completed := !gs[i].completed) else gs[i]))
  }

  /** Toggling the same goal twice restores the state. */
  lemma ToggleTwice(st: GoalsState, id: int)
    ensures ToggleGoal(ToggleGoal(st, id), id) == st
  {
    var r := ToggleGoal(ToggleGoal(st, id), id);
    assert forall i :: 0 <= i < |st.goals| ==> r.goals[i] == st.goals[i];
  }

  predicate IdIsNot(id: int, g: Goal) { g.id != id }

  /** `deleteGoal(id)`: removes the goals whose id is `id`. */
  function DeleteGoal(st: GoalsState, id: int): (r: GoalsState)
    ensures r == st.(goals := r.goals)
    ensures forall g :: g in r.goals <==> g in st.goals && g.id != id
    ensures Sequences.IsSubsequence(r.goals, st.goals)
  {
    Sequences.FilterIsSubsequence(st.goals, g => IdIsNot(id, g));
    st.(goals := Sequences.Filter(st.goals, g => IdIsNot(id, g)))
  }

  /** The number of goals with id `id`. */
  function CountId(goals: seq<Goal>, id: int): nat {
    if |goals| == 0 then 0
    else (if goals[0].id == id then 1 else 0) + CountId(goals[1..], id)
  }

  lemma {:induction false} DeleteCount(goals: seq<Goal>, id: int)
    ensures |Sequences.Filter(goals, g => IdIsNot(id, g))| == |goals| - CountId(goals, id)
    decreases |goals|
  {
    if |goals| > 0 {
      DeleteCount(goals[1..], id);
    }
  }

  lemma {:induction false} CountDistinct(goals: seq<Goal>, id: int)
    requires DistinctIds(goals)
    ensures CountId(goals, id) <= 1
    ensures CountId(goals, id) == 1 <==> exists i :: 0 <= i < |goals| && goals[i].id == id
    decreases |goals|
  {
    if |goals| > 0 {
      CountDistinct(goals[1..], id);
      if goals[0].id == id {
        assert forall i :: 0 <= i < |goals[1..]| ==> goals[1..][i] == goals[i + 1];
      }
      if exists i :: 0 <= i < |goals| && goals[i].id == id {
        var i :| 0 <= i < |goals| && goals[i].id == id;
        if i > 0 {
          assert goals[1..][i - 1].id == id;
        }
      }
      if exists i :: 0 <= i < |goals[1..]| && goals[1..][i].id == id {
        var i :| 0 <= i < |goals[1..]| && goals[1..][i].id == id;
        assert goals[i + 1].id == id;
      }
    }
  }

  /** With distinct ids, deleting an existing id removes exactly one goal and
      deleting an unknown id removes none. */
  lemma DeleteRemovesOne(st: GoalsState, id: int)
    requires DistinctIds(st.goals)
    ensures (exists i :: 0 <= i < |st.goals| && st.goals[i].id == id)
              ==> |DeleteGoal(st, id).goals| == |st.goals| - 1
    ensures (forall i :: 0 <= i < |st.goals| ==> st.goals[i].id != id)
              ==> DeleteGoal(st, id).goals == st.goals
  {
    DeleteCount(st.goals, id);
    CountDistinct(st.goals, id);
    if forall i :: 0 <= i < |st.goals| ==> st.goals[i].id != id {
      FilterKeepsAll(st.goals, id);
    }
  }

  lemma {:induction false} FilterKeepsAll(goals: seq<Goal>, id: int)
    requires forall i :: 0 <= i < |goals| ==> goals[i].id != id
    ensures Sequences.Filter(goals, g => IdIsNot(id, g)) == goals
    decreases |goals|
  {
    if |goals| > 0 {
      FilterKeepsAll(goals[1..], id);
    }
  }

  /** `startEdit(goal)`: remembers which goal is edited and preloads its text. */
  function StartEdit(st: GoalsState, goal: Goal): (r: GoalsState)
    ensures r.goals == st.goals && r.showAddForm == st.showAddForm && r.newGoalText == st.newGoalText
    ensures r.editingId == Some(goal.id) && r.editText == goal.text
  {
    st.(editingId := Some(goal.id), editText := goal.text)
  }

  /** `saveEdit()`: with a non-blank edit text, replaces the text of the edited
      goal by the trimmed text and leaves editing mode; a blank text changes
      nothing. A `null` editing id matches no goal. */
  function SaveEdit(st: GoalsState): (r: GoalsState)
    ensures Text.IsBlank(st.editText) ==> r == st
    ensures !Text.IsBlank(st.editText) ==>
      && r.editingId == None && r.editText == ""
      && r.showAddForm == st.showAddForm && r.newGoalText == st.newGoalText
      && SameIdsAndOrder(r.goals, st.goals)
      && forall i :: 0 <= i < |st.goals| ==>
           r.goals[i].completed == st.goals[i].completed
           && r.goals[i].text == (if Some(st.goals[i].id) == st.editingId then Text.Trim(st.editText)
                                  else st.goals[i].text)
  {
    var text := Text.Trim(st.editText);
    if text != "" then
      var gs := st.goals;
      st.(goals := seq(|gs|, i requires 0 <= i < |gs| =>
                      if Some(gs[i].id) == st.editingId then gs[i].(text := text) else gs[i]),
          editingId := None,
          editText := "")
    else st
  }

  /** `cancelEdit()`: leaves editing mode without touching the goals. */
  function CancelEdit(st: GoalsState): (r: GoalsState)
    ensures r.goals == st.goals && r.showAddForm == st.showAddForm && r.newGoalText == st.newGoalText
    ensures r.editingId == None && r.editText == ""
  {
    st.(editingId := None, editText := "")
  }

  /** `Math.max(0, ...ids) + 1`: one more than the largest id, or 1 for no goals. */
  function NextId(goals: seq<Goal>): (r: int)
    ensures r >= 1
    ensures forall i :: 0 <= i < |goals| ==> goals[i].id < r
    ensures r == 1 || exists i :: 0 <= i < |goals| && goals[i].id == r - 1
    decreases |goals|
  {
    if |goals| == 0 then 1
    else
      var rest := NextId(goals[..|goals| - 1]);
      var last := goals[|goals| - 1].id;
      if last + 1 > rest then last + 1 else rest
  }

  /** `addGoal()`: appends one uncompleted goal with the trimmed text and a
      fresh id, then clears and closes the form; blank text changes nothing. */
  function AddGoal(st: GoalsState): (r: GoalsState)
    ensures Text.IsBlank(st.newGoalText) ==> r == st
    ensures !Text.IsBlank(st.newGoalText) ==>
      && |r.goals| == |st.goals| + 1
      && r.goals[..|st.goals|] == st.goals
      && r.goals[|st.goals|].text == Text.Trim(st.newGoalText)
      && !r.goals[|st.goals|].completed
      && (forall i :: 0 <= i < |st.goals| ==> st.goals[i].id < r.goals[|st.goals|].id)
      && r.newGoalText == "" && !r.showAddForm
      && r.editingId == st.editingId && r.editText == st.editText
  {
    var text := Text.Trim(st.newGoalText);
    if text != "" then
      st.(goals := st.goals + [Goal(NextId(st.goals), text, false)],
          newGoalText := "",
          showAddForm := false)
    else st
  }

  /** Every handler keeps the goal ids pairwise distinct. Starting and
      cancelling an edit leave the list itself unchanged. */
  lemma ToggleKeepsIdsDistinct(st: GoalsState, id: int)
    requires DistinctIds(st.goals)
    ensures DistinctIds(ToggleGoal(st, id).goals)
  {
    SameIdsDistinct(ToggleGoal(st, id).goals, st.goals);
  }

  lemma DeleteKeepsIdsDistinct(st: GoalsState, id: int)
    requires DistinctIds(st.goals)
    ensures DistinctIds(DeleteGoal(st, id).goals)
  {
    SubsequenceDistinct(DeleteGoal(st, id).goals, st.goals);
  }

  lemma SaveEditKeepsIdsDistinct(st: GoalsState)
    requires DistinctIds(st.goals)
    ensures DistinctIds(SaveEdit(st).goals)
  {
    if !Text.IsBlank(st.editText) {
      SameIdsDistinct(SaveEdit(st).goals, st.goals);
    }
  }

  lemma AddKeepsIdsDistinct(st: GoalsState)
    requires DistinctIds(st.goals)
    ensures DistinctIds(AddGoal(st).goals)
  {
    if !Text.IsBlank(st.newGoalText) {
      var r := AddGoal(st).goals;
      assert forall i :: 0 <= i < |st.goals| ==> r[i] == st.goals[i];
    }
  }

  lemma SameIdsDistinct(a: seq<Goal>, b: seq<Goal>)
    requires SameIdsAndOrder(a, b) && DistinctIds(b)
    ensures DistinctIds(a)
  {
  }

  lemma {:induction false} SubsequenceDistinct(a: seq<Goal>, b: seq<Goal>)
    requires Sequences.IsSubsequence(a, b) && DistinctIds(b)
    ensures DistinctIds(a)
    decreases |b|
  {
    if |a| > 0 && |b| > 0 {
      assert DistinctIds(b[1..]) by {
        forall i, j | 0 <= i < j < |b[1..]| ensures b[1..][i].id != b[1..][j].id {
          assert b[1..][i] == b[i + 1] && b[1..][j] == b[j + 1];
        }
      }
      if a[0] == b[0] {
        SubsequenceDistinct(a[1..], b[1..]);
        SubsequenceMembers(a[1..], b[1..]);
        forall j | 0 < j < |a| ensures a[0].id != a[j].id {
          assert a[1..][j - 1] == a[j];
          var k :| 0 <= k < |b[1..]| && b[1..][k] == a[j];
          assert b[k + 1] == a[j];
        }
        forall i, j | 0 <= i < j < |a| ensures a[i].id != a[j].id {
          if i > 0 {
            assert a[1..][i - 1] == a[i] && a[1..][j - 1] == a[j];
          }
        }
      } else {
        SubsequenceDistinct(a, b[1..]);
      }
    }
  }

  lemma {:induction false} SubsequenceMembers(a: seq<Goal>, b: seq<Goal>)
    requires Sequences.IsSubsequence(a, b)
    ensures forall i :: 0 <= i < |a| ==> a[i] in b
    decreases |b|
  {
    if |a| > 0 && |b| > 0 {
      if a[0] == b[0] {
        SubsequenceMembers(a[1..], b[1..]);
        forall i | 0 < i < |a| ensures a[i] in b {
          assert a[1..][i - 1] == a[i];
        }
      } else {
        SubsequenceMembers(a, b[1..]);
      }
    }
  }

  lemma InitialIdsDistinct()
    ensures DistinctIds(InitialState.goals)
  {
  }
}
