/**
 * The habit list of src/App.tsx and the four handlers that replace it:
 * create (append), edit (merge the form fields into the habit being
 * edited), delete (filter by id) and toggle (flip one date of one habit).
 *
 * The new list each handler computes is a pure function here; `HabitStore`
 * holds the `habits` and `editingHabit` state slots and its methods
 * replace them as `setHabits` and `setEditingHabit` do.
 */
module App {
  import opened HabitTypes
  import opened HabitUtils

  datatype Option<T> = None | Some(value: T)

  /** The fields the habit form submits: everything but id, createdAt and completions. */
  datatype HabitData = HabitData(name: string, category: HabitCategory, color: string)

  /** No two habits of the list share an id. */
  predicate UniqueIds(habits: seq<Habit>) {
    forall i, j :: 0 <= i < j < |habits| ==> habits[i].id != habits[j].id
  }

  /** Some habit of the list has id `id`. */
  predicate HasId(habits: seq<Habit>, id: string) {
    exists i :: 0 <= i < |habits| && habits[i].id == id
  }

  // ---------------------------------------------------------------------
  // handleCreateHabit (App.tsx lines 25-33)
  // ---------------------------------------------------------------------

  /** `[...prev, newHabit]`, the new habit carrying the caller-supplied id and timestamp. */
  function Created(habits: seq<Habit>, data: HabitData, id: string, createdAt: string): (r: seq<Habit>)
    ensures |r| == |habits| + 1 && r[..|habits|] == habits
    ensures r[|habits|].id == id && r[|habits|].createdAt == createdAt && r[|habits|].completions == map[]
    ensures r[|habits|].name == data.name && r[|habits|].category == data.category && r[|habits|].color == data.color
  {
    habits + [Habit(id, data.name, data.category, data.color, createdAt, map[])]
  }

  /** With a fresh id, create keeps ids unique. */
  lemma CreatedUnique(habits: seq<Habit>, data: HabitData, id: string, createdAt: string)
    requires UniqueIds(habits) && !HasId(habits, id)
    ensures UniqueIds(Created(habits, data, id, createdAt))
  {
    var r := Created(habits, data, id, createdAt);
    forall i, j | 0 <= i < j < |r|
      ensures r[i].id != r[j].id
    {
      if j == |habits| {
        assert r[i] == habits[i];
      } else {
        assert r[i] == habits[i] && r[j] == habits[j];
      }
    }
  }

  // ---------------------------------------------------------------------
  // handleEditHabit (App.tsx lines 35-44)
  // ---------------------------------------------------------------------

  /** `{ ...habit, ...habitData }`: the form fields replace name, category and color. */
  function Merge(h: Habit, data: HabitData): (r: Habit)
    ensures r.id == h.id && r.createdAt == h.createdAt && r.completions == h.completions
    ensures r.name == data.name && r.category == data.category && r.color == data.color
  {
    h.(name := data.name, category := data.category, color := data.color)
  }

  /** `prev.map(habit => habit.id === id ? { ...habit, ...habitData } : habit)`. */
  function Edited(habits: seq<Habit>, id: string, data: HabitData): (r: seq<Habit>)
    ensures |r| == |habits|
    ensures forall i :: 0 <= i < |habits| && habits[i].id == id ==>
              r[i].name == data.name && r[i].category == data.category && r[i].color == data.color
    ensures forall i :: 0 <= i < |habits| ==>
              r[i].id == habits[i].id && r[i].createdAt == habits[i].createdAt &&
              r[i].completions == habits[i].completions
    ensures forall i :: 0 <= i < |habits| && habits[i].id != id ==> r[i] == habits[i]
  {
    if habits == [] then []
    else
      var last := habits[|habits| - 1];
      Edited(habits[..|habits| - 1], id, data) + [if last.id == id then Merge(last, data) else last]
  }

  /** Editing a habit that is not in the list changes nothing. */
  lemma EditedAbsent(habits: seq<Habit>, id: string, data: HabitData)
    requires !HasId(habits, id)
    ensures Edited(habits, id, data) == habits
  {
    var r := Edited(habits, id, data);
    assert forall i :: 0 <= i < |habits| ==> r[i] == habits[i];
  }

  /** Edit keeps every id, so it keeps ids unique. */
  lemma EditedUnique(habits: seq<Habit>, id: string, data: HabitData)
    requires UniqueIds(habits)
    ensures UniqueIds(Edited(habits, id, data))
  {
  }

  // ---------------------------------------------------------------------
  // handleDeleteHabit (App.tsx lines 46-48)
  // ---------------------------------------------------------------------

  /** `prev.filter(habit => habit.id !== habitId)`. */
  function Deleted(habits: seq<Habit>, id: string): (r: seq<Habit>)
    ensures |r| <= |habits|
    ensures forall i :: 0 <= i < |r| ==> r[i].id != id
  {
    if habits == [] then []
    else
      var last := habits[|habits| - 1];
      Deleted(habits[..|habits| - 1], id) + (if last.id == id then [] else [last])
  }

  /** Delete keeps exactly the habits whose id differs. */
  lemma {:induction false} DeletedMembers(habits: seq<Habit>, id: string)
    ensures forall h :: h in Deleted(habits, id) <==> h in habits && h.id != id
  {
    if habits != [] {
      var p := habits[..|habits| - 1];
      DeletedMembers(p, id);
      assert habits == p + [habits[|habits| - 1]];
    }
  }

  /** Filtering distributes over concatenation: the survivors keep their order. */
  lemma {:induction false} DeletedConcat(a: seq<Habit>, b: seq<Habit>, id: string)
    ensures Deleted(a + b, id) == Deleted(a, id) + Deleted(b, id)
    decreases |b|
  {
    if b == [] {
      assert a + b == a;
    } else {
      var b' := b[..|b| - 1];
      assert (a + b)[..|a + b| - 1] == a + b';
      DeletedConcat(a, b', id);
    }
  }

  /** Deleting an id no habit has changes nothing. */
  lemma {:induction false} DeletedAbsent(habits: seq<Habit>, id: string)
    requires !HasId(habits, id)
    ensures Deleted(habits, id) == habits
  {
    if habits != [] {
      var p := habits[..|habits| - 1];
      DeletedAbsent(p, id);
      assert habits == p + [habits[|habits| - 1]];
    }
  }

  /** With unique ids, delete removes exactly the one habit with that id, keeping the others in order. */
  lemma {:induction false} DeletedOne(habits: seq<Habit>, id: string, i: int)
    requires UniqueIds(habits) && 0 <= i < |habits| && habits[i].id == id
    ensures Deleted(habits, id) == habits[..i] + habits[i + 1..]
  {
    var p, last := habits[..|habits| - 1], habits[|habits| - 1];
    if i == |habits| - 1 {
      assert forall j :: 0 <= j < |p| ==> p[j].id != id by {
        forall j | 0 <= j < |p|
          ensures p[j].id != id
        {
          assert p[j] == habits[j];
        }
      }
      DeletedAbsent(p, id);
    } else {
      DeletedOne(p, id, i);
      assert habits[i + 1..] == p[i + 1..] + [last];
    }
  }

  /** Delete keeps ids unique. */
  lemma {:induction false} DeletedUnique(habits: seq<Habit>, id: string)
    requires UniqueIds(habits)
    ensures UniqueIds(Deleted(habits, id))
  {
    if habits != [] {
      var p, last := habits[..|habits| - 1], habits[|habits| - 1];
      DeletedUnique(p, id);
      var r := Deleted(habits, id);
      if last.id != id {
        forall i | 0 <= i < |r| - 1
          ensures r[i].id != last.id
        {
          DeletedMembers(p, id);
          assert r[i] in Deleted(p, id);
          var j :| 0 <= j < |p| && p[j] == r[i];
          assert habits[j] == p[j];
        }
      }
    }
  }

  // ---------------------------------------------------------------------
  // handleToggleCompletion (App.tsx lines 50-62)
  // ---------------------------------------------------------------------

  /** `{ ...completions, [date]: !completions[date] }`; a missing date reads as false. */
  function Toggle(c: map<string, bool>, date: string): (r: map<string, bool>)
    ensures r.Keys == c.Keys + {date}
    ensures Marked(r, date) == !Marked(c, date)
    ensures forall k :: k != date && k in c ==> r[k] == c[k]
  {
    c[date := !Marked(c, date)]
  }

  /** Toggling a date twice restores whether it reads as completed; only that date can have been added. */
  lemma ToggleTwice(c: map<string, bool>, date: string)
    ensures forall k :: Marked(Toggle(Toggle(c, date), date), k) == Marked(c, k)
    ensures Toggle(Toggle(c, date), date).Keys == c.Keys + {date}
  {
  }

  /** A toggle moves the habit's totalCompletions by exactly one. */
  lemma ToggleTotal(c: map<string, bool>, date: string)
    ensures TotalCompletions(Toggle(c, date)) ==
            if Marked(c, date) then TotalCompletions(c) - 1 else TotalCompletions(c) + 1
  {
    if Marked(c, date) {
      TotalUnmark(c, date);
    } else {
      TotalMark(c, date);
    }
  }

  /** `prev.map(habit => habit.id === habitId ? { ...habit, completions: Toggle(...) } : habit)`. */
  function Toggled(habits: seq<Habit>, id: string, date: string): (r: seq<Habit>)
    ensures |r| == |habits|
    ensures forall i :: 0 <= i < |habits| && habits[i].id == id ==>
              r[i] == habits[i].(completions := Toggle(habits[i].completions, date))
    ensures forall i :: 0 <= i < |habits| && habits[i].id != id ==> r[i] == habits[i]
  {
    if habits == [] then []
    else
      var last := habits[|habits| - 1];
      Toggled(habits[..|habits| - 1], id, date) +
      [if last.id == id then last.(completions := Toggle(last.completions, date)) else last]
  }

  /** Toggle keeps every id, so it keeps ids unique. */
  lemma ToggledUnique(habits: seq<Habit>, id: string, date: string)
    requires UniqueIds(habits)
    ensures UniqueIds(Toggled(habits, id, date))
  {
    var r := Toggled(habits, id, date);
    assert forall i :: 0 <= i < |habits| ==> r[i].id == habits[i].id;
  }

  // ---------------------------------------------------------------------
  // The state of the App component
  // ---------------------------------------------------------------------

  /** The `habits` and `editingHabit` state slots of App. */
  class HabitStore {
    var habits: seq<Habit>
    var editing: Option<Habit>

    /** The ids of the list are unique. */
    predicate Valid()
      reads this
    {
      UniqueIds(habits)
    }

    /** The initial state: `useState<Habit[]>([])`, nothing being edited. */
    constructor()
      ensures habits == [] && editing == None && Valid()
    {
      habits := [];
      editing := None;
    }

    /** handleCreateHabit, with the id and timestamp supplied by the caller. */
    method CreateHabit(data: HabitData, id: string, createdAt: string)
      modifies this
      ensures habits == Created(old(habits), data, id, createdAt) && editing == old(editing)
      ensures old(Valid()) && !HasId(old(habits), id) ==> Valid()
    {
      if Valid() && !HasId(habits, id) {
        CreatedUnique(habits, data, id, createdAt);
      }
      habits := Created(habits, data, id, createdAt);
    }

    /** openEditForm: remember the habit the form edits. */
    method OpenEditForm(habit: Habit)
      modifies this
      ensures habits == old(habits) && editing == Some(habit)
    {
      editing := Some(habit);
    }

    /** handleEditHabit: a no-op when nothing is being edited; afterwards nothing is. */
    method EditHabit(data: HabitData)
      modifies this
      ensures old(editing).None? ==> habits == old(habits) && editing == old(editing)
      ensures old(editing).Some? ==> habits == Edited(old(habits), old(editing).value.id, data) && editing == None
      ensures old(Valid()) ==> Valid()
    {
      if editing.None? {
        return;
      }
      if Valid() {
        EditedUnique(habits, editing.value.id, data);
      }
      habits := Edited(habits, editing.value.id, data);
      editing := None;
    }

    /** handleDeleteHabit. */
    method DeleteHabit(id: string)
      modifies this
      ensures habits == Deleted(old(habits), id) && editing == old(editing)
      ensures old(Valid()) ==> Valid()
    {
      if Valid() {
        DeletedUnique(habits, id);
      }
      habits := Deleted(habits, id);
    }

    /** handleToggleCompletion. */
    method ToggleCompletion(id: string, date: string)
      modifies this
      ensures habits == Toggled(old(habits), id, date) && editing == old(editing)
      ensures old(Valid()) ==> Valid()
    {
      if Valid() {
        ToggledUnique(habits, id, date);
      }
      habits := Toggled(habits, id, date);
    }
  }
}
