/**
 * The program's one piece of state, the `tasks` dictionary from a category name
 * to that category's ordered list of tasks, with the four button callbacks that
 * act on it (Add Task, Toggle Task, Delete Task, View Details) and the loop of
 * "Show Tasks" that fills the list box.
 *
 * The category is whatever the combo box holds when a button is pressed, so it
 * is a parameter of every operation; any string may be typed there. The list-box
 * selection `curselection()` is an `Option<nat>`: `None` when no row is selected.
 */
module Store {
  import opened Validation
  import opened Tasks

  /** The sample data the store starts with. */
  function Seed(): map<string, seq<Task>>
  {
    map[
      "House" := [Task("Clean the house", false), Task("Do laundry", false)],
      "School" := [Task("Finish homework", false), Task("Study for exam", false)],
      "Gym" := [Task("Curl Ups exercise", false)]
    ]
  }

  /** The seed holds exactly the three categories, with two, two and one open tasks. */
  lemma SeedShape()
    ensures Seed().Keys == {"House", "School", "Gym"}
    ensures |Seed()["House"]| == 2 && |Seed()["School"]| == 2 && |Seed()["Gym"]| == 1
    ensures forall c, k :: c in Seed() && 0 <= k < |Seed()[c]| ==> !Seed()[c][k].done
  {
  }

  // Each seed text is checked against the input rule in a lemma of its own.

  lemma CleanTheHouseValid()
    ensures IsValidTask("Clean the house")
  {
    LettersAndSpacesAccepted("Clean the house");
  }

  lemma DoLaundryValid()
    ensures IsValidTask("Do laundry")
  {
    LettersAndSpacesAccepted("Do laundry");
  }

  lemma FinishHomeworkValid()
    ensures IsValidTask("Finish homework")
  {
    LettersAndSpacesAccepted("Finish homework");
  }

  lemma StudyForExamValid()
    ensures IsValidTask("Study for exam")
  {
    LettersAndSpacesAccepted("Study for exam");
  }

  lemma CurlUpsExerciseValid()
    ensures IsValidTask("Curl Ups exercise")
  {
    LettersAndSpacesAccepted("Curl Ups exercise");
  }

  lemma HouseSeedValid()
    ensures AllTextsValid([Task("Clean the house", false), Task("Do laundry", false)])
  {
    CleanTheHouseValid();
    DoLaundryValid();
    PairKeepsValid(Task("Clean the house", false), Task("Do laundry", false));
  }

  lemma SchoolSeedValid()
    ensures AllTextsValid([Task("Finish homework", false), Task("Study for exam", false)])
  {
    FinishHomeworkValid();
    StudyForExamValid();
    PairKeepsValid(Task("Finish homework", false), Task("Study for exam", false));
  }

  lemma GymSeedValid()
    ensures AllTextsValid([Task("Curl Ups exercise", false)])
  {
    CurlUpsExerciseValid();
  }

  /** Every seeded text passes the input rule, as if it had been added through Add Task. */
  lemma SeedValid()
    ensures StoreValid(Seed())
  {
    HouseSeedValid();
    SchoolSeedValid();
    GymSeedValid();
    assert Seed().Keys == {"House", "School", "Gym"};
  }

  class TaskStore {
    var tasks: map<string, seq<Task>>

    /** Every stored text passed the input rule when it was added. */
    ghost predicate Valid()
      reads this
    {
      StoreValid(tasks)
    }

    constructor ()
      ensures tasks == Seed()
      ensures Valid()
    {
      tasks := Seed();
      SeedValid();
    }

    /** The "Show Tasks" loop: one row per task of the category, in list order. */
    method ShowTasks(category: string) returns (rows: seq<string>)
      ensures |rows| == |Lookup(tasks, category)|
      ensures forall k :: 0 <= k < |rows| ==> rows[k] == Row(Lookup(tasks, category)[k])
      ensures category !in tasks ==> rows == []
    {
      var list := Lookup(tasks, category);
      rows := [];
      for i := 0 to |list|
        invariant |rows| == i
        invariant forall k :: 0 <= k < i ==> rows[k] == Row(list[k])
      {
        rows := rows + [Row(list[i])];
      }
    }

    /**
     * Add Task: a text that fails the input rule is refused and nothing changes;
     * otherwise `(text, False)` is appended to the category's list, which is
     * created empty first when the category is new.
     */
    method Add(category: string, text: string) returns (accepted: bool)
      modifies this
      ensures accepted <==> IsValidTask(text)
      ensures !accepted ==> tasks == old(tasks)
      ensures accepted ==> tasks == old(tasks)[category := Appended(Lookup(old(tasks), category), text)]
      ensures forall c :: c != category && c in old(tasks) ==> c in tasks && tasks[c] == old(tasks)[c]
      ensures old(Valid()) ==> Valid()
    {
      if !IsValidTask(text) {
        return false;
      }
      var list := Appended(Lookup(tasks, category), text);
      if Valid() {
        AppendedKeepsValid(Lookup(tasks, category), text);
        UpdateKeepsValid(tasks, category, list);
      }
      tasks := tasks[category := list];
      accepted := true;
    }

    /** Toggle Task: with a row selected, negates its flag in place; with none, does nothing. */
    method Toggle(category: string, sel: Option<nat>)
      requires sel.Some? ==> category in tasks && sel.value < |tasks[category]|
      modifies this
      ensures sel.None? ==> tasks == old(tasks)
      ensures sel.Some? ==> tasks == old(tasks)[category := FlippedAt(old(tasks)[category], sel.value)]
      ensures tasks.Keys == old(tasks).Keys
      ensures forall c :: c != category && c in old(tasks) ==> tasks[c] == old(tasks)[c]
      ensures old(Valid()) ==> Valid()
    {
      if sel.Some? {
        var index := sel.value;
        var list := FlippedAt(tasks[category], index);
        if Valid() {
          FlippedKeepsValid(tasks[category], index);
          UpdateKeepsValid(tasks, category, list);
        }
        tasks := tasks[category := list];
      }
    }

    /** Delete Task: with a row selected, removes it and closes the gap; with none, does nothing. */
    method Delete(category: string, sel: Option<nat>)
      requires sel.Some? ==> category in tasks && sel.value < |tasks[category]|
      modifies this
      ensures sel.None? ==> tasks == old(tasks)
      ensures sel.Some? ==> tasks == old(tasks)[category := RemovedAt(old(tasks)[category], sel.value)]
      ensures tasks.Keys == old(tasks).Keys
      ensures forall c :: c != category && c in old(tasks) ==> tasks[c] == old(tasks)[c]
      ensures old(Valid()) ==> Valid()
    {
      if sel.Some? {
        var index := sel.value;
        var list := RemovedAt(tasks[category], index);
        if Valid() {
          RemovedKeepsValid(tasks[category], index);
          UpdateKeepsValid(tasks, category, list);
        }
        tasks := tasks[category := list];
      }
    }

    /**
     * View Details: the selected task, whose text and status the popup shows
     * (`DetailsMessage`), or `None` when no row is selected. Reads only.
     */
    method Details(category: string, sel: Option<nat>) returns (r: Option<Task>)
      requires sel.Some? ==> category in tasks && sel.value < |tasks[category]|
      ensures sel.None? <==> r.None?
      ensures sel.Some? ==> r.value == tasks[category][sel.value]
      ensures Valid() && r.Some? ==> IsValidTask(r.value.text)
    {
      if sel.Some? {
        var index := sel.value;
        r := Some(tasks[category][index]);
      } else {
        r := None;
      }
    }
  }

  /**
   * The walk-through on the seed data: toggling the first House task marks it
   * done, and deleting the second then leaves only the first, shown as done.
   */
  lemma SeedWalkthrough()
    ensures FlippedAt(Seed()["House"], 0) == [Task("Clean the house", true), Task("Do laundry", false)]
    ensures RemovedAt(FlippedAt(Seed()["House"], 0), 1) == [Task("Clean the house", true)]
    ensures Row(Task("Clean the house", true)) == "Clean the house - Done"
  {
    var house := Seed()["House"];
    assert house == [Task("Clean the house", false), Task("Do laundry", false)];
    var toggled := FlippedAt(house, 0);
    assert toggled == [Task("Clean the house", true), Task("Do laundry", false)];
    assert RemovedAt(toggled, 1) == toggled[..1];
  }
}
