/**
 * Task records and the operations on one category's list of tasks: the
 * `(text, done)` pairs of the program, the edits that the Toggle and Delete
 * buttons make to a list, and the text a task is shown as in the list box and
 * in the details popup.
 */
module Tasks {
  import opened Validation

  /** A task is its text and its done flag; its only identity is its position in a list. */
  datatype Task = Task(text: string, done: bool)

  /** A list-box selection: no row selected, or the index of the selected row. */
  datatype Option<T> = None | Some(value: T)

  /** Every text in the list passes the input rule. */
  predicate AllTextsValid(s: seq<Task>)
  {
    forall k :: 0 <= k < |s| ==> IsValidTask(s[k].text)
  }

  /** Every text of every category passes the input rule. */
  predicate StoreValid(m: map<string, seq<Task>>)
  {
    forall c :: c in m ==> AllTextsValid(m[c])
  }

  /** Replacing one category's list by a list of valid texts keeps the whole store valid. */
  lemma UpdateKeepsValid(m: map<string, seq<Task>>, category: string, s: seq<Task>)
    requires StoreValid(m) && AllTextsValid(s)
    ensures StoreValid(m[category := s])
  {
  }

  /** `tasks.get(category, [])`: the list of a category, empty when the category is absent. */
  function Lookup(m: map<string, seq<Task>>, category: string): seq<Task>
  {
    if category in m then m[category] else []
  }

  /** The list after a new, not yet done task is appended at its end. */
  function Appended(s: seq<Task>, text: string): (r: seq<Task>)
    ensures |r| == |s| + 1
    ensures r[..|s|] == s && r[|s|] == Task(text, false)
  {
    s + [Task(text, false)]
  }

  /** The list with the flag of entry `i` negated and everything else kept in place. */
  function FlippedAt(s: seq<Task>, i: nat): (r: seq<Task>)
    requires i < |s|
    ensures |r| == |s|
    ensures r[i].text == s[i].text && r[i].done == !s[i].done
    ensures forall k :: 0 <= k < |s| && k != i ==> r[k] == s[k]
  {
    s[i := Task(s[i].text, !s[i].done)]
  }

  /** The list without entry `i`: `list.pop(i)`. */
  function RemovedAt(s: seq<Task>, i: nat): (r: seq<Task>)
    requires i < |s|
    ensures |r| == |s| - 1
    ensures forall k :: 0 <= k < i ==> r[k] == s[k]
    ensures forall k :: i <= k < |r| ==> r[k] == s[k + 1]
  {
    s[..i] + s[i + 1..]
  }

  /** Toggling the same entry twice gives back the original list. */
  lemma FlipTwice(s: seq<Task>, i: nat)
    requires i < |s|
    ensures FlippedAt(FlippedAt(s, i), i) == s
  {
  }

  /** Removing an entry takes exactly that one task out of the list and nothing else. */
  lemma RemovedAtTakesOne(s: seq<Task>, i: nat)
    requires i < |s|
    ensures multiset(RemovedAt(s, i)) + multiset{s[i]} == multiset(s)
  {
    assert s == s[..i] + [s[i]] + s[i + 1..];
  }

  /** Appending a valid text keeps every text of the list valid. */
  lemma AppendedKeepsValid(s: seq<Task>, text: string)
    requires AllTextsValid(s) && IsValidTask(text)
    ensures AllTextsValid(Appended(s, text))
  {
  }

  /** Two tasks with valid texts form a valid list. */
  lemma PairKeepsValid(x: Task, y: Task)
    requires IsValidTask(x.text) && IsValidTask(y.text)
    ensures AllTextsValid([x, y])
  {
  }

  /** Toggling does not touch any text, so validity is kept. */
  lemma FlippedKeepsValid(s: seq<Task>, i: nat)
    requires i < |s| && AllTextsValid(s)
    ensures AllTextsValid(FlippedAt(s, i))
  {
  }

  /** Deleting keeps the texts that remain, so validity is kept. */
  lemma RemovedKeepsValid(s: seq<Task>, i: nat)
    requires i < |s| && AllTextsValid(s)
    ensures AllTextsValid(RemovedAt(s, i))
  {
  }

  /** The status word used by the list rows and the details popup. */
  function StatusLabel(done: bool): string
  {
    if done then "Done" else "Not Done"
  }

  /** A list-box row: `f"{task} - {status}"`. */
  function Row(t: Task): string
  {
    t.text + " - " + StatusLabel(t.done)
  }

  /** The body of the details popup: `f"Task: {task}\nStatus: {status}"`. */
  function DetailsText(t: Task): string
  {
    "Task: " + t.text + "\nStatus: " + StatusLabel(t.done)
  }

  /** What the "View Details" button shows: the details of the selected task, or a prompt. */
  function DetailsMessage(r: Option<Task>): string
  {
    match r
    case None => "Please select a task"
    case Some(t) => DetailsText(t)
  }

  /**
   * A row is the task's text followed by " - Done" when the task is done and
   * by " - Not Done" when it is not.
   */
  lemma RowShape(t: Task)
    ensures t.done ==> Row(t) == t.text + " - Done"
    ensures !t.done ==> Row(t) == t.text + " - Not Done"
    ensures Row(t)[..|t.text|] == t.text
    ensures |Row(t)| >= 7 && (Row(t)[|Row(t)| - 7..] == " - Done" <==> t.done)
  {
    var r := Row(t);
    if !t.done {
      assert r[|r| - 7..] == "ot Done";
    }
  }

  /** Distinct tasks get distinct rows: a row tells both the text and the flag apart. */
  lemma RowInjective(a: Task, b: Task)
    requires Row(a) == Row(b)
    ensures a == b
  {
    RowShape(a);
    RowShape(b);
    var n := |Row(a)| - (if a.done then 7 else 11);
    assert a.text == Row(a)[..n];
    assert b.text == Row(b)[..n];
  }

  /** The details popup ends in "Not Done" exactly when the task is not done. */
  lemma DetailsTextStatus(t: Task)
    ensures |DetailsText(t)| >= 8 + 6 + |t.text|
    ensures DetailsText(t)[6..6 + |t.text|] == t.text
    ensures DetailsText(t)[|DetailsText(t)| - 8..] == "Not Done" <==> !t.done
  {
    var m := DetailsText(t);
    if t.done {
      assert m[|m| - 8..] == "us: Done";
    }
  }

  /** Distinct tasks get distinct details. */
  lemma DetailsTextInjective(a: Task, b: Task)
    requires DetailsText(a) == DetailsText(b)
    ensures a == b
  {
    DetailsTextStatus(a);
    DetailsTextStatus(b);
    var m := DetailsText(a);
    var n := |m| - 9 - |StatusLabel(a.done)|;
    assert a.text == m[6..n];
    assert b.text == m[6..n];
  }

  /**
   * What "View Details" shows tells the cases apart: distinct tasks get distinct
   * details, and no task's details read like the prompt to select one.
   */
  lemma DetailsMessageInjective(a: Option<Task>, b: Option<Task>)
    requires DetailsMessage(a) == DetailsMessage(b)
    ensures a == b
  {
    // the prompt starts with 'P', the details of any task with 'T'
    assert DetailsMessage(a)[0] == (if a.None? then 'P' else 'T');
    assert DetailsMessage(b)[0] == (if b.None? then 'P' else 'T');
    if a.Some? && b.Some? {
      DetailsTextInjective(a.value, b.value);
    }
  }
}
