/**
 * `task:edit {id}` (app/Commands/EditCommand.php): changes a task's own
 * fields, either from the options given on the command line or, when no
 * option is given at all, through one prompt per field. Status and
 * `completed_at` are never touched.
 */
module EditCommand {
  import opened Wrappers
  import opened Text
  import opened Models
  import opened Seqs
  import opened Lookup
  import opened Storage

  /** A date as typed: falsy text, the word `clear`, or a day. */
  datatype DateText = Blank | Clear | Date(day: int)

  /** The six options; `None` when the option was not given at all. */
  datatype EditFlags = EditFlags(
    name: Option<string>,
    description: Option<string>,
    category: Option<string>,
    priority: Option<string>,
    deadline: Option<DateText>,
    expectedDate: Option<DateText>)

  /** The prompt answers; a choice is the picked entry's position, `None` for the default. */
  datatype EditAnswers = EditAnswers(
    name: string,
    description: string,
    category: Option<nat>,
    priority: Option<nat>,
    deadline: DateText,
    expectedDate: DateText)

  /** Pressing Enter at every prompt. */
  const KeepAll := EditAnswers("", "", None, None, Blank, Blank)

  /** Any option given, even with an empty value, selects the option path. */
  predicate HasFlags(f: EditFlags) {
    f.name.Some? || f.description.Some? || f.category.Some? || f.priority.Some? ||
    f.deadline.Some? || f.expectedDate.Some?
  }

  /** An option's value as PHP sees it: absent reads as null, which is falsy. */
  function Flag(o: Option<string>): (r: string)
    ensures o.None? ==> !Truthy(r)
    ensures o.Some? ==> r == o.value
  {
    o.GetOr("")
  }

  /** A date option's value; absent reads as falsy. */
  function DateFlag(o: Option<DateText>): (r: DateText)
    ensures o.None? ==> r == Blank
    ensures o.Some? ==> r == o.value
  {
    o.GetOr(Blank)
  }

  /** A date column after an entry: falsy keeps it, `clear` empties it, a day replaces it. */
  function SetDate(current: Option<int>, entry: DateText): (r: Option<int>)
    ensures entry == Blank ==> r == current
    ensures entry == Clear ==> r == None
    ensures entry.Date? ==> r == Some(entry.day)
  {
    match entry
    case Blank => current
    case Clear => None
    case Date(d) => Some(d)
  }

  /** A text option: a truthy value replaces the current one. */
  function TextAfter(current: string, flag: Option<string>): (r: string)
    ensures r != current ==> Truthy(Flag(flag)) && r == flag.value
    ensures Truthy(Flag(flag)) ==> r == flag.value
  {
    if Truthy(Flag(flag)) then flag.value else current
  }

  /** The description option: a truthy value replaces the description; nothing clears it. */
  function DescriptionAfter(current: Option<string>, flag: Option<string>): (r: Option<string>)
    ensures Truthy(Flag(flag)) ==> r == flag
    ensures r != current ==> Truthy(Flag(flag)) && r == flag
    ensures current.Some? ==> r.Some?
  {
    if Truthy(Flag(flag)) then flag else current
  }

  /**
   * The category option: a truthy value is looked up fuzzily and the first
   * matching category in id order is taken; a miss keeps the category.
   */
  function CategoryAfter(cs: seq<Category>, current: Option<nat>, flag: Option<string>): (r: Option<nat>)
    ensures !Truthy(Flag(flag)) || (forall k :: 0 <= k < |cs| ==> !Like(cs[k].name, Flag(flag))) ==> r == current
    ensures Truthy(Flag(flag)) && (exists k :: 0 <= k < |cs| && Like(cs[k].name, Flag(flag))) ==>
              exists k :: 0 <= k < |cs| && Like(cs[k].name, Flag(flag)) && r == Some(cs[k].id) &&
                forall j :: 0 <= j < k ==> !Like(cs[j].name, Flag(flag))
  {
    if Truthy(Flag(flag)) && CategoryLike(cs, Flag(flag)).Some?
    then Some(CategoryLike(cs, Flag(flag)).value.id) else current
  }

  /**
   * The priority option: a truthy value is looked up fuzzily and the first
   * matching priority in id order is taken; a miss keeps the priority.
   */
  function PriorityAfter(ps: seq<Priority>, current: nat, flag: Option<string>): (r: nat)
    ensures !Truthy(Flag(flag)) || (forall k :: 0 <= k < |ps| ==> !Like(ps[k].name, Flag(flag))) ==> r == current
    ensures Truthy(Flag(flag)) && (exists k :: 0 <= k < |ps| && Like(ps[k].name, Flag(flag))) ==>
              exists k :: 0 <= k < |ps| && Like(ps[k].name, Flag(flag)) && r == ps[k].id &&
                forall j :: 0 <= j < k ==> !Like(ps[j].name, Flag(flag))
  {
    if Truthy(Flag(flag)) && PriorityLike(ps, Flag(flag)).Some?
    then PriorityLike(ps, Flag(flag)).value.id else current
  }

  /**
   * The task after `applyFlags`: each of the six fields follows its own
   * option, and nothing else about the task changes.
   */
  function FlagEdit(t: Task, cs: seq<Category>, ps: seq<Priority>, f: EditFlags): (r: Task)
    ensures r.id == t.id && r.statusId == t.statusId && r.completedAt == t.completedAt
    ensures r.createdAt == t.createdAt && r.updatedAt == t.updatedAt
    ensures Truthy(Flag(f.name)) ==> r.name == f.name.value
    ensures !Truthy(Flag(f.name)) ==> r.name == t.name
    ensures Truthy(Flag(f.description)) ==> r.description == Some(f.description.value)
    ensures !Truthy(Flag(f.description)) ==> r.description == t.description
    ensures !Truthy(Flag(f.category)) || CategoryLike(cs, Flag(f.category)).None? ==> r.categoryId == t.categoryId
    ensures Truthy(Flag(f.category)) && CategoryLike(cs, Flag(f.category)).Some? ==>
              r.categoryId == Some(CategoryLike(cs, Flag(f.category)).value.id)
    ensures !Truthy(Flag(f.priority)) || PriorityLike(ps, Flag(f.priority)).None? ==> r.priorityId == t.priorityId
    ensures Truthy(Flag(f.priority)) && PriorityLike(ps, Flag(f.priority)).Some? ==>
              r.priorityId == PriorityLike(ps, Flag(f.priority)).value.id
    ensures f.deadline.None? || f.deadline == Some(Blank) ==> r.deadline == t.deadline
    ensures f.deadline == Some(Clear) ==> r.deadline == None
    ensures f.deadline.Some? && f.deadline.value.Date? ==> r.deadline == Some(f.deadline.value.day)
    ensures f.expectedDate.None? || f.expectedDate == Some(Blank) ==> r.expectedDate == t.expectedDate
    ensures f.expectedDate == Some(Clear) ==> r.expectedDate == None
    ensures f.expectedDate.Some? && f.expectedDate.value.Date? ==> r.expectedDate == Some(f.expectedDate.value.day)
    ensures f == EditFlags(None, None, None, None, None, None) ==> r == t
  {
    t.(name := TextAfter(t.name, f.name),
       description := DescriptionAfter(t.description, f.description),
       categoryId := CategoryAfter(cs, t.categoryId, f.category),
       priorityId := PriorityAfter(ps, t.priorityId, f.priority),
       deadline := SetDate(t.deadline, DateFlag(f.deadline)),
       expectedDate := SetDate(t.expectedDate, DateFlag(f.expectedDate)))
  }

  /** `applyFlags($task)`: one assignment per truthy option, in the source's order. */
  method ApplyFlags(t: Task, cs: seq<Category>, ps: seq<Priority>, f: EditFlags) returns (r: Task)
    ensures r == FlagEdit(t, cs, ps, f)
  {
    var name, description, categoryId, priorityId, deadline, expectedDate :=
      t.name, t.description, t.categoryId, t.priorityId, t.deadline, t.expectedDate;
    if Truthy(Flag(f.name)) {
      name := f.name.value;
    }
    assert name == TextAfter(t.name, f.name);
    if Truthy(Flag(f.description)) {
      description := f.description;
    }
    assert description == DescriptionAfter(t.description, f.description);
    if Truthy(Flag(f.category)) {
      var c := CategoryLike(cs, Flag(f.category));
      if c.Some? {
        categoryId := Some(c.value.id);
      }
    }
    assert categoryId == CategoryAfter(cs, t.categoryId, f.category);
    if Truthy(Flag(f.priority)) {
      var p := PriorityLike(ps, Flag(f.priority));
      if p.Some? {
        priorityId := p.value.id;
      }
    }
    assert priorityId == PriorityAfter(ps, t.priorityId, f.priority);
    var deadlineEntry := DateFlag(f.deadline);
    if deadlineEntry != Blank {
      deadline := if deadlineEntry == Clear then None else Some(deadlineEntry.day);
    }
    assert deadline == SetDate(t.deadline, deadlineEntry);
    var expectedEntry := DateFlag(f.expectedDate);
    if expectedEntry != Blank {
      expectedDate := if expectedEntry == Clear then None else Some(expectedEntry.day);
    }
    assert expectedDate == SetDate(t.expectedDate, expectedEntry);
    r := t.(name := name, description := description, categoryId := categoryId,
            priorityId := priorityId, deadline := deadline, expectedDate := expectedDate);
  }

  /** The entry that keeps the current value; only its `Keep` prefix matters to the command. */
  function KeepLabel(current: string): (r: string)
    ensures StartsWith(r, "Keep")
  {
    var r := "Keep (" + current + ")";
    assert r[..4] == "Keep";
    r
  }

  /** The shown name of the task's category, "None" without one. */
  function CurrentCategory(cs: seq<Category>, current: Option<nat>): string {
    if current.None? then "None"
    else match First(cs, (c: Category) => c.id == current.value)
      case None => "None"
      case Some(c) => c.name
  }

  /** The shown name of the task's priority, "-" without a matching row. */
  function CurrentPriority(ps: seq<Priority>, current: nat): string {
    match First(ps, (p: Priority) => p.id == current)
    case None => "-"
    case Some(p) => p.name
  }

  /**
   * The category prompt (only when categories exist): the names, then
   * "None", then "Keep (...)", the default. Picking "None" empties the
   * category, any entry starting with "Keep" keeps it, any other name takes
   * the first category carrying it.
   */
  function CategoryAnswer(cs: seq<Category>, current: Option<nat>, choice: Option<nat>): (r: Option<nat>)
    requires |cs| > 0 && choice.Some? ==> choice.value <= |cs| + 1
    ensures |cs| == 0 || choice.None? || choice == Some(|cs| + 1) ==> r == current
    ensures |cs| > 0 && choice == Some(|cs|) ==> r == None
    ensures |cs| > 0 && choice.Some? && choice.value < |cs| ==>
              var name := cs[choice.value].name;
              if name == "None" then r == None
              else if StartsWith(name, "Keep") then r == current
              else exists c :: c in cs && c.name == name && r == Some(c.id)
    ensures |cs| > 0 && choice.Some? && choice.value < |cs| &&
            cs[choice.value].name != "None" && !StartsWith(cs[choice.value].name, "Keep") ==>
              var name := cs[choice.value].name;
              exists k :: 0 <= k <= choice.value && r == Some(cs[k].id) && cs[k].name == name &&
                forall j :: 0 <= j < k ==> cs[j].name != name
  {
    if |cs| == 0 then current
    else
      var offered := Pluck(cs, (c: Category) => c.name) + ["None", KeepLabel(CurrentCategory(cs, current))];
      var k := choice.GetOr(|offered| - 1);
      var chosen := offered[k];
      if chosen == "None" then None
      else if StartsWith(chosen, "Keep") then current
      else
        assert k < |cs| && cs[k].name == chosen;
        var c := CategoryNamed(cs, chosen);
        assert c.Some?;
        Some(c.value.id)
  }

  /**
   * The priority prompt: the names in level order, then "Keep (...)", the
   * default. Any entry starting with "Keep" keeps the priority; any other
   * name takes the first priority by level carrying it.
   */
  function PriorityAnswer(ps: seq<Priority>, current: nat, choice: Option<nat>): (r: nat)
    requires choice.Some? ==> choice.value <= |ps|
    ensures choice.None? || choice == Some(|ps|) ==> r == current
    ensures choice.Some? && choice.value < |ps| ==>
              var name := ByLevel(ps)[choice.value].name;
              if StartsWith(name, "Keep") then r == current
              else exists p :: p in ps && p.name == name && r == p.id
    ensures choice.Some? && choice.value < |ps| && !StartsWith(ByLevel(ps)[choice.value].name, "Keep") ==>
              var ordered, name := ByLevel(ps), ByLevel(ps)[choice.value].name;
              exists k :: 0 <= k <= choice.value && r == ordered[k].id && ordered[k].name == name &&
                forall j :: 0 <= j < k ==> ordered[j].name != name
  {
    var ordered := ByLevel(ps);
    var offered := Pluck(ordered, (p: Priority) => p.name) + [KeepLabel(CurrentPriority(ps, current))];
    var k := choice.GetOr(|offered| - 1);
    var chosen := offered[k];
    if StartsWith(chosen, "Keep") then current
    else
      assert k < |ordered| && ordered[k].name == chosen;
      var p := PriorityNamed(ordered, chosen);
      assert p.Some?;
      assert p.value in multiset(ordered);
      p.value.id
  }

  /** The description prompt: falsy keeps, `clear` empties, anything else replaces. */
  function DescriptionAnswer(current: Option<string>, answer: string): (r: Option<string>)
    ensures !Truthy(answer) ==> r == current
    ensures answer == "clear" ==> r == None
    ensures Truthy(answer) && answer != "clear" ==> r == Some(answer)
  {
    if Truthy(answer) then (if answer == "clear" then None else Some(answer)) else current
  }

  /** The prompts' answers can only pick offered entries. */
  predicate Answerable(cs: seq<Category>, ps: seq<Priority>, a: EditAnswers) {
    && (|cs| > 0 && a.category.Some? ==> a.category.value <= |cs| + 1)
    && (a.priority.Some? ==> a.priority.value <= |ps|)
  }

  /**
   * The task after `interactiveEdit`: every field follows its prompt, the
   * lifecycle fields stay, and pressing Enter everywhere changes nothing.
   */
  function AnswerEdit(t: Task, cs: seq<Category>, ps: seq<Priority>, a: EditAnswers): (r: Task)
    requires Answerable(cs, ps, a)
    ensures r.id == t.id && r.statusId == t.statusId && r.completedAt == t.completedAt
    ensures r.createdAt == t.createdAt && r.updatedAt == t.updatedAt
    ensures Truthy(a.name) ==> r.name == a.name
    ensures !Truthy(a.name) ==> r.name == t.name
    ensures !Truthy(a.description) ==> r.description == t.description
    ensures a.description == "clear" ==> r.description == None
    ensures Truthy(a.description) && a.description != "clear" ==> r.description == Some(a.description)
    ensures r.categoryId == CategoryAnswer(cs, t.categoryId, a.category)
    ensures r.priorityId == PriorityAnswer(ps, t.priorityId, a.priority)
    ensures a.deadline == Blank ==> r.deadline == t.deadline
    ensures a.deadline == Clear ==> r.deadline == None
    ensures a.deadline.Date? ==> r.deadline == Some(a.deadline.day)
    ensures a.expectedDate == Blank ==> r.expectedDate == t.expectedDate
    ensures a.expectedDate == Clear ==> r.expectedDate == None
    ensures a.expectedDate.Date? ==> r.expectedDate == Some(a.expectedDate.day)
    ensures a == KeepAll ==> r == t
  {
    t.(name := if Truthy(a.name) then a.name else t.name,
       description := DescriptionAnswer(t.description, a.description),
       categoryId := CategoryAnswer(cs, t.categoryId, a.category),
       priorityId := PriorityAnswer(ps, t.priorityId, a.priority),
       deadline := SetDate(t.deadline, a.deadline),
       expectedDate := SetDate(t.expectedDate, a.expectedDate))
  }

  /** `interactiveEdit($task)`: one prompt after the other, in the source's order. */
  method InteractiveEdit(t: Task, cs: seq<Category>, ps: seq<Priority>, a: EditAnswers) returns (r: Task)
    requires Answerable(cs, ps, a)
    ensures r == AnswerEdit(t, cs, ps, a)
  {
    var name, description, categoryId, priorityId, deadline, expectedDate :=
      t.name, t.description, t.categoryId, t.priorityId, t.deadline, t.expectedDate;
    if Truthy(a.name) {
      name := a.name;
    }
    if Truthy(a.description) {
      description := if a.description == "clear" then None else Some(a.description);
    }
    if |cs| > 0 {
      categoryId := CategoryAnswer(cs, t.categoryId, a.category);
    }
    priorityId := PriorityAnswer(ps, t.priorityId, a.priority);
    if a.deadline != Blank {
      deadline := if a.deadline == Clear then None else Some(a.deadline.day);
    }
    if a.expectedDate != Blank {
      expectedDate := if a.expectedDate == Clear then None else Some(a.expectedDate.day);
    }
    r := t.(name := name, description := description, categoryId := categoryId,
            priorityId := priorityId, deadline := deadline, expectedDate := expectedDate);
  }

  /** The task's new attributes: options when any is given, prompts otherwise. */
  function Edited(t: Task, cs: seq<Category>, ps: seq<Priority>, f: EditFlags, a: EditAnswers): (r: Task)
    requires !HasFlags(f) ==> Answerable(cs, ps, a)
    ensures r.id == t.id && r.statusId == t.statusId && r.completedAt == t.completedAt
    ensures HasFlags(f) ==> r == FlagEdit(t, cs, ps, f)
    ensures !HasFlags(f) ==> r == AnswerEdit(t, cs, ps, a)
  {
    if HasFlags(f) then FlagEdit(t, cs, ps, f) else AnswerEdit(t, cs, ps, a)
  }

  datatype Outcome = NotInstalled | NotFound | Updated

  /** The whole command on the store's contents: how it ends and the tasks afterwards. */
  function Run(schema: Schema, ss: seq<Status>, cs: seq<Category>, ps: seq<Priority>, ts: seq<Task>,
               id: int, f: EditFlags, a: EditAnswers, now: int): (r: (Outcome, seq<Task>))
    requires !HasFlags(f) ==> Answerable(cs, ps, a)
    ensures |r.1| == |ts|
    ensures r.0 != Updated ==> r.1 == ts
    ensures r.0 == NotInstalled <==> !Installed(schema, ss)
    ensures r.0 == NotFound ==> forall t :: t in ts ==> t.id != id
    ensures Installed(schema, ss) ==> (r.0 == NotFound <==> forall t :: t in ts ==> t.id != id)
    ensures r.0 == Updated ==>
              exists i :: 0 <= i < |ts| && ts[i].id == id && (forall j :: 0 <= j < i ==> ts[j].id != id) &&
                r.1 == ts[i := Saved(ts[i], Edited(ts[i], cs, ps, f, a), now)]
  {
    if !Installed(schema, ss) then (NotInstalled, ts)
    else match TaskIndex(ts, id)
      case None => (NotFound, ts)
      case Some(i) => (Updated, ts[i := Saved(ts[i], Edited(ts[i], cs, ps, f, a), now)])
  }

  /** `handle()` against the store. */
  method Handle(st: Store, id: int, f: EditFlags, a: EditAnswers, now: int) returns (code: int)
    requires st.Valid()
    requires !HasFlags(f) ==> Answerable(st.categories, st.priorities, a)
    modifies st`tasks
    ensures st.Valid()
    ensures var r := Run(st.schema, st.statuses, st.categories, st.priorities, old(st.tasks), id, f, a, now);
            st.tasks == r.1 && (code == 0 <==> r.0 == Updated) && (code == 0 || code == 1)
  {
    if !st.IsInstalled() {
      return 1;
    }
    var found := TaskIndex(st.tasks, id);
    if found.None? {
      return 1;
    }
    var i := found.value;
    var after;
    if HasFlags(f) {
      after := ApplyFlags(st.tasks[i], st.categories, st.priorities, f);
    } else {
      after := InteractiveEdit(st.tasks[i], st.categories, st.priorities, a);
    }
    st.SaveTask(i, after, now);
    return 0;
  }

  /**
   * A successful edit writes the found task alone: with options its fillable
   * fields are `FlagEdit`'s, without them `AnswerEdit`'s; its id and
   * `created_at` stay, `updated_at` moves to now exactly when a field changed,
   * and every other task is as it was.
   */
  lemma {:induction false} EditTouchesOneTask(
    schema: Schema, ss: seq<Status>, cs: seq<Category>, ps: seq<Priority>, ts: seq<Task>,
    id: int, f: EditFlags, a: EditAnswers, now: int)
    requires !HasFlags(f) ==> Answerable(cs, ps, a)
    requires Run(schema, ss, cs, ps, ts, id, f, a, now).0 == Updated
    ensures TaskIndex(ts, id).Some?
    ensures var i := TaskIndex(ts, id).value;
            var ts' := Run(schema, ss, cs, ps, ts, id, f, a, now).1;
            && i < |ts| && ts[i].id == id
            && (forall j :: 0 <= j < |ts| && j != i ==> ts'[j] == ts[j])
            && (HasFlags(f) ==> Fillable(ts'[i]) == Fillable(FlagEdit(ts[i], cs, ps, f)))
            && (!HasFlags(f) ==> Fillable(ts'[i]) == Fillable(AnswerEdit(ts[i], cs, ps, a)))
            && ts'[i].id == id && ts'[i].createdAt == ts[i].createdAt
            && (Fillable(ts'[i]) == Fillable(ts[i]) ==> ts'[i] == ts[i])
            && (Fillable(ts'[i]) != Fillable(ts[i]) ==> ts'[i].updatedAt == now)
  {
    var i := TaskIndex(ts, id).value;
    var after := Edited(ts[i], cs, ps, f, a);
    var ts' := Run(schema, ss, cs, ps, ts, id, f, a, now).1;
    assert ts' == ts[i := Saved(ts[i], after, now)];
    if Fillable(after) == Fillable(ts[i]) {
      assert after == ts[i];
    }
  }

  /**
   * An edit changes one task at most, never its status or `completed_at`,
   * so the lifecycle invariant survives every edit.
   */
  lemma {:induction false} EditKeepsConsistent(
    schema: Schema, ss: seq<Status>, cs: seq<Category>, ps: seq<Priority>, ts: seq<Task>,
    id: int, f: EditFlags, a: EditAnswers, now: int)
    requires !HasFlags(f) ==> Answerable(cs, ps, a)
    requires Consistent(ss, ts)
    ensures Consistent(ss, Run(schema, ss, cs, ps, ts, id, f, a, now).1)
    ensures forall j :: 0 <= j < |ts| ==>
              Run(schema, ss, cs, ps, ts, id, f, a, now).1[j].statusId == ts[j].statusId &&
              Run(schema, ss, cs, ps, ts, id, f, a, now).1[j].completedAt == ts[j].completedAt
  {
    var r := Run(schema, ss, cs, ps, ts, id, f, a, now);
    if r.0 == Updated {
      var i := TaskIndex(ts, id).value;
      forall j | 0 <= j < |ts|
        ensures r.1[j].statusId == ts[j].statusId && r.1[j].completedAt == ts[j].completedAt
      {
        if j == i {
          var after := Edited(ts[i], cs, ps, f, a);
          assert r.1[j] == Saved(ts[i], after, now);
        }
      }
      forall j | 0 <= j < |r.1| ensures CompletedMatchesKind(ss, r.1[j]) {
        assert CompletedMatchesKind(ss, ts[j]);
      }
    }
  }
}
