/**
 * `task:add` (app/Commands/AddCommand.php): gathers the fields of a new task
 * from options and prompts and creates it, always in an Inbox-kind status.
 *
 * Every prompt's answer is an input: a text answer is a string ("" for an
 * empty answer), a choice is the position of the picked entry, `None` when
 * the user accepts the offered default.
 */
module AddCommand {
  import opened Wrappers
  import opened Text
  import opened StatusTypes
  import opened Models
  import opened Seqs
  import opened Lookup
  import opened Storage

  datatype AddError =
    | NotInstalled   // checkInstallation() failed
    | EmptyName      // neither --name nor the prompt gave a non-empty name
    | NoPriority     // the priorities table is empty: `->first()->id` has no row to read

  /** What the user supplied: each option next to the answer of the prompt it replaces. */
  datatype AddInput = AddInput(
    nameFlag: string, nameAnswer: string,
    descriptionFlag: string, descriptionAnswer: string,
    categoryFlag: string, categoryChoice: Option<nat>,
    priorityFlag: string, priorityChoice: Option<nat>,
    deadlineFlag: Option<int>, deadlineAnswer: Option<int>,
    expectedFlag: Option<int>, expectedAnswer: Option<int>)

  /** A choice answer can only pick an entry the prompt offers. */
  predicate Answerable(input: AddInput, cs: seq<Category>, ps: seq<Priority>) {
    && (input.categoryChoice.Some? ==> input.categoryChoice.value <= |cs|)
    && (input.priorityChoice.Some? ==> input.priorityChoice.value < |ps|)
  }

  /** `option ?: ask(...)`: a truthy option wins, otherwise the prompt's answer. */
  function Given(flag: string, answer: string): (r: string)
    ensures Truthy(flag) ==> r == flag
    ensures !Truthy(flag) ==> r == answer
  {
    if Truthy(flag) then flag else answer
  }

  /** The same for a date option. */
  function GivenDate(flag: Option<int>, answer: Option<int>): (r: Option<int>)
    ensures flag.Some? ==> r == flag
    ensures flag.None? ==> r == answer
  {
    if flag.Some? then flag else answer
  }

  /** `value ?: null`: a falsy string is stored as null. */
  function Nullable(s: string): (r: Option<string>)
    ensures r.Some? <==> Truthy(s)
    ensures r.Some? ==> r.value == s
  {
    if Truthy(s) then Some(s) else None
  }

  /**
   * The category id: none without categories; an exact lookup for a truthy
   * --category (a miss gives none); otherwise the user picks among the names
   * plus a trailing "None" entry, which is the default.
   */
  function CategoryFor(cs: seq<Category>, flag: string, choice: Option<nat>): (r: Option<nat>)
    requires choice.Some? ==> choice.value <= |cs|
    ensures |cs| == 0 ==> r == None
    ensures r.Some? ==> exists c :: c in cs && c.id == r.value && (Truthy(flag) ==> c.name == flag)
    ensures |cs| > 0 && Truthy(flag) ==> (r.Some? <==> exists c :: c in cs && c.name == flag)
    ensures !Truthy(flag) && choice.None? ==> r == None
    ensures !Truthy(flag) && choice == Some(|cs|) ==> r == None
    ensures !Truthy(flag) && choice.Some? && choice.value < |cs| ==>
              (r.Some? <==> cs[choice.value].name != "None")
    ensures !Truthy(flag) && choice.Some? && choice.value < |cs| && r.Some? ==>
              exists c :: c in cs && c.id == r.value && c.name == cs[choice.value].name
    ensures Truthy(flag) && r.Some? ==>
              exists k :: 0 <= k < |cs| && r == Some(cs[k].id) && cs[k].name == flag &&
                forall j :: 0 <= j < k ==> cs[j].name != flag
    ensures !Truthy(flag) && choice.Some? && choice.value < |cs| && r.Some? ==>
              exists k :: 0 <= k <= choice.value && r == Some(cs[k].id) && cs[k].name == cs[choice.value].name &&
                forall j :: 0 <= j < k ==> cs[j].name != cs[choice.value].name
  {
    if |cs| == 0 then None
    else if Truthy(flag) then
      match CategoryNamed(cs, flag)
      case None => None
      case Some(c) => Some(c.id)
    else
      var offered := Pluck(cs, (c: Category) => c.name) + ["None"];
      var k := choice.GetOr(|cs|);
      var chosen := offered[k];
      if chosen == "None" then None
      else
        assert k < |cs| && cs[k].name == chosen;
        var c := CategoryNamed(cs, chosen);
        assert c.Some?;
        Some(c.value.id)
  }

  /**
   * The priority id; None when the table is empty. A truthy --priority is
   * looked up by exact name and, on a miss, falls back to the lowest-level
   * priority. Otherwise the user picks among the names in level order, and
   * the default is the middle entry (index `floor(n / 2)`).
   */
  function PriorityFor(ps: seq<Priority>, flag: string, choice: Option<nat>): (r: Option<nat>)
    requires choice.Some? ==> choice.value < |ps|
    ensures r.Some? <==> |ps| > 0
    ensures r.Some? ==> exists p :: p in ps && p.id == r.value
    ensures Truthy(flag) && PriorityNamed(ps, flag).Some? ==> r == Some(PriorityNamed(ps, flag).value.id)
    ensures Truthy(flag) && |ps| > 0 && (forall p :: p in ps ==> p.name != flag) ==>
              exists p :: p in ps && p.id == r.value && forall q :: q in ps ==> p.level <= q.level
    ensures Truthy(flag) && |ps| > 0 && (forall p :: p in ps ==> p.name != flag) ==>
              r == Some(ByLevel(ps)[0].id)
    ensures !Truthy(flag) && |ps| > 0 ==>
              exists p :: p in ps && p.id == r.value &&
                p.name == ByLevel(ps)[choice.GetOr(|ps| / 2)].name
    ensures !Truthy(flag) && |ps| > 0 ==>
              var ordered, name := ByLevel(ps), ByLevel(ps)[choice.GetOr(|ps| / 2)].name;
              exists k :: 0 <= k <= choice.GetOr(|ps| / 2) && r == Some(ordered[k].id) && ordered[k].name == name &&
                forall j :: 0 <= j < k ==> ordered[j].name != name
  {
    if |ps| == 0 then None
    else
      var ordered := ByLevel(ps);
      SortByHeadIsLeast(ps, (p: Priority) => p.level);
      if Truthy(flag) then
        match PriorityNamed(ps, flag)
        case Some(p) => Some(p.id)
        case None => Some(ordered[0].id)
      else
        var k := choice.GetOr(|ordered| / 2);
        var chosen := ordered[k].name;
        var p := PriorityNamed(ordered, chosen);
        assert ordered[k].name == chosen;
        assert p.Some?;
        assert p.value in multiset(ordered);
        Some(p.value.id)
  }

  /** The starting status: the first Inbox-kind status, or the first status when there is none. */
  function StatusFor(ss: seq<Status>): (r: nat)
    requires |ss| > 0
    ensures exists s :: s in ss && s.id == r
    ensures (exists s :: s in ss && s.kind == Inbox) ==> exists s :: s in ss && s.id == r && s.kind == Inbox
    ensures (forall s :: s in ss ==> s.kind != Inbox) ==> r == ss[0].id
    ensures (exists s :: s in ss && s.kind == Inbox) ==>
              exists k :: 0 <= k < |ss| && r == ss[k].id && ss[k].kind == Inbox &&
                forall j :: 0 <= j < k ==> ss[j].kind != Inbox
  {
    match FirstOfKind(ss, Inbox)
    case Some(s) => s.id
    case None => ss[0].id
  }

  /** The fields `Task::create` receives, or why the command stops first. */
  function NewTask(schema: Schema, ss: seq<Status>, cs: seq<Category>, ps: seq<Priority>, input: AddInput)
    : (r: Result<TaskFields, AddError>)
    requires Answerable(input, cs, ps)
    ensures r == Err(NotInstalled) <==> !Installed(schema, ss)
    ensures r == Err(EmptyName) <==>
              Installed(schema, ss) && !Truthy(input.nameFlag) && !Truthy(input.nameAnswer)
    ensures r == Err(NoPriority) <==>
              Installed(schema, ss) && (Truthy(input.nameFlag) || Truthy(input.nameAnswer)) && |ps| == 0
    ensures r.Ok? ==> Truthy(r.value.name) && r.value.completedAt == None
    ensures r.Ok? && Truthy(input.nameFlag) ==> r.value.name == input.nameFlag
    ensures r.Ok? && !Truthy(input.nameFlag) ==> r.value.name == input.nameAnswer
    ensures r.Ok? && Truthy(input.descriptionFlag) ==> r.value.description == Some(input.descriptionFlag)
    ensures r.Ok? && !Truthy(input.descriptionFlag) && Truthy(input.descriptionAnswer) ==>
              r.value.description == Some(input.descriptionAnswer)
    ensures r.Ok? ==> r.value.statusId == StatusFor(ss)
    ensures r.Ok? ==> r.value.categoryId == CategoryFor(cs, input.categoryFlag, input.categoryChoice)
    ensures r.Ok? ==> Some(r.value.priorityId) == PriorityFor(ps, input.priorityFlag, input.priorityChoice)
    ensures r.Ok? ==> (r.value.description.None? <==> !Truthy(input.descriptionFlag) && !Truthy(input.descriptionAnswer))
    ensures r.Ok? && input.deadlineFlag.Some? ==> r.value.deadline == input.deadlineFlag
    ensures r.Ok? && input.deadlineFlag.None? ==> r.value.deadline == input.deadlineAnswer
    ensures r.Ok? && input.expectedFlag.Some? ==> r.value.expectedDate == input.expectedFlag
    ensures r.Ok? && input.expectedFlag.None? ==> r.value.expectedDate == input.expectedAnswer
  {
    if !Installed(schema, ss) then Err(NotInstalled)
    else
      var name := Given(input.nameFlag, input.nameAnswer);
      if !Truthy(name) then Err(EmptyName)
      else
        var description := Given(input.descriptionFlag, input.descriptionAnswer);
        var categoryId := CategoryFor(cs, input.categoryFlag, input.categoryChoice);
        match PriorityFor(ps, input.priorityFlag, input.priorityChoice)
        case None => Err(NoPriority)
        case Some(priorityId) =>
          Ok(TaskFields(name, Nullable(description), categoryId, priorityId, StatusFor(ss),
                        GivenDate(input.deadlineFlag, input.deadlineAnswer),
                        GivenDate(input.expectedFlag, input.expectedAnswer), None))
  }

  /** `handle()` against the store. */
  method Handle(st: Store, input: AddInput, now: int) returns (code: int)
    requires st.Valid()
    requires Answerable(input, st.categories, st.priorities)
    modifies st`tasks, st`nextTaskId
    ensures st.Valid()
    ensures NewTask(st.schema, st.statuses, st.categories, st.priorities, input).Ok? ==>
              && code == 0
              && st.tasks == old(st.tasks) + [Create(old(st.nextTaskId),
                   NewTask(st.schema, st.statuses, st.categories, st.priorities, input).value, now)]
    ensures NewTask(st.schema, st.statuses, st.categories, st.priorities, input).Err? ==>
              code == 1 && st.tasks == old(st.tasks) && st.nextTaskId == old(st.nextTaskId)
  {
    if !st.IsInstalled() {
      return 1;
    }
    var name := Given(input.nameFlag, input.nameAnswer);
    if !Truthy(name) {
      return 1;
    }
    var description := Given(input.descriptionFlag, input.descriptionAnswer);
    var categoryId := CategoryFor(st.categories, input.categoryFlag, input.categoryChoice);
    var priorityId := PriorityFor(st.priorities, input.priorityFlag, input.priorityChoice);
    if priorityId.None? {
      return 1;
    }
    var statusId := StatusFor(st.statuses);
    var deadline := GivenDate(input.deadlineFlag, input.deadlineAnswer);
    var expectedDate := GivenDate(input.expectedFlag, input.expectedAnswer);
    var fields := TaskFields(name, Nullable(description), categoryId, priorityId.value, statusId,
                             deadline, expectedDate, None);
    var _ := st.InsertTask(fields, now);
    return 0;
  }

  /**
   * GTD capture: when some status is of kind Inbox, a new task starts in
   * one, without `completed_at`, and the lifecycle invariant keeps holding.
   */
  lemma {:induction false} NewTaskStartsInInbox(
    schema: Schema, ss: seq<Status>, next: int, cs: seq<Category>, ps: seq<Priority>,
    input: AddInput, ts: seq<Task>, id: nat, now: int)
    requires Answerable(input, cs, ps)
    requires KeysBelow(ss, StatusKey, next)
    requires exists s :: s in ss && s.kind == Inbox
    requires NewTask(schema, ss, cs, ps, input).Ok?
    requires Consistent(ss, ts)
    ensures KindOf(ss, NewTask(schema, ss, cs, ps, input).value.statusId) == Some(Inbox)
    ensures Consistent(ss, ts + [Create(id, NewTask(schema, ss, cs, ps, input).value, now)])
  {
    var f := NewTask(schema, ss, cs, ps, input).value;
    var s :| s in ss && s.id == f.statusId && s.kind == Inbox;
    var k :| 0 <= k < |ss| && ss[k] == s;
    KindOfRow(ss, next, k);
    var ts' := ts + [Create(id, f, now)];
    forall j | 0 <= j < |ts'| ensures CompletedMatchesKind(ss, ts'[j]) {
      if j < |ts| {
        assert ts'[j] == ts[j];
      }
    }
  }

  /**
   * Without an Inbox-kind status the task takes the first status whatever
   * its kind: if that status is Done, the new task breaks the lifecycle
   * invariant, since nothing sets its `completed_at`.
   */
  lemma {:induction false} FallbackStatusMayBeDone(
    schema: Schema, ss: seq<Status>, next: int, cs: seq<Category>, ps: seq<Priority>,
    input: AddInput, ts: seq<Task>, id: nat, now: int)
    requires Answerable(input, cs, ps)
    requires KeysBelow(ss, StatusKey, next)
    requires forall s :: s in ss ==> s.kind != Inbox
    requires NewTask(schema, ss, cs, ps, input).Ok?
    ensures NewTask(schema, ss, cs, ps, input).value.statusId == ss[0].id
    ensures ss[0].kind == Done ==> !Consistent(ss, ts + [Create(id, NewTask(schema, ss, cs, ps, input).value, now)])
  {
    var f := NewTask(schema, ss, cs, ps, input).value;
    KindOfRow(ss, next, 0);
    if ss[0].kind == Done {
      var ts' := ts + [Create(id, f, now)];
      assert ts'[|ts|] == Create(id, f, now);
      assert !CompletedMatchesKind(ss, ts'[|ts|]);
    }
  }
}
