/**
 * `task:review` (app/Commands/ReviewCommand.php): the weekly review. Three
 * phases run one after the other, each querying the store after the
 * previous one has saved its changes: the inbox tasks, then the active
 * tasks, then the overdue tasks. Every visited task gets one answer and is
 * saved on its own.
 */
module ReviewCommand {
  import opened Wrappers
  import opened StatusTypes
  import opened Models
  import opened Seqs
  import opened Lookup
  import opened Storage

  /** The extra entry after the status names in phase 1; it is the default. */
  const SkipChoice := "Skip"
  /** The extra entry after the status names in phase 2; it is the default. */
  const KeepChoice := "Keep as is"

  /** A status choice can only pick an offered entry: a status name or the extra entry. */
  predicate ChoicesOffered(ss: seq<Status>, answers: seq<Option<nat>>) {
    forall k :: 0 <= k < |answers| && answers[k].Some? ==> answers[k].value <= |ss|
  }

  /**
   * The status picked from the status names followed by `extra`. Picking
   * the extra entry (the default) picks nothing, and so does a status whose
   * name equals the extra entry; any other name picks the first status
   * carrying it.
   */
  function Pick(ss: seq<Status>, extra: string, choice: Option<nat>): (r: Option<Status>)
    requires choice.Some? ==> choice.value <= |ss|
    ensures choice.None? || choice == Some(|ss|) ==> r.None?
    ensures choice.Some? && choice.value < |ss| ==>
              (r.None? <==> ss[choice.value].name == extra) &&
              (r.Some? ==> r.value in ss && r.value.name == ss[choice.value].name)
    ensures choice.Some? && choice.value < |ss| && r.Some? ==>
              var name := ss[choice.value].name;
              exists k :: 0 <= k <= choice.value && r == Some(ss[k]) && ss[k].name == name &&
                forall j :: 0 <= j < k ==> ss[j].name != name
  {
    var offered := Pluck(ss, (s: Status) => s.name) + [extra];
    var k := choice.GetOr(|ss|);
    var chosen := offered[k];
    if chosen == extra then None
    else
      assert k < |ss| && ss[k].name == chosen;
      var s := StatusNamed(ss, chosen);
      assert s.Some?;
      s
  }

  /**
   * A move in phases 1 and 2: the status changes; moving to a Done status
   * stamps `completed_at`, moving elsewhere leaves it as it was (it is not
   * cleared, unlike `task:status`).
   */
  function ReviewMove(t: Task, target: Status, now: int): (r: Task)
    ensures r == t.(statusId := target.id, completedAt := r.completedAt)
    ensures target.kind == Done ==> r.completedAt == Some(now)
    ensures target.kind != Done ==> r.completedAt == t.completedAt
  {
    if target.kind == Done then t.(statusId := target.id, completedAt := Some(now))
    else t.(statusId := target.id)
  }

  /** One visited task in phase 1 or 2: unchanged unless a status is picked. */
  function MoveStep(ss: seq<Status>, extra: string, t: Task, choice: Option<nat>, now: int): (r: Task)
    requires choice.Some? ==> choice.value <= |ss|
    ensures Pick(ss, extra, choice).None? ==> r == t
    ensures Pick(ss, extra, choice).Some? ==> r == ReviewMove(t, Pick(ss, extra, choice).value, now)
  {
    match Pick(ss, extra, choice)
    case None => t
    case Some(s) => ReviewMove(t, s, now)
  }

  /** The positions of the tasks whose status is of kind `kind`, in table order. */
  function KindVisit(ts: seq<Task>, ss: seq<Status>, kind: StatusType): (r: seq<nat>)
    ensures forall k: nat :: k in r <==> k < |ts| && ts[k].statusId in IdsOfKinds(ss, {kind})
    ensures forall i, j :: 0 <= i < j < |r| ==> r[i] < r[j]
    ensures forall i :: 0 <= i < |r| ==> r[i] < |ts|
  {
    var ids := IdsOfKinds(ss, {kind});
    Positions(ts, (t: Task) => t.statusId in ids)
  }

  /** The table after visiting `visit` in order, the `k`-th visit answered by `answers[k]`. */
  function MovePhase(ts: seq<Task>, ss: seq<Status>, extra: string, visit: seq<nat>,
                     answers: seq<Option<nat>>, now: int): (r: seq<Task>)
    requires forall k :: 0 <= k < |visit| ==> visit[k] < |ts|
    requires ChoicesOffered(ss, answers)
    ensures |r| == |ts|
    decreases |visit|
  {
    if |visit| == 0 then ts
    else
      var n := |visit| - 1;
      var before := MovePhase(ts, ss, extra, visit[..n], answers, now);
      var i := visit[n];
      before[i := Saved(before[i], MoveStep(ss, extra, before[i], Answer(answers, n, None), now), now)]
  }

  /**
   * `processInbox` (kind Inbox, extra entry "Skip") and `reviewActiveTasks`
   * (kind Active, extra entry "Keep as is"): the tasks of that kind are
   * loaded once, then each is offered the status names and saved when moved.
   */
  method ReviewByKind(st: Store, kind: StatusType, extra: string, answers: seq<Option<nat>>, now: int)
    requires st.Valid() && ChoicesOffered(st.statuses, answers)
    modifies st`tasks
    ensures st.Valid()
    ensures st.tasks == MovePhase(old(st.tasks), st.statuses, extra, KindVisit(old(st.tasks), st.statuses, kind), answers, now)
  {
    var visit := KindVisit(st.tasks, st.statuses, kind);
    MoveTasks(st, visit, extra, answers, now);
  }

  /** Each position of `visit` in turn, the `k`-th answered by `answers[k]`. */
  method MoveTasks(st: Store, visit: seq<nat>, extra: string, answers: seq<Option<nat>>, now: int)
    requires st.Valid() && ChoicesOffered(st.statuses, answers)
    requires forall k :: 0 <= k < |visit| ==> visit[k] < |st.tasks|
    modifies st`tasks
    ensures st.Valid()
    ensures st.tasks == MovePhase(old(st.tasks), st.statuses, extra, visit, answers, now)
  {
    ghost var start := st.tasks;
    var k := 0;
    while k < |visit|
      invariant 0 <= k <= |visit|
      invariant st.Valid() && |st.tasks| == |start|
      invariant st.tasks == MovePhase(start, st.statuses, extra, visit[..k], answers, now)
    {
      var i := visit[k];
      MovePhaseNext(start, st.statuses, extra, visit, answers, now, k);
      ghost var before := st.tasks;
      ghost var after := MoveStep(st.statuses, extra, before[i], Answer(answers, k, None), now);
      MoveTask(st, i, extra, Answer(answers, k, None), now);
      assert st.tasks == before[i := Saved(before[i], after, now)];
      assert st.tasks == MovePhase(start, st.statuses, extra, visit[..k + 1], answers, now);
      k := k + 1;
    }
    assert visit[..k] == visit;
  }

  /**
   * One reviewed task: the picked status is saved, with `completed_at`
   * stamped when it is of kind Done; the extra choice leaves the task alone.
   */
  method MoveTask(st: Store, i: nat, extra: string, choice: Option<nat>, now: int)
    requires st.Valid() && i < |st.tasks|
    requires choice.Some? ==> choice.value <= |st.statuses|
    modifies st`tasks
    ensures st.Valid()
    ensures st.tasks == old(st.tasks)[i := Saved(old(st.tasks)[i],
              MoveStep(st.statuses, extra, old(st.tasks)[i], choice, now), now)]
  {
    var chosen := Pick(st.statuses, extra, choice);
    if chosen.Some? {
      var task := st.tasks[i];
      task := task.(statusId := chosen.value.id);
      if chosen.value.kind == Done {
        task := task.(completedAt := Some(now));
      }
      st.SaveTask(i, task, now);
    } else {
      assert st.tasks == st.tasks[i := Saved(st.tasks[i], st.tasks[i], now)];
    }
  }

  /** One more visit extends the phase by that visit's step. */
  lemma MovePhaseNext(ts: seq<Task>, ss: seq<Status>, extra: string, visit: seq<nat>,
                      answers: seq<Option<nat>>, now: int, k: nat)
    requires forall j :: 0 <= j < |visit| ==> visit[j] < |ts|
    requires ChoicesOffered(ss, answers) && k < |visit|
    ensures var before := MovePhase(ts, ss, extra, visit[..k], answers, now);
            MovePhase(ts, ss, extra, visit[..k + 1], answers, now) ==
              before[visit[k] := Saved(before[visit[k]],
                MoveStep(ss, extra, before[visit[k]], Answer(answers, k, None), now), now)]
  {
    assert visit[..k + 1][..k] == visit[..k];
  }

  /** The answer to an overdue task's prompt; the default is Reschedule. */
  datatype OverdueAction =
    | Reschedule(newDeadline: Option<int>)   // None: the deadline prompt was left empty
    | MarkDone
    | Cancel
    | SkipTask

  /**
   * One overdue task: rescheduling sets the deadline only when a date was
   * entered; marking done moves to the first Done status and stamps
   * `completed_at`; cancelling moves to the first Cancelled status and
   * leaves `completed_at` alone. Without a status of the needed kind, or on
   * skip, the task is unchanged. The status never changes on reschedule.
   */
  function OverdueStep(ss: seq<Status>, t: Task, action: OverdueAction, now: int): (r: Task)
    ensures action == SkipTask || action == Reschedule(None) ==> r == t
    ensures action.Reschedule? && action.newDeadline.Some? ==> r == t.(deadline := action.newDeadline)
    ensures action == MarkDone && FirstOfKind(ss, Done).None? ==> r == t
    ensures action == MarkDone && FirstOfKind(ss, Done).Some? ==>
              r == t.(statusId := FirstOfKind(ss, Done).value.id, completedAt := Some(now))
    ensures action == Cancel && FirstOfKind(ss, Cancelled).None? ==> r == t
    ensures action == Cancel && FirstOfKind(ss, Cancelled).Some? ==>
              r == t.(statusId := FirstOfKind(ss, Cancelled).value.id)
  {
    match action
    case Reschedule(d) => if d.Some? then t.(deadline := d) else t
    case MarkDone =>
      (match FirstOfKind(ss, Done)
       case None => t
       case Some(s) => t.(statusId := s.id, completedAt := Some(now)))
    case Cancel =>
      (match FirstOfKind(ss, Cancelled)
       case None => t
       case Some(s) => t.(statusId := s.id))
    case SkipTask => t
  }

  /** The positions of the tasks due before `today` whose status is of an open kind, in table order. */
  function OverdueVisit(ts: seq<Task>, ss: seq<Status>, today: int): (r: seq<nat>)
    ensures forall k: nat :: k in r <==>
              k < |ts| && ts[k].deadline.Some? && ts[k].deadline.value < today &&
              ts[k].statusId in IdsOfKinds(ss, {Inbox, Active})
    ensures forall i, j :: 0 <= i < j < |r| ==> r[i] < r[j]
    ensures forall i :: 0 <= i < |r| ==> r[i] < |ts|
  {
    var open := IdsOfKinds(ss, {Inbox, Active});
    Positions(ts, (t: Task) => t.deadline.Some? && t.deadline.value < today && t.statusId in open)
  }

  /** The table after visiting the overdue positions in order. */
  function OverduePhase(ts: seq<Task>, ss: seq<Status>, visit: seq<nat>, actions: seq<OverdueAction>, now: int)
    : (r: seq<Task>)
    requires forall k :: 0 <= k < |visit| ==> visit[k] < |ts|
    ensures |r| == |ts|
    decreases |visit|
  {
    if |visit| == 0 then ts
    else
      var n := |visit| - 1;
      var before := OverduePhase(ts, ss, visit[..n], actions, now);
      var i := visit[n];
      before[i := Saved(before[i], OverdueStep(ss, before[i], Answer(actions, n, Reschedule(None)), now), now)]
  }

  /** One more visit extends the phase by that visit's step. */
  lemma OverduePhaseNext(ts: seq<Task>, ss: seq<Status>, visit: seq<nat>, actions: seq<OverdueAction>, now: int, k: nat)
    requires forall j :: 0 <= j < |visit| ==> visit[j] < |ts|
    requires k < |visit|
    ensures var before := OverduePhase(ts, ss, visit[..k], actions, now);
            OverduePhase(ts, ss, visit[..k + 1], actions, now) ==
              before[visit[k] := Saved(before[visit[k]],
                OverdueStep(ss, before[visit[k]], Answer(actions, k, Reschedule(None)), now), now)]
  {
    assert visit[..k + 1][..k] == visit[..k];
  }

  /** `rescheduleTask`: a non-empty answer becomes the deadline and is saved. */
  method RescheduleTask(st: Store, i: nat, newDeadline: Option<int>, now: int)
    requires st.Valid() && i < |st.tasks|
    modifies st`tasks
    ensures st.Valid()
    ensures st.tasks == old(st.tasks)[i := Saved(old(st.tasks)[i],
              OverdueStep(st.statuses, old(st.tasks)[i], Reschedule(newDeadline), now), now)]
  {
    if newDeadline.Some? {
      var task := st.tasks[i];
      task := task.(deadline := newDeadline);
      st.SaveTask(i, task, now);
    }
  }

  /** `completeTask`: move to the first Done status and stamp `completed_at`. */
  method CompleteTask(st: Store, i: nat, now: int)
    requires st.Valid() && i < |st.tasks|
    modifies st`tasks
    ensures st.Valid()
    ensures st.tasks == old(st.tasks)[i := Saved(old(st.tasks)[i], OverdueStep(st.statuses, old(st.tasks)[i], MarkDone, now), now)]
  {
    var done := FirstOfKind(st.statuses, Done);
    if done.Some? {
      var task := st.tasks[i];
      task := task.(statusId := done.value.id);
      task := task.(completedAt := Some(now));
      st.SaveTask(i, task, now);
    }
  }

  /** `cancelTask`: move to the first Cancelled status. */
  method CancelTask(st: Store, i: nat, now: int)
    requires st.Valid() && i < |st.tasks|
    modifies st`tasks
    ensures st.Valid()
    ensures st.tasks == old(st.tasks)[i := Saved(old(st.tasks)[i], OverdueStep(st.statuses, old(st.tasks)[i], Cancel, now), now)]
  {
    var cancelled := FirstOfKind(st.statuses, Cancelled);
    if cancelled.Some? {
      var task := st.tasks[i];
      task := task.(statusId := cancelled.value.id);
      st.SaveTask(i, task, now);
    }
  }

  /** One overdue task: the chosen action, or nothing on skip. */
  method OverdueTask(st: Store, i: nat, action: OverdueAction, now: int)
    requires st.Valid() && i < |st.tasks|
    modifies st`tasks
    ensures st.Valid()
    ensures st.tasks == old(st.tasks)[i := Saved(old(st.tasks)[i], OverdueStep(st.statuses, old(st.tasks)[i], action, now), now)]
  {
    match action {
      case Reschedule(d) => RescheduleTask(st, i, d, now);
      case MarkDone => CompleteTask(st, i, now);
      case Cancel => CancelTask(st, i, now);
      case SkipTask => assert st.tasks == st.tasks[i := Saved(st.tasks[i], st.tasks[i], now)];
    }
  }

  /** `handleOverdue`: the overdue tasks are loaded once, then each gets one action. */
  method HandleOverdue(st: Store, actions: seq<OverdueAction>, now: int)
    requires st.Valid()
    modifies st`tasks
    ensures st.Valid()
    ensures st.tasks == OverduePhase(old(st.tasks), st.statuses, OverdueVisit(old(st.tasks), st.statuses, Today(now)), actions, now)
  {
    var visit := OverdueVisit(st.tasks, st.statuses, Today(now));
    OverdueTasks(st, visit, actions, now);
  }

  /** Each position of `visit` in turn, the `k`-th given action `actions[k]`. */
  method OverdueTasks(st: Store, visit: seq<nat>, actions: seq<OverdueAction>, now: int)
    requires st.Valid()
    requires forall k :: 0 <= k < |visit| ==> visit[k] < |st.tasks|
    modifies st`tasks
    ensures st.Valid()
    ensures st.tasks == OverduePhase(old(st.tasks), st.statuses, visit, actions, now)
  {
    ghost var start := st.tasks;
    var k := 0;
    while k < |visit|
      invariant 0 <= k <= |visit|
      invariant st.Valid() && |st.tasks| == |start|
      invariant st.tasks == OverduePhase(start, st.statuses, visit[..k], actions, now)
    {
      var i := visit[k];
      OverduePhaseNext(start, st.statuses, visit, actions, now, k);
      ghost var before := st.tasks;
      ghost var after := OverdueStep(st.statuses, before[i], Answer(actions, k, Reschedule(None)), now);
      OverdueTask(st, i, Answer(actions, k, Reschedule(None)), now);
      assert st.tasks == before[i := Saved(before[i], after, now)];
      assert st.tasks == OverduePhase(start, st.statuses, visit[..k + 1], actions, now);
      k := k + 1;
    }
    assert visit[..k] == visit;
  }

  /** The whole review on the store's contents: the exit code and the tasks afterwards. */
  function Review(schema: Schema, ss: seq<Status>, ts: seq<Task>, inboxAnswers: seq<Option<nat>>,
                  activeAnswers: seq<Option<nat>>, actions: seq<OverdueAction>, now: int): (r: (int, seq<Task>))
    requires ChoicesOffered(ss, inboxAnswers) && ChoicesOffered(ss, activeAnswers)
    ensures |r.1| == |ts|
    ensures r.0 == 1 <==> !Installed(schema, ss)
    ensures r.0 == 1 ==> r.1 == ts
    ensures r.0 == 0 || r.0 == 1
  {
    if !Installed(schema, ss) then (1, ts)
    else
      var afterInbox := MovePhase(ts, ss, SkipChoice, KindVisit(ts, ss, Inbox), inboxAnswers, now);
      var afterActive := MovePhase(afterInbox, ss, KeepChoice, KindVisit(afterInbox, ss, Active), activeAnswers, now);
      (0, OverduePhase(afterActive, ss, OverdueVisit(afterActive, ss, Today(now)), actions, now))
  }

  /** `handle()`: the installation check, then the three phases in order. */
  method Handle(st: Store, inboxAnswers: seq<Option<nat>>, activeAnswers: seq<Option<nat>>,
                actions: seq<OverdueAction>, now: int) returns (code: int)
    requires st.Valid() && ChoicesOffered(st.statuses, inboxAnswers) && ChoicesOffered(st.statuses, activeAnswers)
    modifies st`tasks
    ensures st.Valid()
    ensures (code, st.tasks) == Review(st.schema, st.statuses, old(st.tasks), inboxAnswers, activeAnswers, actions, now)
  {
    if !st.IsInstalled() {
      return 1;
    }
    ReviewByKind(st, Inbox, SkipChoice, inboxAnswers, now);
    ReviewByKind(st, Active, KeepChoice, activeAnswers, now);
    HandleOverdue(st, actions, now);
    return 0;
  }

  /** A visit list that names each position at most once. */
  predicate Distinct(visit: seq<nat>) {
    forall i, j :: 0 <= i < j < |visit| ==> visit[i] != visit[j]
  }

  /** A position phase 1 or 2 does not visit keeps its task. */
  lemma {:induction false} MovePhaseOutside(ts: seq<Task>, ss: seq<Status>, extra: string, visit: seq<nat>,
                                            answers: seq<Option<nat>>, now: int, p: nat)
    requires forall k :: 0 <= k < |visit| ==> visit[k] < |ts|
    requires ChoicesOffered(ss, answers)
    requires p < |ts| && p !in visit
    ensures MovePhase(ts, ss, extra, visit, answers, now)[p] == ts[p]
    decreases |visit|
  {
    if |visit| > 0 {
      var n := |visit| - 1;
      assert visit == visit[..n] + [visit[n]];
      MovePhaseOutside(ts, ss, extra, visit[..n], answers, now, p);
    }
  }

  /**
   * Each task phase 1 or 2 visits is saved once, with the step its own
   * answer calls for, applied to the task as it was when the phase began.
   */
  lemma {:induction false} MovePhaseAt(ts: seq<Task>, ss: seq<Status>, extra: string, visit: seq<nat>,
                                       answers: seq<Option<nat>>, now: int, k: nat)
    requires forall j :: 0 <= j < |visit| ==> visit[j] < |ts|
    requires Distinct(visit) && ChoicesOffered(ss, answers) && k < |visit|
    ensures MovePhase(ts, ss, extra, visit, answers, now)[visit[k]] ==
              Saved(ts[visit[k]], MoveStep(ss, extra, ts[visit[k]], Answer(answers, k, None), now), now)
    decreases |visit|
  {
    var n := |visit| - 1;
    var init := visit[..n];
    assert forall j :: 0 <= j < n ==> init[j] == visit[j];
    if k == n {
      assert forall j :: 0 <= j < n ==> init[j] != visit[n];
      MovePhaseOutside(ts, ss, extra, init, answers, now, visit[n]);
    } else {
      assert visit[k] != visit[n] && init[k] == visit[k];
      MovePhaseAt(ts, ss, extra, init, answers, now, k);
      var before := MovePhase(ts, ss, extra, init, answers, now);
      assert MovePhase(ts, ss, extra, visit, answers, now) ==
             before[visit[n] := Saved(before[visit[n]], MoveStep(ss, extra, before[visit[n]], Answer(answers, n, None), now), now)];
    }
  }

  /** A position the overdue phase does not visit keeps its task. */
  lemma {:induction false} OverduePhaseOutside(ts: seq<Task>, ss: seq<Status>, visit: seq<nat>,
                                               actions: seq<OverdueAction>, now: int, p: nat)
    requires forall k :: 0 <= k < |visit| ==> visit[k] < |ts|
    requires p < |ts| && p !in visit
    ensures OverduePhase(ts, ss, visit, actions, now)[p] == ts[p]
    decreases |visit|
  {
    if |visit| > 0 {
      var n := |visit| - 1;
      assert visit == visit[..n] + [visit[n]];
      OverduePhaseOutside(ts, ss, visit[..n], actions, now, p);
    }
  }

  /** Each overdue task is saved once, with the action answered for it. */
  lemma {:induction false} OverduePhaseAt(ts: seq<Task>, ss: seq<Status>, visit: seq<nat>,
                                          actions: seq<OverdueAction>, now: int, k: nat)
    requires forall j :: 0 <= j < |visit| ==> visit[j] < |ts|
    requires Distinct(visit) && k < |visit|
    ensures OverduePhase(ts, ss, visit, actions, now)[visit[k]] ==
              Saved(ts[visit[k]], OverdueStep(ss, ts[visit[k]], Answer(actions, k, Reschedule(None)), now), now)
    decreases |visit|
  {
    var n := |visit| - 1;
    var init := visit[..n];
    assert forall j :: 0 <= j < n ==> init[j] == visit[j];
    if k == n {
      assert forall j :: 0 <= j < n ==> init[j] != visit[n];
      OverduePhaseOutside(ts, ss, init, actions, now, visit[n]);
    } else {
      assert visit[k] != visit[n] && init[k] == visit[k];
      OverduePhaseAt(ts, ss, init, actions, now, k);
      var before := OverduePhase(ts, ss, init, actions, now);
      assert OverduePhase(ts, ss, visit, actions, now) ==
             before[visit[n] := Saved(before[visit[n]], OverdueStep(ss, before[visit[n]], Answer(actions, n, Reschedule(None)), now), now)];
    }
  }

  /**
   * The overdue phase visits exactly the tasks that are overdue by the
   * queries' test: due before today, with a status of an open kind.
   */
  lemma {:induction false} OverdueVisitIsOverdueOn(ts: seq<Task>, ss: seq<Status>, next: int, today: int, p: nat)
    requires KeysBelow(ss, StatusKey, next)
    ensures p in OverdueVisit(ts, ss, today) <==>
              p < |ts| && KindOf(ss, ts[p].statusId).Some? && OverdueOn(ts[p], KindOf(ss, ts[p].statusId).value, today)
  {
    if p < |ts| {
      IdsOfKindsMeansKind(ss, next, {Inbox, Active}, ts[p].statusId);
    }
  }

  /** A status picked from the table keeps its kind when looked up by id. */
  lemma PickedKind(ss: seq<Status>, next: int, s: Status)
    requires KeysBelow(ss, StatusKey, next) && s in ss
    ensures KindOf(ss, s.id) == Some(s.kind)
  {
    var k :| 0 <= k < |ss| && ss[k] == s;
    KindOfRow(ss, next, k);
  }

  /** A phase 1 or 2 step keeps the lifecycle invariant of a task that is not done. */
  lemma MoveStepKeepsConsistent(ss: seq<Status>, next: int, extra: string, t: Task, choice: Option<nat>, now: int)
    requires KeysBelow(ss, StatusKey, next) && (choice.Some? ==> choice.value <= |ss|)
    requires CompletedMatchesKind(ss, t) && KindOf(ss, t.statusId) != Some(Done)
    ensures CompletedMatchesKind(ss, Saved(t, MoveStep(ss, extra, t, choice, now), now))
  {
    var picked := Pick(ss, extra, choice);
    if picked.Some? {
      PickedKind(ss, next, picked.value);
    }
  }

  /** An overdue step keeps the lifecycle invariant of a task that is not done. */
  lemma OverdueStepKeepsConsistent(ss: seq<Status>, next: int, t: Task, action: OverdueAction, now: int)
    requires KeysBelow(ss, StatusKey, next)
    requires CompletedMatchesKind(ss, t) && KindOf(ss, t.statusId) != Some(Done)
    ensures CompletedMatchesKind(ss, Saved(t, OverdueStep(ss, t, action, now), now))
  {
    match action
    case MarkDone =>
      if FirstOfKind(ss, Done).Some? {
        PickedKind(ss, next, FirstOfKind(ss, Done).value);
      }
    case Cancel =>
      if FirstOfKind(ss, Cancelled).Some? {
        PickedKind(ss, next, FirstOfKind(ss, Cancelled).value);
      }
    case _ =>
  }

  /** Phases 1 and 2 keep the lifecycle invariant when no visited task is done. */
  lemma {:induction false} MovePhaseKeepsConsistent(ts: seq<Task>, ss: seq<Status>, next: int, extra: string,
                                                    visit: seq<nat>, answers: seq<Option<nat>>, now: int)
    requires KeysBelow(ss, StatusKey, next)
    requires forall k :: 0 <= k < |visit| ==> visit[k] < |ts|
    requires Distinct(visit) && ChoicesOffered(ss, answers)
    requires Consistent(ss, ts)
    requires forall k :: 0 <= k < |visit| ==> KindOf(ss, ts[visit[k]].statusId) != Some(Done)
    ensures Consistent(ss, MovePhase(ts, ss, extra, visit, answers, now))
  {
    var r := MovePhase(ts, ss, extra, visit, answers, now);
    forall p | 0 <= p < |r| ensures CompletedMatchesKind(ss, r[p]) {
      if p in visit {
        var k :| 0 <= k < |visit| && visit[k] == p;
        MovePhaseAt(ts, ss, extra, visit, answers, now, k);
        MoveStepKeepsConsistent(ss, next, extra, ts[p], Answer(answers, k, None), now);
      } else {
        MovePhaseOutside(ts, ss, extra, visit, answers, now, p);
      }
    }
  }

  /** The overdue phase keeps the lifecycle invariant when no visited task is done. */
  lemma {:induction false} OverduePhaseKeepsConsistent(ts: seq<Task>, ss: seq<Status>, next: int,
                                                       visit: seq<nat>, actions: seq<OverdueAction>, now: int)
    requires KeysBelow(ss, StatusKey, next)
    requires forall k :: 0 <= k < |visit| ==> visit[k] < |ts|
    requires Distinct(visit) && Consistent(ss, ts)
    requires forall k :: 0 <= k < |visit| ==> KindOf(ss, ts[visit[k]].statusId) != Some(Done)
    ensures Consistent(ss, OverduePhase(ts, ss, visit, actions, now))
  {
    var r := OverduePhase(ts, ss, visit, actions, now);
    forall p | 0 <= p < |r| ensures CompletedMatchesKind(ss, r[p]) {
      if p in visit {
        var k :| 0 <= k < |visit| && visit[k] == p;
        OverduePhaseAt(ts, ss, visit, actions, now, k);
        OverdueStepKeepsConsistent(ss, next, ts[p], Answer(actions, k, Reschedule(None)), now);
      } else {
        OverduePhaseOutside(ts, ss, visit, actions, now, p);
      }
    }
  }

  /**
   * The whole review keeps the lifecycle invariant: every phase visits only
   * inbox or active tasks, and moving one of those never leaves
   * `completed_at` out of step with its new status.
   */
  lemma {:induction false} ReviewKeepsConsistent(schema: Schema, ss: seq<Status>, next: int, ts: seq<Task>,
                                                 inboxAnswers: seq<Option<nat>>, activeAnswers: seq<Option<nat>>,
                                                 actions: seq<OverdueAction>, now: int)
    requires ChoicesOffered(ss, inboxAnswers) && ChoicesOffered(ss, activeAnswers)
    requires KeysBelow(ss, StatusKey, next)
    requires Consistent(ss, ts)
    ensures Consistent(ss, Review(schema, ss, ts, inboxAnswers, activeAnswers, actions, now).1)
  {
    if Installed(schema, ss) {
      var v1 := KindVisit(ts, ss, Inbox);
      forall k | 0 <= k < |v1| ensures KindOf(ss, ts[v1[k]].statusId) != Some(Done) {
        IdsOfKindsMeansKind(ss, next, {Inbox}, ts[v1[k]].statusId);
      }
      MovePhaseKeepsConsistent(ts, ss, next, SkipChoice, v1, inboxAnswers, now);
      var a1 := MovePhase(ts, ss, SkipChoice, v1, inboxAnswers, now);
      var v2 := KindVisit(a1, ss, Active);
      forall k | 0 <= k < |v2| ensures KindOf(ss, a1[v2[k]].statusId) != Some(Done) {
        IdsOfKindsMeansKind(ss, next, {Active}, a1[v2[k]].statusId);
      }
      MovePhaseKeepsConsistent(a1, ss, next, KeepChoice, v2, activeAnswers, now);
      var a2 := MovePhase(a1, ss, KeepChoice, v2, activeAnswers, now);
      var v3 := OverdueVisit(a2, ss, Today(now));
      forall k | 0 <= k < |v3| ensures KindOf(ss, a2[v3[k]].statusId) != Some(Done) {
        IdsOfKindsMeansKind(ss, next, {Inbox, Active}, a2[v3[k]].statusId);
      }
      OverduePhaseKeepsConsistent(a2, ss, next, v3, actions, now);
    }
  }

  /**
   * Phase 2 queries the store again, so an inbox task that phase 1 moved to
   * an active status is reviewed a second time in the same run.
   */
  lemma {:induction false} MovedToActiveIsReviewed(ts: seq<Task>, ss: seq<Status>, answers: seq<Option<nat>>,
                                                  now: int, k: nat)
    requires ChoicesOffered(ss, answers)
    requires k < |KindVisit(ts, ss, Inbox)|
    requires var picked := Pick(ss, SkipChoice, Answer(answers, k, None));
             picked.Some? && picked.value.kind == Active
    ensures var visit := KindVisit(ts, ss, Inbox);
            visit[k] in KindVisit(MovePhase(ts, ss, SkipChoice, visit, answers, now), ss, Active)
  {
    var visit := KindVisit(ts, ss, Inbox);
    var s := Pick(ss, SkipChoice, Answer(answers, k, None)).value;
    MovePhaseAt(ts, ss, SkipChoice, visit, answers, now, k);
    var r := MovePhase(ts, ss, SkipChoice, visit, answers, now);
    assert r[visit[k]].statusId == s.id;
    assert s.id in IdsOfKinds(ss, {Active});
  }
}
