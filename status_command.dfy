/**
 * `task:status {id} {status?}` (app/Commands/StatusCommand.php): moves one
 * task to another status and keeps `completed_at` in step with the new
 * status's kind.
 */
module StatusCommand {
  import opened Wrappers
  import opened Text
  import opened StatusTypes
  import opened Models
  import opened Seqs
  import opened Lookup
  import opened Storage

  /** How the command ends. */
  datatype Outcome =
    | NotInstalled
    | TaskNotFound
    | StatusNotFound
    | Changed(status: Status)

  /** The process exit code: 0 only when the status was changed. */
  function ExitCode(o: Outcome): (code: int)
    ensures code == 0 <==> o.Changed?
    ensures code == 0 || code == 1
  {
    if o.Changed? then 0 else 1
  }

  /**
   * The status to move to. A truthy `arg` is looked up fuzzily and may miss;
   * otherwise the user picks entry `choice` of the offered status names and
   * the first status carrying that name is taken.
   */
  function Target(ss: seq<Status>, arg: string, choice: nat): (r: Option<Status>)
    requires !Truthy(arg) ==> choice < |ss|
    ensures r.Some? ==> r.value in ss
    ensures Truthy(arg) ==> (r.Some? <==> exists s :: s in ss && Like(s.name, arg))
    ensures Truthy(arg) && r.Some? ==>
              exists k :: 0 <= k < |ss| && r.value == ss[k] && Like(ss[k].name, arg) &&
                forall j :: 0 <= j < k ==> !Like(ss[j].name, arg)
    ensures !Truthy(arg) ==>
              exists k :: 0 <= k <= choice && r == Some(ss[k]) && ss[k].name == ss[choice].name &&
                forall j :: 0 <= j < k ==> ss[j].name != ss[choice].name
  {
    if Truthy(arg) then StatusLike(ss, arg)
    else
      var r := StatusNamed(ss, ss[choice].name);
      assert ss[choice] in ss;
      r
  }

  /**
   * The task after the move, before saving: it carries the target's id,
   * and `completed_at` is now when the target is Done and null otherwise.
   */
  function Transition(t: Task, target: Status, now: int): (r: Task)
    ensures r == t.(statusId := target.id, completedAt := r.completedAt)
    ensures r.completedAt.Some? <==> target.kind == Done
    ensures target.kind == Done ==> r.completedAt == Some(now)
  {
    t.(statusId := target.id, completedAt := if target.kind == Done then Some(now) else None)
  }

  /** The whole command on the store's contents: how it ends and the tasks afterwards. */
  function Run(schema: Schema, ss: seq<Status>, ts: seq<Task>, id: int, arg: string, choice: nat, now: int)
    : (r: (Outcome, seq<Task>))
    requires Installed(schema, ss) && !Truthy(arg) ==> choice < |ss|
    ensures |r.1| == |ts|
    ensures !r.0.Changed? ==> r.1 == ts
    ensures r.0 == NotInstalled <==> !Installed(schema, ss)
    ensures r.0 == TaskNotFound ==> forall t :: t in ts ==> t.id != id
    ensures Installed(schema, ss) ==> (r.0 == TaskNotFound <==> forall t :: t in ts ==> t.id != id)
    ensures Installed(schema, ss) && (exists t :: t in ts && t.id == id) ==>
              (r.0 == StatusNotFound <==> Target(ss, arg, choice).None?)
    ensures r.0.Changed? ==>
              && Target(ss, arg, choice) == Some(r.0.status)
              && exists i :: 0 <= i < |ts| && ts[i].id == id && (forall j :: 0 <= j < i ==> ts[j].id != id) &&
                   r.1 == ts[i := Saved(ts[i], Transition(ts[i], r.0.status, now), now)]
  {
    if !Installed(schema, ss) then (NotInstalled, ts)
    else match TaskIndex(ts, id)
      case None => (TaskNotFound, ts)
      case Some(i) =>
        match Target(ss, arg, choice)
        case None => (StatusNotFound, ts)
        case Some(s) => (Changed(s), ts[i := Saved(ts[i], Transition(ts[i], s, now), now)])
  }

  /** `handle()` against the store. */
  method Handle(st: Store, id: int, arg: string, choice: nat, now: int) returns (code: int)
    requires st.Valid()
    requires st.IsInstalled() && !Truthy(arg) ==> choice < |st.statuses|
    modifies st`tasks
    ensures st.Valid()
    ensures code == ExitCode(Run(st.schema, st.statuses, old(st.tasks), id, arg, choice, now).0)
    ensures st.tasks == Run(st.schema, st.statuses, old(st.tasks), id, arg, choice, now).1
  {
    if !st.IsInstalled() {
      return 1;
    }
    var found := TaskIndex(st.tasks, id);
    if found.None? {
      return 1;
    }
    var i := found.value;
    var target := Target(st.statuses, arg, choice);
    if target.None? {
      return 1;
    }
    var task := st.tasks[i];
    task := task.(statusId := target.value.id);
    if target.value.kind == Done {
      task := task.(completedAt := Some(now));
    } else if task.completedAt.Some? {
      task := task.(completedAt := None);
    }
    st.SaveTask(i, task, now);
    return 0;
  }

  /**
   * After a change, the task found by id is the only one that differs; it
   * carries the new status, its `completed_at` is set exactly when that
   * status is Done (to now), and apart from status, `completed_at` and
   * `updated_at` it is the task as it was.
   */
  lemma {:induction false} ChangeTouchesOneTask(
    schema: Schema, ss: seq<Status>, ts: seq<Task>, id: int, arg: string, choice: nat, now: int)
    requires Installed(schema, ss) && !Truthy(arg) ==> choice < |ss|
    requires Run(schema, ss, ts, id, arg, choice, now).0.Changed?
    ensures TaskIndex(ts, id).Some?
    ensures var i := TaskIndex(ts, id).value;
            var s := Run(schema, ss, ts, id, arg, choice, now).0.status;
            var ts' := Run(schema, ss, ts, id, arg, choice, now).1;
            && i < |ts| && ts[i].id == id
            && s in ss && Target(ss, arg, choice) == Some(s)
            && (forall j :: 0 <= j < |ts| && j != i ==> ts'[j] == ts[j])
            && ts'[i].statusId == s.id
            && (ts'[i].completedAt.Some? <==> s.kind == Done)
            && (s.kind == Done ==> ts'[i].completedAt == Some(now))
            && ts'[i] == ts[i].(statusId := s.id, completedAt := ts'[i].completedAt, updatedAt := ts'[i].updatedAt)
  {
    var i := TaskIndex(ts, id).value;
    var s := Target(ss, arg, choice).value;
    var after := Transition(ts[i], s, now);
    assert Saved(ts[i], after, now).updatedAt == after.updatedAt || Saved(ts[i], after, now).updatedAt == now;
  }

  /** A change keeps every task's `completed_at` in step with its status's kind. */
  lemma {:induction false} ChangeKeepsConsistent(
    schema: Schema, ss: seq<Status>, next: int, ts: seq<Task>, id: int, arg: string, choice: nat, now: int)
    requires Installed(schema, ss) && !Truthy(arg) ==> choice < |ss|
    requires KeysBelow(ss, StatusKey, next)
    requires Consistent(ss, ts)
    ensures Consistent(ss, Run(schema, ss, ts, id, arg, choice, now).1)
  {
    var r := Run(schema, ss, ts, id, arg, choice, now);
    if r.0.Changed? {
      ChangeTouchesOneTask(schema, ss, ts, id, arg, choice, now);
      var i := TaskIndex(ts, id).value;
      var s := r.0.status;
      var k :| 0 <= k < |ss| && ss[k] == s;
      KindOfRow(ss, next, k);
      assert CompletedMatchesKind(ss, r.1[i]);
      forall j | 0 <= j < |r.1|
        ensures CompletedMatchesKind(ss, r.1[j])
      {
        if j != i {
          assert r.1[j] == ts[j];
        }
      }
    }
  }
}
