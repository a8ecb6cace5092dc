/**
 * `task:inbox` (app/Commands/InboxCommand.php): the tasks whose status is of
 * kind Inbox, newest first. It reads the store and writes nothing.
 */
module InboxCommand {
  import opened Wrappers
  import opened StatusTypes
  import opened Models
  import opened Seqs
  import opened Lookup
  import opened Storage

  /**
   * The rows the command shows, or `None` when the installation check fails
   * (exit code 1). An empty inbox is `Some([])` and still exits with 0.
   */
  function Rows(schema: Schema, ss: seq<Status>, ts: seq<Task>): (r: Option<seq<Task>>)
    ensures r.None? <==> !Installed(schema, ss)
    ensures r.Some? ==>
              forall t :: multiset(r.value)[t] ==
                (if t.statusId in IdsOfKinds(ss, {Inbox}) then multiset(ts)[t] else 0)
    ensures r.Some? ==> forall i, j :: 0 <= i < j < |r.value| ==> r.value[i].createdAt >= r.value[j].createdAt
  {
    if !Installed(schema, ss) then None
    else
      var inboxIds := IdsOfKinds(ss, {Inbox});
      var rows := Filter(ts, (t: Task) => t.statusId in inboxIds);
      Some(SortBy(rows, (t: Task) => -t.createdAt))
  }

  /** The exit code: 1 only when not installed. */
  function ExitCode(schema: Schema, ss: seq<Status>, ts: seq<Task>): (code: int)
    ensures code == 0 <==> Installed(schema, ss)
    ensures code == 0 || code == 1
  {
    if Rows(schema, ss, ts).None? then 1 else 0
  }

  /**
   * A task is shown exactly when its status is of kind Inbox: tasks whose
   * status is active, done or cancelled never are.
   */
  lemma {:induction false} ShownIffInboxKind(schema: Schema, ss: seq<Status>, next: int, ts: seq<Task>, t: Task)
    requires Installed(schema, ss)
    requires KeysBelow(ss, StatusKey, next)
    requires t in ts
    ensures t in Rows(schema, ss, ts).value <==> KindOf(ss, t.statusId) == Some(Inbox)
  {
    IdsOfKindsMeansKind(ss, next, {Inbox}, t.statusId);
    var rows := Rows(schema, ss, ts).value;
    assert t in multiset(ts);
    if t in rows {
      assert t in multiset(rows);
    } else {
      assert multiset(rows)[t] == 0;
    }
  }
}
