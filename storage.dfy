/**
 * The SQLite store as the commands see it: the four tables as sequences in
 * id order, the auto-increment counters, and whether the schema exists; plus
 * the installation check of app/Commands/Concerns/EnsuresInstallation.php.
 */
module Storage {
  import opened Wrappers
  import opened StatusTypes
  import opened Models
  import opened Seqs

  /** Whether the database can be read and whether the migrations have created the tables. */
  datatype Schema =
    | Unreadable   // any query raises an exception
    | NoTables     // the file exists but `task_statuses` does not
    | Migrated     // all four tables exist

  /**
   * `checkInstallation()`: false when a query raises, false when the
   * `task_statuses` table is missing, false when it is empty, true otherwise.
   */
  predicate Installed(schema: Schema, statuses: seq<Status>) {
    match schema
    case Unreadable => false
    case NoTables => false
    case Migrated => |statuses| != 0
  }

  /** The check holds exactly when the table exists and holds at least one status. */
  lemma InstalledIff(schema: Schema, statuses: seq<Status>)
    ensures schema == Unreadable ==> !Installed(schema, statuses)
    ensures schema == NoTables ==> !Installed(schema, statuses)
    ensures statuses == [] ==> !Installed(schema, statuses)
    ensures Installed(schema, statuses) <==> schema == Migrated && |statuses| > 0
  {
  }

  class Store {
    var schema: Schema
    var statuses: seq<Status>
    var priorities: seq<Priority>
    var categories: seq<Category>
    var tasks: seq<Task>
    var nextStatusId: nat
    var nextPriorityId: nat
    var nextCategoryId: nat
    var nextTaskId: nat

    /** Rows exist only once the schema does, and every table's ids increase below its positive counter. */
    ghost predicate Valid()
      reads this
    {
      && (schema != Migrated ==> statuses == [] && priorities == [] && categories == [] && tasks == [])
      && IdColumn(statuses, StatusKey, nextStatusId)
      && IdColumn(priorities, PriorityKey, nextPriorityId)
      && IdColumn(categories, CategoryKey, nextCategoryId)
      && IdColumn(tasks, TaskKey, nextTaskId)
    }

    /** A fresh database file before any migration. */
    constructor ()
      ensures Valid()
      ensures schema == NoTables
      ensures statuses == [] && priorities == [] && categories == [] && tasks == []
      ensures nextStatusId == 1 && nextPriorityId == 1 && nextCategoryId == 1 && nextTaskId == 1
    {
      schema := NoTables;
      statuses, priorities, categories, tasks := [], [], [], [];
      nextStatusId, nextPriorityId, nextCategoryId, nextTaskId := 1, 1, 1, 1;
    }

    /** `checkInstallation()` against this store; it reads and changes nothing. */
    predicate IsInstalled()
      reads this
    {
      Installed(schema, statuses)
    }

    /** Running the migrations: creates the missing tables; an unreadable file stays unreadable. */
    method Migrate()
      requires Valid()
      modifies this`schema
      ensures Valid()
      ensures schema == if old(schema) == Unreadable then Unreadable else Migrated
    {
      if schema != Unreadable {
        schema := Migrated;
      }
    }

    /** `TaskStatus::create(['name' => name, 'type' => kind])`. */
    method InsertStatus(name: string, kind: StatusType)
      requires Valid() && schema == Migrated
      modifies this`statuses, this`nextStatusId
      ensures Valid()
      ensures statuses == old(statuses) + [Status(old(nextStatusId), name, kind)]
      ensures nextStatusId == old(nextStatusId) + 1
    {
      IdColumnAppend(statuses, StatusKey, nextStatusId, Status(nextStatusId, name, kind));
      statuses := statuses + [Status(nextStatusId, name, kind)];
      nextStatusId := nextStatusId + 1;
    }

    /** `TaskPriority::create(['name' => name, 'level' => level])`. */
    method InsertPriority(name: string, level: int)
      requires Valid() && schema == Migrated
      modifies this`priorities, this`nextPriorityId
      ensures Valid()
      ensures priorities == old(priorities) + [Priority(old(nextPriorityId), name, level)]
      ensures nextPriorityId == old(nextPriorityId) + 1
    {
      IdColumnAppend(priorities, PriorityKey, nextPriorityId, Priority(nextPriorityId, name, level));
      priorities := priorities + [Priority(nextPriorityId, name, level)];
      nextPriorityId := nextPriorityId + 1;
    }

    /** `TaskCategory::create(['name' => name])`. */
    method InsertCategory(name: string)
      requires Valid() && schema == Migrated
      modifies this`categories, this`nextCategoryId
      ensures Valid()
      ensures categories == old(categories) + [Category(old(nextCategoryId), name)]
      ensures nextCategoryId == old(nextCategoryId) + 1
    {
      IdColumnAppend(categories, CategoryKey, nextCategoryId, Category(nextCategoryId, name));
      categories := categories + [Category(nextCategoryId, name)];
      nextCategoryId := nextCategoryId + 1;
    }

    /** `Task::create(fields)` at instant `now`. */
    method InsertTask(fields: TaskFields, now: int) returns (id: nat)
      requires Valid() && schema == Migrated
      modifies this`tasks, this`nextTaskId
      ensures Valid()
      ensures id == old(nextTaskId)
      ensures tasks == old(tasks) + [Create(id, fields, now)]
      ensures nextTaskId == old(nextTaskId) + 1
    {
      id := nextTaskId;
      IdColumnAppend(tasks, TaskKey, nextTaskId, Create(id, fields, now));
      tasks := tasks + [Create(id, fields, now)];
      nextTaskId := nextTaskId + 1;
    }

    /** `$task->save()` for the task at position `i`, whose attributes are now `after`. */
    method SaveTask(i: nat, after: Task, now: int)
      requires Valid() && i < |tasks| && after.id == tasks[i].id
      modifies this`tasks
      ensures Valid()
      ensures tasks == old(tasks)[i := Saved(old(tasks)[i], after, now)]
    {
      IdColumnUpdate(tasks, TaskKey, nextTaskId, i, Saved(tasks[i], after, now));
      tasks := tasks[i := Saved(tasks[i], after, now)];
    }

    /**
     * `query()->delete()` on statuses, then priorities, then categories, with
     * the engine's foreign keys on. A delete that would leave some task
     * pointing at a missing status or priority is refused: it raises, changes
     * nothing, and the deletes after it never run. The category delete sets
     * the tasks' category to null. Counters stay.
     */
    method DeleteReferenceData() returns (ok: bool)
      requires Valid()
      modifies this`statuses, this`priorities, this`categories, this`tasks
      ensures Valid()
      ensures ok <==> !StatusesReferenced(old(statuses), old(tasks)) && !PrioritiesReferenced(old(priorities), old(tasks))
      ensures StatusesReferenced(old(statuses), old(tasks)) ==>
                statuses == old(statuses) && priorities == old(priorities) &&
                categories == old(categories) && tasks == old(tasks)
      ensures !StatusesReferenced(old(statuses), old(tasks)) && PrioritiesReferenced(old(priorities), old(tasks)) ==>
                statuses == [] && priorities == old(priorities) &&
                categories == old(categories) && tasks == old(tasks)
      ensures ok ==> statuses == [] && priorities == [] && categories == [] &&
                     tasks == Unlinked(old(categories), old(tasks))
    {
      if StatusesReferenced(statuses, tasks) {
        return false;
      }
      IdColumnIsKeysBelow(statuses, StatusKey, nextStatusId);
      statuses := [];
      if PrioritiesReferenced(priorities, tasks) {
        return false;
      }
      IdColumnIsKeysBelow(priorities, PriorityKey, nextPriorityId);
      IdColumnIsKeysBelow(categories, CategoryKey, nextCategoryId);
      UnlinkedKeepsIds(categories, tasks, nextTaskId);
      priorities, categories, tasks := [], [], Unlinked(categories, tasks);
      return true;
    }
  }

  /** Some task's `task_status_id` names one of the statuses. */
  predicate StatusesReferenced(ss: seq<Status>, ts: seq<Task>) {
    exists i, k :: 0 <= i < |ts| && 0 <= k < |ss| && ts[i].statusId == ss[k].id
  }

  /** Some task's `task_priority_id` names one of the priorities. */
  predicate PrioritiesReferenced(ps: seq<Priority>, ts: seq<Task>) {
    exists i, k :: 0 <= i < |ts| && 0 <= k < |ps| && ts[i].priorityId == ps[k].id
  }

  /** Whether a task's category is one of `cs`. */
  predicate InCategories(cs: seq<Category>, t: Task) {
    t.categoryId.Some? && exists k :: 0 <= k < |cs| && cs[k].id == t.categoryId.value
  }

  /**
   * The tasks after deleting the categories `cs` under `nullOnDelete()`: a
   * task whose category was deleted has none, and nothing else changes.
   */
  function Unlinked(cs: seq<Category>, ts: seq<Task>): (r: seq<Task>)
    ensures |r| == |ts|
    ensures forall i :: 0 <= i < |ts| ==> r[i] == ts[i].(categoryId := r[i].categoryId)
    ensures forall i :: 0 <= i < |ts| && InCategories(cs, ts[i]) ==> r[i].categoryId == None
    ensures forall i :: 0 <= i < |ts| && !InCategories(cs, ts[i]) ==> r[i] == ts[i]
  {
    seq(|ts|, i requires 0 <= i < |ts| => if InCategories(cs, ts[i]) then ts[i].(categoryId := None) else ts[i])
  }

  /** Unlinking categories keeps every task's id, so the id column stays as it was. */
  lemma {:induction false} UnlinkedKeepsIds(cs: seq<Category>, ts: seq<Task>, next: int)
    requires IdColumn(ts, TaskKey, next)
    ensures IdColumn(Unlinked(cs, ts), TaskKey, next)
  {
    var r := Unlinked(cs, ts);
    IdColumnIsKeysBelow(ts, TaskKey, next);
    assert forall i :: 0 <= i < |ts| ==> TaskKey(r[i]) == TaskKey(ts[i]);
    IdColumnIsKeysBelow(r, TaskKey, next);
  }

  /**
   * While the foreign keys hold, every task names an existing status, so the
   * status delete is refused exactly when some task exists.
   */
  lemma {:induction false} StatusDeleteRefusedIffTasks(ss: seq<Status>, ts: seq<Task>)
    requires forall i :: 0 <= i < |ts| ==> exists k :: 0 <= k < |ss| && ss[k].id == ts[i].statusId
    ensures StatusesReferenced(ss, ts) <==> ts != []
  {
    if ts != [] {
      var k :| 0 <= k < |ss| && ss[k].id == ts[0].statusId;
      assert ts[0].statusId == ss[k].id;
    }
  }

  /** A valid store's id columns are strictly increasing, positive and below their counters. */
  lemma ValidIds(st: Store)
    requires st.Valid()
    ensures st.nextStatusId > 0 && st.nextPriorityId > 0 && st.nextCategoryId > 0 && st.nextTaskId > 0
    ensures KeysBelow(st.statuses, StatusKey, st.nextStatusId)
    ensures KeysBelow(st.priorities, PriorityKey, st.nextPriorityId)
    ensures KeysBelow(st.categories, CategoryKey, st.nextCategoryId)
    ensures KeysBelow(st.tasks, TaskKey, st.nextTaskId)
  {
    IdColumnIsKeysBelow(st.statuses, StatusKey, st.nextStatusId);
    IdColumnIsKeysBelow(st.priorities, PriorityKey, st.nextPriorityId);
    IdColumnIsKeysBelow(st.categories, CategoryKey, st.nextCategoryId);
    IdColumnIsKeysBelow(st.tasks, TaskKey, st.nextTaskId);
  }
}
