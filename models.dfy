/**
 * The four tables (the Eloquent models and the migration) and the Task model's
 * own behaviour: mass assignment of the fillable fields, `isOverdue`, and
 * what `save()` writes.
 *
 * Dates are day numbers and instants are seconds, both as integers: a date
 * column holds day `d`, Carbon reads it back as the instant `Midnight(d)`,
 * and `now()->toDateString()` is the day `Today(now)`.
 */
module Models {
  import opened Wrappers
  import opened StatusTypes

  /** A row of `task_statuses`: a user-chosen name and a fixed lifecycle kind. */
  datatype Status = Status(id: nat, name: string, kind: StatusType)

  /** A row of `task_priorities`; `level` orders priorities (higher is more urgent). */
  datatype Priority = Priority(id: nat, name: string, level: int)

  /** A row of `task_categories`. */
  datatype Category = Category(id: nat, name: string)

  /** A row of `tasks`. Category, description and the dates are nullable; priority and status are not. */
  datatype Task = Task(
    id: nat,
    name: string,
    description: Option<string>,
    categoryId: Option<nat>,
    priorityId: nat,
    statusId: nat,
    deadline: Option<int>,
    expectedDate: Option<int>,
    completedAt: Option<int>,
    createdAt: int,
    updatedAt: int)

  /** The eight `$fillable` attributes: everything `Task::create` may set. */
  datatype TaskFields = TaskFields(
    name: string,
    description: Option<string>,
    categoryId: Option<nat>,
    priorityId: nat,
    statusId: nat,
    deadline: Option<int>,
    expectedDate: Option<int>,
    completedAt: Option<int>)

  function StatusKey(s: Status): int { s.id }
  function PriorityKey(p: Priority): int { p.id }
  function CategoryKey(c: Category): int { c.id }
  function TaskKey(t: Task): int { t.id }

  /** The fillable part of a task. */
  function Fillable(t: Task): TaskFields {
    TaskFields(t.name, t.description, t.categoryId, t.priorityId, t.statusId,
               t.deadline, t.expectedDate, t.completedAt)
  }

  /**
   * `Task::create(fields)`: the fillable fields come from the caller; the id
   * comes from the table and both timestamps are the creation instant.
   */
  function Create(id: nat, fields: TaskFields, now: int): (t: Task)
    ensures Fillable(t) == fields
    ensures t.id == id && t.createdAt == now && t.updatedAt == now
  {
    Task(id, fields.name, fields.description, fields.categoryId, fields.priorityId,
         fields.statusId, fields.deadline, fields.expectedDate, fields.completedAt, now, now)
  }

  /** Mass assignment cannot reach `id` or the timestamps: two creations differ only there. */
  lemma CreateOnlyFillable(id1: nat, id2: nat, f: TaskFields, now1: int, now2: int)
    ensures Create(id1, f, now1) == Create(id2, f, now2).(id := id1, createdAt := now1, updatedAt := now1)
  {
  }

  /**
   * `save()` on a model whose attributes are `after` and whose stored row is
   * `before`: the row ends up holding the model's attributes, all but
   * `updated_at` exactly; nothing is written when nothing changed, and
   * otherwise `updated_at` becomes now.
   */
  function Saved(before: Task, after: Task, now: int): (r: Task)
    ensures r.(updatedAt := after.updatedAt) == after
    ensures Fillable(r) == Fillable(after) && r.id == after.id && r.createdAt == after.createdAt
    ensures after == before ==> r == before
    ensures after != before ==> r.updatedAt == now
  {
    if after == before then before else after.(updatedAt := now)
  }

  const SecondsPerDay: int := 86400

  /** The instant a date column reads back as: midnight of that day. */
  function Midnight(day: int): int {
    day * SecondsPerDay
  }

  /** The day `now()->toDateString()` names. */
  function Today(now: int): int {
    now / SecondsPerDay
  }

  /**
   * `Task::isOverdue()`, as written: a deadline is set, its midnight is in the
   * past, and the status kind is neither done nor cancelled.
   */
  predicate IsOverdue(t: Task, kind: StatusType, now: int) {
    && t.deadline.Some?
    && Midnight(t.deadline.value) < now
    && kind != Done
    && kind != Cancelled
  }

  /**
   * Overdue as the list and review queries test it and as evidently intended:
   * the deadline day is before today and the kind is open.
   */
  predicate OverdueOn(t: Task, kind: StatusType, today: int) {
    t.deadline.Some? && t.deadline.value < today && kind.IsOpen()
  }

  /** isOverdue is false without a deadline and for terminal kinds, whatever the clock says. */
  lemma OverdueNeedsDeadlineAndOpenKind(t: Task, kind: StatusType, now: int)
    ensures t.deadline.None? ==> !IsOverdue(t, kind, now)
    ensures !kind.IsOpen() ==> !IsOverdue(t, kind, now)
    ensures IsOverdue(t, kind, now) <==>
              t.deadline.Some? && Midnight(t.deadline.value) < now && kind.IsOpen()
  {
  }

  /** With deadline and status fixed, an overdue task stays overdue at every later instant. */
  lemma OverdueStaysOverdue(t: Task, kind: StatusType, now: int, later: int)
    requires now <= later && IsOverdue(t, kind, now)
    ensures IsOverdue(t, kind, later)
  {
  }

  /** Midnight of today is never after now, and midnight of tomorrow is after now. */
  lemma {:induction false} TodayBounds(now: int)
    ensures Midnight(Today(now)) <= now < Midnight(Today(now) + 1)
  {
    assert now == SecondsPerDay * (now / SecondsPerDay) + now % SecondsPerDay;
  }

  /** Every task the queries call overdue is overdue for isOverdue too. */
  lemma OverdueOnImpliesIsOverdue(t: Task, kind: StatusType, now: int)
    requires OverdueOn(t, kind, Today(now))
    ensures IsOverdue(t, kind, now)
  {
    TodayBounds(now);
    var d := t.deadline.value;
    assert d + 1 <= Today(now);
    assert Midnight(d + 1) <= Midnight(Today(now));
  }

  /**
   * The two tests disagree on the due day itself: one second after midnight
   * of day `d`, isOverdue already holds while the queries' test does not.
   */
  lemma DueDayCounterexample(t: Task, d: int)
    requires t.deadline == Some(d)
    ensures IsOverdue(t, Active, Midnight(d) + 1)
    ensures !OverdueOn(t, Active, Today(Midnight(d) + 1))
  {
    assert Today(Midnight(d) + 1) == d;
  }

  /** The intended test: a task due today is not overdue, one due yesterday is. */
  lemma OverdueOnBoundary(t: Task, kind: StatusType, today: int)
    requires kind.IsOpen()
    ensures t.deadline == Some(today) ==> !OverdueOn(t, kind, today)
    ensures t.deadline == Some(today - 1) ==> OverdueOn(t, kind, today)
  {
  }
}
