/**
 * `task:list` (app/Commands/ListCommand.php): builds a query clause by
 * clause from the options, returns the matching tasks by descending
 * priority id, and colours each row's priority by its level.
 */
module ListCommand {
  import opened Wrappers
  import opened Text
  import opened StatusTypes
  import opened Models
  import opened Seqs
  import opened Lookup
  import opened Storage

  /** The options; a text option is "" when absent (null and "" are both falsy). */
  datatype ListOptions = ListOptions(
    status: string,
    category: string,
    priority: string,
    overdue: bool,
    all: bool,
    search: string)

  /** One `where` clause of the query builder. */
  datatype Clause =
    | StatusIs(statusId: nat)            // where('task_status_id', id)
    | StatusIn(ids: seq<nat>)            // whereIn('task_status_id', ids)
    | CategoryIs(categoryId: nat)        // where('task_category_id', id)
    | PriorityIs(priorityId: nat)        // where('task_priority_id', id)
    | DeadlineSet                        // whereNotNull('deadline')
    | DeadlineBefore(day: int)           // where('deadline', '<', day)
    | Mentions(text: string)             // name LIKE %text% OR description LIKE %text%

  /** The kinds the default view and the overdue filter keep. */
  const OpenKinds: set<StatusType> := {Inbox, Active}

  /** Whether a row passes one clause; a null column passes no comparison. */
  predicate Satisfies(t: Task, c: Clause) {
    match c
    case StatusIs(id) => t.statusId == id
    case StatusIn(ids) => t.statusId in ids
    case CategoryIs(id) => t.categoryId == Some(id)
    case PriorityIs(id) => t.priorityId == id
    case DeadlineSet => t.deadline.Some?
    case DeadlineBefore(day) => t.deadline.Some? && t.deadline.value < day
    case Mentions(text) => Like(t.name, text) || (t.description.Some? && Like(t.description.value, text))
  }

  /** Clauses are AND-combined. */
  predicate SatisfiesAll(t: Task, q: seq<Clause>) {
    forall i :: 0 <= i < |q| ==> Satisfies(t, q[i])
  }

  /** The status of this id exists and is of an open kind. */
  predicate OpenStatus(ss: seq<Status>, id: nat) {
    KindOf(ss, id).Some? && KindOf(ss, id).value in OpenKinds
  }

  /** The status option: a fuzzy match fixes the status; without it only open kinds show, unless --all. */
  predicate StatusWanted(ss: seq<Status>, o: ListOptions, t: Task) {
    if Truthy(o.status) then StatusLike(ss, o.status).Some? && t.statusId == StatusLike(ss, o.status).value.id
    else !o.all ==> OpenStatus(ss, t.statusId)
  }

  /** The category option narrows only when it matches a category. */
  predicate CategoryWanted(cs: seq<Category>, o: ListOptions, t: Task) {
    Truthy(o.category) && CategoryLike(cs, o.category).Some? ==>
      t.categoryId == Some(CategoryLike(cs, o.category).value.id)
  }

  /** The priority option narrows only when it matches a priority. */
  predicate PriorityWanted(ps: seq<Priority>, o: ListOptions, t: Task) {
    Truthy(o.priority) && PriorityLike(ps, o.priority).Some? ==>
      t.priorityId == PriorityLike(ps, o.priority).value.id
  }

  /** --overdue keeps the tasks overdue today by the queries' test. */
  predicate OverdueWanted(ss: seq<Status>, o: ListOptions, today: int, t: Task) {
    o.overdue ==> KindOf(ss, t.statusId).Some? && OverdueOn(t, KindOf(ss, t.statusId).value, today)
  }

  /** --search keeps the tasks whose name or description contains the text. */
  predicate SearchWanted(o: ListOptions, t: Task) {
    Truthy(o.search) ==> Like(t.name, o.search) || (t.description.Some? && Like(t.description.value, o.search))
  }

  /**
   * Which tasks the options ask for, stated on the tasks' own attributes
   * and the kinds of their statuses rather than on query clauses.
   */
  predicate Wanted(ss: seq<Status>, cs: seq<Category>, ps: seq<Priority>, o: ListOptions, today: int, t: Task) {
    StatusWanted(ss, o, t) && CategoryWanted(cs, o, t) && PriorityWanted(ps, o, t) &&
    OverdueWanted(ss, o, today, t) && SearchWanted(o, t)
  }

  /** AND-combining two lists of clauses. */
  lemma SatisfiesAllAppend(t: Task, a: seq<Clause>, b: seq<Clause>)
    ensures SatisfiesAll(t, a + b) <==> SatisfiesAll(t, a) && SatisfiesAll(t, b)
  {
    if SatisfiesAll(t, a) && SatisfiesAll(t, b) {
      forall i | 0 <= i < |a + b| ensures Satisfies(t, (a + b)[i]) {
        if i >= |a| {
          assert (a + b)[i] == b[i - |a|];
        }
      }
    }
    if SatisfiesAll(t, a + b) {
      forall i | 0 <= i < |a| ensures Satisfies(t, a[i]) {
        assert (a + b)[i] == a[i];
      }
      forall i | 0 <= i < |b| ensures Satisfies(t, b[i]) {
        assert (a + b)[i + |a|] == b[i];
      }
    }
  }

  /** `whereIn('task_status_id', ids of the open kinds)` means "the status is of an open kind". */
  lemma OpenIdsMeanOpenKind(ss: seq<Status>, next: int)
    requires KeysBelow(ss, StatusKey, next)
    ensures forall id: nat :: id in IdsOfKinds(ss, OpenKinds) <==> OpenStatus(ss, id)
  {
    var open := IdsOfKinds(ss, OpenKinds);
    forall id: nat ensures id in open <==> OpenStatus(ss, id) {
      IdsOfKindsMeansKind(ss, next, OpenKinds, id);
    }
  }

  /** A query of one clause is that clause. */
  lemma OneClause(t: Task, c: Clause)
    ensures SatisfiesAll(t, [c]) <==> Satisfies(t, c)
  {
    assert [c][0] == c;
  }

  /** The category clause: present only when the option matches a category. */
  function CategoryClauses(cs: seq<Category>, o: ListOptions): (r: seq<Clause>)
    ensures forall t :: SatisfiesAll(t, r) <==> CategoryWanted(cs, o, t)
  {
    if Truthy(o.category) && CategoryLike(cs, o.category).Some?
    then
      var r := [CategoryIs(CategoryLike(cs, o.category).value.id)];
      assert forall t :: SatisfiesAll(t, r) <==> Satisfies(t, r[0]);
      r
    else []
  }

  /** The priority clause: present only when the option matches a priority. */
  function PriorityClauses(ps: seq<Priority>, o: ListOptions): (r: seq<Clause>)
    ensures forall t :: SatisfiesAll(t, r) <==> PriorityWanted(ps, o, t)
  {
    if Truthy(o.priority) && PriorityLike(ps, o.priority).Some?
    then
      var r := [PriorityIs(PriorityLike(ps, o.priority).value.id)];
      assert forall t :: SatisfiesAll(t, r) <==> Satisfies(t, r[0]);
      r
    else []
  }

  /** The three overdue clauses, given the ids of the open-kind statuses. */
  function OverdueClauses(open: seq<nat>, o: ListOptions, today: int): (r: seq<Clause>)
    ensures forall t :: SatisfiesAll(t, r) <==>
              (o.overdue ==> t.deadline.Some? && t.deadline.value < today && t.statusId in open)
  {
    if o.overdue then
      var r := [DeadlineSet, DeadlineBefore(today), StatusIn(open)];
      assert forall t :: SatisfiesAll(t, r) <==> Satisfies(t, r[0]) && Satisfies(t, r[1]) && Satisfies(t, r[2]);
      r
    else []
  }

  /** The search clause. */
  function SearchClauses(o: ListOptions): (r: seq<Clause>)
    ensures forall t :: SatisfiesAll(t, r) <==> SearchWanted(o, t)
  {
    if Truthy(o.search) then
      var r := [Mentions(o.search)];
      assert forall t :: SatisfiesAll(t, r) <==> Satisfies(t, r[0]);
      r
    else []
  }

  /**
   * The query the options build, one group of clauses after another;
   * `None` when the status option matches no status (the command warns and
   * stops). Its rows are exactly the wanted tasks.
   */
  method BuildQuery(st: Store, o: ListOptions, today: int) returns (q: Option<seq<Clause>>)
    requires st.Valid()
    ensures q.None? <==> Truthy(o.status) && StatusLike(st.statuses, o.status).None?
    ensures q.Some? ==> forall t :: SatisfiesAll(t, q.value) <==>
              Wanted(st.statuses, st.categories, st.priorities, o, today, t)
  {
    ValidIds(st);
    var ss, cs, ps := st.statuses, st.categories, st.priorities;
    var open := IdsOfKinds(ss, OpenKinds);
    OpenIdsMeanOpenKind(ss, st.nextStatusId);
    var clauses: seq<Clause> := [];
    if Truthy(o.status) {
      var s := StatusLike(ss, o.status);
      if s.None? {
        return None;
      }
      clauses := clauses + [StatusIs(s.value.id)];
    } else if !o.all {
      clauses := clauses + [StatusIn(open)];
    }
    forall t ensures SatisfiesAll(t, clauses) <==> StatusWanted(ss, o, t) {
      if |clauses| == 1 {
        OneClause(t, clauses[0]);
        assert clauses == [clauses[0]];
      }
    }
    ghost var byStatus := clauses;
    clauses := clauses + CategoryClauses(cs, o);
    clauses := clauses + PriorityClauses(ps, o);
    clauses := clauses + OverdueClauses(open, o, today);
    clauses := clauses + SearchClauses(o);
    forall t ensures SatisfiesAll(t, clauses) <==> Wanted(ss, cs, ps, o, today, t) {
      QueryMeansWanted(ss, cs, ps, o, today, open, byStatus, t);
    }
    q := Some(clauses);
  }

  /** The category, priority, overdue and search clauses add exactly their filters to the status filter. */
  lemma QueryMeansWanted(ss: seq<Status>, cs: seq<Category>, ps: seq<Priority>, o: ListOptions, today: int,
                         open: seq<nat>, byStatus: seq<Clause>, t: Task)
    requires forall id :: id in open <==> OpenStatus(ss, id)
    requires SatisfiesAll(t, byStatus) <==> StatusWanted(ss, o, t)
    ensures SatisfiesAll(t, byStatus + CategoryClauses(cs, o) + PriorityClauses(ps, o) +
                            OverdueClauses(open, o, today) + SearchClauses(o)) <==>
            Wanted(ss, cs, ps, o, today, t)
  {
    var c, p, d, x := CategoryClauses(cs, o), PriorityClauses(ps, o), OverdueClauses(open, o, today), SearchClauses(o);
    SatisfiesAllAppend(t, byStatus, c);
    SatisfiesAllAppend(t, byStatus + c, p);
    SatisfiesAllAppend(t, byStatus + c + p, d);
    SatisfiesAllAppend(t, byStatus + c + p + d, x);
    if o.overdue && KindOf(ss, t.statusId).Some? {
      OverdueOnOpen(t, KindOf(ss, t.statusId).value, today);
    }
  }

  /** The overdue test the query applies is the intended one, for any open kind. */
  lemma OverdueOnOpen(t: Task, kind: StatusType, today: int)
    ensures OverdueOn(t, kind, today) <==>
              t.deadline.Some? && t.deadline.value < today && kind in OpenKinds
  {
  }

  /**
   * `handle()`: the listed rows, `None` when the status option matches
   * nothing. The rows are exactly the wanted tasks, each as often as in the
   * table, by descending priority id; the command writes nothing.
   */
  method Handle(st: Store, o: ListOptions, today: int) returns (rows: Option<seq<Task>>)
    requires st.Valid()
    ensures rows.None? <==> Truthy(o.status) && StatusLike(st.statuses, o.status).None?
    ensures rows.Some? ==>
              forall t :: multiset(rows.value)[t] ==
                (if Wanted(st.statuses, st.categories, st.priorities, o, today, t) then multiset(st.tasks)[t] else 0)
    ensures rows.Some? ==> forall i, j :: 0 <= i < j < |rows.value| ==> rows.value[i].priorityId >= rows.value[j].priorityId
  {
    var q := BuildQuery(st, o, today);
    if q.None? {
      return None;
    }
    var clauses := q.value;
    var matching := Filter(st.tasks, (t: Task) => SatisfiesAll(t, clauses));
    var sorted := SortBy(matching, (t: Task) => -(t.priorityId as int));
    return Some(sorted);
  }

  /** The colour of a priority cell. */
  datatype Band = Gray | Cyan | Yellow | Red

  function Rank(b: Band): nat {
    match b
    case Gray => 0
    case Cyan => 1
    case Yellow => 2
    case Red => 3
  }

  /** The level shown for a task: its priority's level, 0 when the priority row is missing. */
  function LevelOf(ps: seq<Priority>, priorityId: nat): (level: int)
    ensures (forall p :: p in ps ==> p.id != priorityId) ==> level == 0
    ensures (exists p :: p in ps && p.id == priorityId) ==>
              exists p :: p in ps && p.id == priorityId && level == p.level
  {
    match First(ps, (p: Priority) => p.id == priorityId)
    case None => 0
    case Some(p) => p.level
  }

  /** The colour band: red from level 30, yellow from 20, cyan from 10, gray below. */
  function BandOf(level: int): (b: Band)
    ensures b == Red <==> 30 <= level
    ensures b == Yellow <==> 20 <= level < 30
    ensures b == Cyan <==> 10 <= level < 20
    ensures b == Gray <==> level < 10
  {
    if level >= 30 then Red
    else if level >= 20 then Yellow
    else if level >= 10 then Cyan
    else Gray
  }

  /** A higher level never gets a lower band. */
  lemma BandMonotone(a: int, b: int)
    requires a <= b
    ensures Rank(BandOf(a)) <= Rank(BandOf(b))
  {
  }

  /**
   * The rows are ordered by priority id, not by level. When ids grow with
   * levels, as they do after installing the default priorities, the order is
   * also by descending level.
   */
  lemma {:induction false} IdOrderIsLevelOrder(ps: seq<Priority>, next: int, rows: seq<Task>)
    requires KeysBelow(ps, PriorityKey, next)
    requires forall i, j :: 0 <= i < j < |ps| ==> ps[i].level <= ps[j].level
    requires forall t :: t in rows ==> exists p :: p in ps && p.id == t.priorityId
    requires forall i, j :: 0 <= i < j < |rows| ==> rows[i].priorityId >= rows[j].priorityId
    ensures forall i, j :: 0 <= i < j < |rows| ==>
              LevelOf(ps, rows[i].priorityId) >= LevelOf(ps, rows[j].priorityId)
  {
    forall i, j | 0 <= i < j < |rows|
      ensures LevelOf(ps, rows[i].priorityId) >= LevelOf(ps, rows[j].priorityId)
    {
      assert rows[i] in rows && rows[j] in rows;
      var a := PriorityAt(ps, next, rows[i].priorityId);
      var b := PriorityAt(ps, next, rows[j].priorityId);
      if a != b {
        assert ps[a].id > ps[b].id;
        assert b < a;
      }
    }
  }

  /** With increasing ids, the position of the priority with a given id, whose level LevelOf reports. */
  lemma {:induction false} PriorityAt(ps: seq<Priority>, next: int, id: nat) returns (k: nat)
    requires KeysBelow(ps, PriorityKey, next)
    requires exists p :: p in ps && p.id == id
    ensures k < |ps| && ps[k].id == id && LevelOf(ps, id) == ps[k].level
  {
    var p :| p in ps && p.id == id;
    var m :| 0 <= m < |ps| && ps[m] == p;
    var j := FirstIndex(ps, (q: Priority) => q.id == id);
    assert ps[m].id == id;
    k := j.value;
    assert PriorityKey(ps[k]) == PriorityKey(ps[m]);
  }
}
