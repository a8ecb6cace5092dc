/**
 * The lookups the commands make against the reference tables, each in id
 * order: fuzzy (`where('name', 'like', "%x%")->first()`), exact
 * (`where('name', x)->first()`), by kind, and `whereIn('type', ...)->pluck('id')`;
 * plus the lifecycle invariant that relates a task's `completed_at` to the
 * kind of its status.
 */
module Lookup {
  import opened Wrappers
  import opened Text
  import opened StatusTypes
  import opened Models
  import opened Seqs

  /**
   * Fuzzy status lookup: the first status in id order whose name contains
   * `q`, ignoring ASCII case; none when no name contains it.
   */
  function StatusLike(ss: seq<Status>, q: string): (r: Option<Status>)
    ensures r.None? <==> forall k :: 0 <= k < |ss| ==> !Like(ss[k].name, q)
    ensures r.Some? ==> exists k :: 0 <= k < |ss| && r.value == ss[k] && Like(ss[k].name, q) &&
                          forall j :: 0 <= j < k ==> !Like(ss[j].name, q)
  {
    First(ss, (s: Status) => Like(s.name, q))
  }

  /** Exact status lookup: the first status in id order carrying `name`. */
  function StatusNamed(ss: seq<Status>, name: string): (r: Option<Status>)
    ensures r.None? <==> forall k :: 0 <= k < |ss| ==> ss[k].name != name
    ensures r.Some? ==> exists k :: 0 <= k < |ss| && r.value == ss[k] && ss[k].name == name &&
                          forall j :: 0 <= j < k ==> ss[j].name != name
  {
    First(ss, (s: Status) => s.name == name)
  }

  /** `TaskStatus::where('type', kind)->first()`. */
  function FirstOfKind(ss: seq<Status>, kind: StatusType): (r: Option<Status>)
    ensures r.None? <==> forall k :: 0 <= k < |ss| ==> ss[k].kind != kind
    ensures r.Some? ==> exists k :: 0 <= k < |ss| && r.value == ss[k] && ss[k].kind == kind &&
                          forall j :: 0 <= j < k ==> ss[j].kind != kind
  {
    First(ss, (s: Status) => s.kind == kind)
  }

  /** Fuzzy category lookup: the first category in id order whose name contains `q`. */
  function CategoryLike(cs: seq<Category>, q: string): (r: Option<Category>)
    ensures r.None? <==> forall k :: 0 <= k < |cs| ==> !Like(cs[k].name, q)
    ensures r.Some? ==> exists k :: 0 <= k < |cs| && r.value == cs[k] && Like(cs[k].name, q) &&
                          forall j :: 0 <= j < k ==> !Like(cs[j].name, q)
  {
    First(cs, (c: Category) => Like(c.name, q))
  }

  /** Exact category lookup: the first category in id order carrying `name`. */
  function CategoryNamed(cs: seq<Category>, name: string): (r: Option<Category>)
    ensures r.None? <==> forall k :: 0 <= k < |cs| ==> cs[k].name != name
    ensures r.Some? ==> exists k :: 0 <= k < |cs| && r.value == cs[k] && cs[k].name == name &&
                          forall j :: 0 <= j < k ==> cs[j].name != name
  {
    First(cs, (c: Category) => c.name == name)
  }

  /** Fuzzy priority lookup: the first priority in the given order whose name contains `q`. */
  function PriorityLike(ps: seq<Priority>, q: string): (r: Option<Priority>)
    ensures r.None? <==> forall k :: 0 <= k < |ps| ==> !Like(ps[k].name, q)
    ensures r.Some? ==> exists k :: 0 <= k < |ps| && r.value == ps[k] && Like(ps[k].name, q) &&
                          forall j :: 0 <= j < k ==> !Like(ps[j].name, q)
  {
    First(ps, (p: Priority) => Like(p.name, q))
  }

  /** Exact priority lookup: the first priority in the given order carrying `name`. */
  function PriorityNamed(ps: seq<Priority>, name: string): (r: Option<Priority>)
    ensures r.None? <==> forall k :: 0 <= k < |ps| ==> ps[k].name != name
    ensures r.Some? ==> exists k :: 0 <= k < |ps| && r.value == ps[k] && ps[k].name == name &&
                          forall j :: 0 <= j < k ==> ps[j].name != name
  {
    First(ps, (p: Priority) => p.name == name)
  }

  /** `TaskPriority::orderBy('level')->get()`. */
  function ByLevel(ps: seq<Priority>): (r: seq<Priority>)
    ensures |r| == |ps| && multiset(r) == multiset(ps)
    ensures forall i, j :: 0 <= i < j < |r| ==> r[i].level <= r[j].level
  {
    var r := SortBy(ps, (p: Priority) => p.level);
    assert |r| == |multiset(r)| == |multiset(ps)| == |ps|;
    r
  }

  /** `Task::find(id)`: the position of the task with that id. */
  function TaskIndex(ts: seq<Task>, id: int): Option<nat> {
    FirstIndex(ts, (t: Task) => t.id == id)
  }

  /** The kind of the status a task refers to; None for an id with no status row. */
  function KindOf(ss: seq<Status>, id: nat): Option<StatusType> {
    match First(ss, (s: Status) => s.id == id)
    case None => None
    case Some(s) => Some(s.kind)
  }

  /** `TaskStatus::whereIn('type', kinds)->pluck('id')`. */
  function IdsOfKinds(ss: seq<Status>, kinds: set<StatusType>): (r: seq<nat>)
    ensures forall id :: id in r <==> exists s :: s in ss && s.id == id && s.kind in kinds
  {
    var picked := Filter(ss, (s: Status) => s.kind in kinds);
    var ids := seq(|picked|, i requires 0 <= i < |picked| => picked[i].id);
    assert forall s :: s in picked ==> s.id in ids by {
      forall s | s in picked ensures s.id in ids {
        var i :| 0 <= i < |picked| && picked[i] == s;
        assert ids[i] == s.id;
      }
    }
    assert forall i :: 0 <= i < |ids| ==> picked[i] in picked;
    ids
  }

  /**
   * A fuzzy lookup for a name that exists always finds a row, and that row
   * comes no later than the exact match: it may be another status whose name
   * merely contains the query.
   */
  lemma FuzzyFindsExisting(ss: seq<Status>, k: nat)
    requires k < |ss|
    ensures FirstIndex(ss, (s: Status) => Like(s.name, ss[k].name)).Some?
    ensures FirstIndex(ss, (s: Status) => Like(s.name, ss[k].name)).value <= k
    ensures StatusLike(ss, ss[k].name).Some?
  {
    LikeSelf(ss[k].name);
  }

  /** With increasing ids, the kind looked up for a status's own id is that status's kind. */
  lemma {:induction false} KindOfRow(ss: seq<Status>, next: int, k: nat)
    requires KeysBelow(ss, StatusKey, next) && k < |ss|
    ensures KindOf(ss, ss[k].id) == Some(ss[k].kind)
  {
    var p := (s: Status) => s.id == ss[k].id;
    var j := FirstIndex(ss, p);
    assert p(ss[k]);
    assert j.Some? && j.value <= k;
    assert StatusKey(ss[j.value]) == StatusKey(ss[k]);
  }

  /** Membership in `IdsOfKinds` is the same as the status's kind being one of `kinds`. */
  lemma {:induction false} IdsOfKindsMeansKind(ss: seq<Status>, next: int, kinds: set<StatusType>, id: nat)
    requires KeysBelow(ss, StatusKey, next)
    ensures id in IdsOfKinds(ss, kinds) <==> KindOf(ss, id).Some? && KindOf(ss, id).value in kinds
  {
    if id in IdsOfKinds(ss, kinds) {
      var s :| s in ss && s.id == id && s.kind in kinds;
      var k :| 0 <= k < |ss| && ss[k] == s;
      KindOfRow(ss, next, k);
    }
    if KindOf(ss, id).Some? {
      var j := FirstIndex(ss, (s: Status) => s.id == id).value;
      assert ss[j].id == id;
      if KindOf(ss, id).value in kinds {
        assert ss[j] in ss;
      }
    }
  }

  /**
   * The lifecycle invariant for one task: `completed_at` is set exactly when
   * the task's status is of kind Done.
   */
  predicate CompletedMatchesKind(ss: seq<Status>, t: Task) {
    t.completedAt.Some? <==> KindOf(ss, t.statusId) == Some(Done)
  }

  /** The lifecycle invariant for every task. */
  predicate Consistent(ss: seq<Status>, ts: seq<Task>) {
    forall i :: 0 <= i < |ts| ==> CompletedMatchesKind(ss, ts[i])
  }
}
