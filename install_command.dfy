/**
 * `task:install` (app/Commands/InstallCommand.php): runs the migrations,
 * asks before reconfiguring an installed store, then seeds the statuses,
 * priorities and categories, each from its defaults or from a
 * comma-separated list the user enters.
 */
module InstallCommand {
  import opened Wrappers
  import opened Text
  import opened StatusTypes
  import opened Models
  import opened Seqs
  import opened Lookup
  import opened Storage

  /** A status row before it has an id. */
  datatype StatusSeed = StatusSeed(name: string, kind: StatusType)

  /** A priority row before it has an id. */
  datatype PrioritySeed = PrioritySeed(name: string, level: int)

  /** The answer to "How would you like to set up …?" for one table. */
  datatype Setup = UseDefaults | EnterOwn(input: string)

  /** The GTD default statuses, in creation order. */
  const DefaultStatuses: seq<StatusSeed> := [
    StatusSeed("Inbox", Inbox),
    StatusSeed("Next Action", Active),
    StatusSeed("Waiting For", Active),
    StatusSeed("Someday/Maybe", Active),
    StatusSeed("Done", Done),
    StatusSeed("Cancelled", Cancelled)
  ]

  /** The default priorities, lowest first. */
  const DefaultPriorities: seq<PrioritySeed> := [
    PrioritySeed("Low", 0),
    PrioritySeed("Medium", 10),
    PrioritySeed("High", 20),
    PrioritySeed("Urgent", 30)
  ]

  /** The default categories. */
  const DefaultCategories: seq<string> := ["Personal", "Work", "Learning"]

  /** `array_map('trim', explode(',', input))`: one trimmed entry per comma-separated piece, in input order. */
  function Entries(input: string): (r: seq<string>)
    ensures |r| == |Explode(',', input)|
  {
    TrimAll(Explode(',', input))
  }

  /** `array_map('trim', pieces)`. */
  function TrimAll(pieces: seq<string>): (r: seq<string>)
    ensures |r| == |pieces|
    ensures forall k :: 0 <= k < |r| ==> r[k] == Trim(pieces[k])
    decreases |pieces|
  {
    if |pieces| == 0 then []
    else
      var n := |pieces| - 1;
      TrimAll(pieces[..n]) + [Trim(pieces[n])]
  }

  /** No entry holds a comma or surrounding blanks, and there is always at least one entry. */
  lemma EntriesAreClean(input: string)
    ensures |Entries(input)| >= 1
    ensures forall k :: 0 <= k < |Entries(input)| ==> ',' !in Entries(input)[k] && Trim(Entries(input)[k]) == Entries(input)[k]
  {
    var pieces := Explode(',', input);
    forall k | 0 <= k < |pieces|
      ensures ',' !in Entries(input)[k] && Trim(Entries(input)[k]) == Entries(input)[k]
    {
      TrimIdempotent(pieces[k]);
      TrimKeepsChars(pieces[k]);
    }
  }

  /** The entries that survive the `empty($name)` test, in input order. */
  function Kept(entries: seq<string>): (r: seq<string>)
    ensures |r| <= |entries|
    decreases |entries|
  {
    if |entries| == 0 then []
    else
      var n := |entries| - 1;
      Kept(entries[..n]) + (if Truthy(entries[n]) then [entries[n]] else [])
  }

  /** The kept entries are exactly the non-empty ones. */
  lemma {:induction false} KeptIsNonEmptyEntries(entries: seq<string>)
    ensures forall x :: x in Kept(entries) <==> x in entries && Truthy(x)
    decreases |entries|
  {
    if |entries| > 0 {
      var n := |entries| - 1;
      assert entries == entries[..n] + [entries[n]];
      KeptIsNonEmptyEntries(entries[..n]);
    }
  }

  /**
   * Keeping works entry by entry and keeps input order: the survivors of a
   * list are the survivors of its first part followed by those of the rest,
   * and a single entry survives exactly when it is non-empty.
   */
  lemma {:induction false} KeptInOrder(a: seq<string>, b: seq<string>, e: string)
    ensures Kept(a + b) == Kept(a) + Kept(b)
    ensures Kept([e]) == if Truthy(e) then [e] else []
    decreases |b|
  {
    assert [e][..0] == [];
    if |b| == 0 {
      assert a + b == a;
    } else {
      var n := |b| - 1;
      var ab := a + b;
      assert ab[..|ab| - 1] == a + b[..n];
      assert ab[|ab| - 1] == b[n];
      KeptInOrder(a, b[..n], e);
    }
  }

  /**
   * The custom statuses: each kept name, in order, with the type chosen for
   * it; a prompt left at its default gives `active`.
   */
  function CustomStatusSeeds(names: seq<string>, kinds: seq<Option<StatusType>>): (r: seq<StatusSeed>)
    ensures |r| == |names|
    ensures forall i :: 0 <= i < |r| ==> r[i].name == names[i]
    ensures forall i :: 0 <= i < |r| && i < |kinds| && kinds[i].Some? ==> r[i].kind == kinds[i].value
    ensures forall i :: 0 <= i < |r| && (i >= |kinds| || kinds[i].None?) ==> r[i].kind == Active
  {
    seq(|names|, i requires 0 <= i < |names| => StatusSeed(names[i], Answer(kinds, i, None).GetOr(Active)))
  }

  /**
   * The custom priorities: each non-empty entry, in order, at ten times its
   * position among ALL entries, so skipped empty entries still use up a
   * level.
   */
  function CustomPrioritySeeds(entries: seq<string>): (r: seq<PrioritySeed>)
    ensures |r| <= |entries|
    decreases |entries|
  {
    if |entries| == 0 then []
    else
      var n := |entries| - 1;
      var before := CustomPrioritySeeds(entries[..n]);
      if Truthy(entries[n]) then before + [PrioritySeed(entries[n], n * 10)] else before
  }

  /** Each custom priority sits at ten times the position of its own entry. */
  lemma {:induction false} CustomPriorityLevels(entries: seq<string>)
    ensures forall p :: p in CustomPrioritySeeds(entries) ==>
              0 <= p.level < 10 * |entries| && p.level % 10 == 0 && entries[p.level / 10] == p.name
    decreases |entries|
  {
    if |entries| > 0 {
      var n := |entries| - 1;
      var init := entries[..n];
      CustomPriorityLevels(init);
      assert forall p :: p in CustomPrioritySeeds(init) ==> init[p.level / 10] == entries[p.level / 10];
    }
  }

  /** The custom priority levels strictly increase in creation order. */
  lemma {:induction false} CustomPriorityLevelsIncrease(entries: seq<string>)
    ensures forall i, j :: 0 <= i < j < |CustomPrioritySeeds(entries)| ==>
              CustomPrioritySeeds(entries)[i].level < CustomPrioritySeeds(entries)[j].level
    decreases |entries|
  {
    if |entries| > 0 {
      var n := |entries| - 1;
      var init := entries[..n];
      var before := CustomPrioritySeeds(init);
      CustomPriorityLevelsIncrease(init);
      if Truthy(entries[n]) {
        CustomPriorityLevels(init);
        var r := before + [PrioritySeed(entries[n], n * 10)];
        assert forall i :: 0 <= i < |before| ==> r[i] == before[i] && before[i] in before;
      }
    }
  }

  /** The custom priorities carry exactly the kept names, in input order. */
  lemma {:induction false} CustomPriorityNames(entries: seq<string>)
    ensures |CustomPrioritySeeds(entries)| == |Kept(entries)|
    ensures forall i :: 0 <= i < |Kept(entries)| ==> CustomPrioritySeeds(entries)[i].name == Kept(entries)[i]
    decreases |entries|
  {
    if |entries| > 0 {
      var n := |entries| - 1;
      var before := CustomPrioritySeeds(entries[..n]);
      CustomPriorityNames(entries[..n]);
      if Truthy(entries[n]) {
        assert CustomPrioritySeeds(entries) == before + [PrioritySeed(entries[n], n * 10)];
        assert Kept(entries) == Kept(entries[..n]) + [entries[n]];
      } else {
        assert CustomPrioritySeeds(entries) == before;
        assert Kept(entries) == Kept(entries[..n]);
      }
    }
  }

  /** The statuses a setup answer creates, in creation order. */
  function StatusSeeds(setup: Setup, kinds: seq<Option<StatusType>>): (r: seq<StatusSeed>)
    ensures setup.EnterOwn? ==> |r| == |Kept(Entries(setup.input))|
  {
    match setup
    case UseDefaults => DefaultStatuses
    case EnterOwn(input) => CustomStatusSeeds(Kept(Entries(input)), kinds)
  }

  /** The priorities a setup answer creates, in creation order. */
  function PrioritySeeds(setup: Setup): (r: seq<PrioritySeed>)
    ensures setup.EnterOwn? ==> |r| == |Kept(Entries(setup.input))|
  {
    match setup
    case UseDefaults => DefaultPriorities
    case EnterOwn(input) =>
      CustomPriorityNames(Entries(input));
      CustomPrioritySeeds(Entries(input))
  }

  /** Either way, the priority levels are non-negative and strictly increase in creation order. */
  lemma PriorityLevelsIncrease(setup: Setup)
    ensures var r := PrioritySeeds(setup);
            (forall i :: 0 <= i < |r| ==> r[i].level >= 0) &&
            (forall i, j :: 0 <= i < j < |r| ==> r[i].level < r[j].level)
  {
    if setup.EnterOwn? {
      CustomPriorityLevels(Entries(setup.input));
      CustomPriorityLevelsIncrease(Entries(setup.input));
    }
  }

  /** The categories a setup answer creates, in creation order. */
  function CategorySeeds(setup: Setup): (r: seq<string>)
    ensures setup.EnterOwn? ==> |r| == |Kept(Entries(setup.input))|
  {
    match setup
    case UseDefaults => DefaultCategories
    case EnterOwn(input) => Kept(Entries(input))
  }

  /** The status rows `seeds` become, numbered from `first`. */
  function StatusRows(seeds: seq<StatusSeed>, first: nat): (r: seq<Status>)
    ensures |r| == |seeds|
  {
    seq(|seeds|, i requires 0 <= i < |seeds| => Status(first + i, seeds[i].name, seeds[i].kind))
  }

  /** The priority rows `seeds` become, numbered from `first`. */
  function PriorityRows(seeds: seq<PrioritySeed>, first: nat): (r: seq<Priority>)
    ensures |r| == |seeds|
  {
    seq(|seeds|, i requires 0 <= i < |seeds| => Priority(first + i, seeds[i].name, seeds[i].level))
  }

  /** The category rows `names` become, numbered from `first`. */
  function CategoryRows(names: seq<string>, first: nat): (r: seq<Category>)
    ensures |r| == |names|
  {
    seq(|names|, i requires 0 <= i < |names| => Category(first + i, names[i]))
  }

  /** One more seed adds one more row, numbered next. */
  lemma StatusRowsSnoc(start: seq<Status>, seeds: seq<StatusSeed>, s: StatusSeed, first: nat)
    ensures start + StatusRows(seeds + [s], first) == start + StatusRows(seeds, first) + [Status(first + |seeds|, s.name, s.kind)]
  {
    assert forall i :: 0 <= i < |seeds| ==> (seeds + [s])[i] == seeds[i];
    assert StatusRows(seeds + [s], first) == StatusRows(seeds, first) + [Status(first + |seeds|, s.name, s.kind)];
  }

  /** One more seed adds one more row, numbered next. */
  lemma PriorityRowsSnoc(start: seq<Priority>, seeds: seq<PrioritySeed>, p: PrioritySeed, first: nat)
    ensures start + PriorityRows(seeds + [p], first) == start + PriorityRows(seeds, first) + [Priority(first + |seeds|, p.name, p.level)]
  {
    assert forall i :: 0 <= i < |seeds| ==> (seeds + [p])[i] == seeds[i];
    assert PriorityRows(seeds + [p], first) == PriorityRows(seeds, first) + [Priority(first + |seeds|, p.name, p.level)];
  }

  /** One more name adds one more row, numbered next. */
  lemma CategoryRowsSnoc(start: seq<Category>, names: seq<string>, name: string, first: nat)
    ensures start + CategoryRows(names + [name], first) == start + CategoryRows(names, first) + [Category(first + |names|, name)]
  {
    assert forall i :: 0 <= i < |names| ==> (names + [name])[i] == names[i];
    assert CategoryRows(names + [name], first) == CategoryRows(names, first) + [Category(first + |names|, name)];
  }

  /** The rows of the first `k + 1` seeds: those of the first `k`, then the `k`-th numbered `first + k`. */
  lemma StatusRowsNext(start: seq<Status>, seeds: seq<StatusSeed>, k: nat, first: nat)
    requires k < |seeds|
    ensures start + StatusRows(seeds[..k + 1], first) ==
              start + StatusRows(seeds[..k], first) + [Status(first + k, seeds[k].name, seeds[k].kind)]
  {
    assert seeds[..k + 1] == seeds[..k] + [seeds[k]];
    StatusRowsSnoc(start, seeds[..k], seeds[k], first);
  }

  /** The rows of the first `k + 1` seeds: those of the first `k`, then the `k`-th numbered `first + k`. */
  lemma PriorityRowsNext(start: seq<Priority>, seeds: seq<PrioritySeed>, k: nat, first: nat)
    requires k < |seeds|
    ensures start + PriorityRows(seeds[..k + 1], first) ==
              start + PriorityRows(seeds[..k], first) + [Priority(first + k, seeds[k].name, seeds[k].level)]
  {
    assert seeds[..k + 1] == seeds[..k] + [seeds[k]];
    PriorityRowsSnoc(start, seeds[..k], seeds[k], first);
  }

  /** The rows of the first `k + 1` names: those of the first `k`, then the `k`-th numbered `first + k`. */
  lemma CategoryRowsNext(start: seq<Category>, names: seq<string>, k: nat, first: nat)
    requires k < |names|
    ensures start + CategoryRows(names[..k + 1], first) ==
              start + CategoryRows(names[..k], first) + [Category(first + k, names[k])]
  {
    assert names[..k + 1] == names[..k] + [names[k]];
    CategoryRowsSnoc(start, names[..k], names[k], first);
  }

  /** One more kept name adds one more status seed, typed by the next answer. */
  lemma CustomStatusSeedsSnoc(names: seq<string>, name: string, kinds: seq<Option<StatusType>>)
    ensures CustomStatusSeeds(names + [name], kinds) ==
              CustomStatusSeeds(names, kinds) + [StatusSeed(name, Answer(kinds, |names|, None).GetOr(Active))]
  {
    assert forall i :: 0 <= i < |names| ==> (names + [name])[i] == names[i];
  }

  /** Reading one more entry adds a status exactly when the entry is non-empty, typed by the next answer. */
  lemma EnteredStatusNext(names: seq<string>, k: nat, kinds: seq<Option<StatusType>>)
    requires k < |names|
    ensures var made := CustomStatusSeeds(Kept(names[..k]), kinds);
            CustomStatusSeeds(Kept(names[..k + 1]), kinds) ==
              made + if Truthy(names[k]) then [StatusSeed(names[k], Answer(kinds, |made|, None).GetOr(Active))] else []
  {
    KeptNext(names, k);
    if Truthy(names[k]) {
      CustomStatusSeedsSnoc(Kept(names[..k]), names[k], kinds);
    }
  }

  /** Reading one more entry keeps it exactly when it is non-empty. */
  lemma KeptNext(names: seq<string>, k: nat)
    requires k < |names|
    ensures Kept(names[..k + 1]) == Kept(names[..k]) + (if Truthy(names[k]) then [names[k]] else [])
  {
    assert names[..k + 1][..k] == names[..k];
  }

  /** Reading one more entry adds its priority, at ten times its index, exactly when it is non-empty. */
  lemma CustomPrioritySeedsNext(names: seq<string>, k: nat)
    requires k < |names|
    ensures CustomPrioritySeeds(names[..k + 1]) ==
              CustomPrioritySeeds(names[..k]) + (if Truthy(names[k]) then [PrioritySeed(names[k], k * 10)] else [])
  {
    assert names[..k + 1][..k] == names[..k];
  }

  /** Creating the rows of `seeds` one `TaskStatus::create` at a time. */
  method CreateStatuses(st: Store, seeds: seq<StatusSeed>)
    requires st.Valid() && st.schema == Migrated
    modifies st`statuses, st`nextStatusId
    ensures st.Valid()
    ensures st.statuses == old(st.statuses) + StatusRows(seeds, old(st.nextStatusId))
    ensures st.nextStatusId == old(st.nextStatusId) + |seeds|
  {
    ghost var start := st.statuses;
    var k := 0;
    while k < |seeds|
      invariant 0 <= k <= |seeds|
      invariant st.Valid() && st.schema == Migrated
      invariant st.statuses == start + StatusRows(seeds[..k], old(st.nextStatusId))
      invariant st.nextStatusId == old(st.nextStatusId) + k
    {
      st.InsertStatus(seeds[k].name, seeds[k].kind);
      StatusRowsNext(start, seeds, k, old(st.nextStatusId));
      k := k + 1;
    }
    assert seeds[..k] == seeds;
  }

  /** The custom branch of `setupStatuses()`: a status per non-empty entry, typed by the answers in turn. */
  method CreateEnteredStatuses(st: Store, names: seq<string>, kinds: seq<Option<StatusType>>)
    requires st.Valid() && st.schema == Migrated
    modifies st`statuses, st`nextStatusId
    ensures st.Valid()
    ensures st.statuses == old(st.statuses) + StatusRows(CustomStatusSeeds(Kept(names), kinds), old(st.nextStatusId))
    ensures st.nextStatusId == old(st.nextStatusId) + |Kept(names)|
  {
    ghost var start := st.statuses;
    ghost var first := st.nextStatusId;
    ghost var made: seq<StatusSeed> := [];
    var asked := 0;
    var k := 0;
    while k < |names|
      invariant 0 <= k <= |names|
      invariant st.Valid() && st.schema == Migrated
      invariant made == CustomStatusSeeds(Kept(names[..k]), kinds)
      invariant asked == |made|
      invariant st.statuses == start + StatusRows(made, first)
      invariant st.nextStatusId == first + asked
    {
      EnteredStatusNext(names, k, kinds);
      if Truthy(names[k]) {
        var kind := Answer(kinds, asked, None).GetOr(Active);
        ghost var seed := StatusSeed(names[k], kind);
        assert Status(st.nextStatusId, names[k], kind) == Status(first + |made|, seed.name, seed.kind);
        st.InsertStatus(names[k], kind);
        StatusRowsSnoc(start, made, seed, first);
        made := made + [seed];
        asked := asked + 1;
      }
      k := k + 1;
    }
    assert names[..k] == names;
  }

  /**
   * `setupStatuses()`: the defaults, or one status per non-empty entry, the
   * `k`-th of them typed by the `k`-th type answer.
   */
  method SetupStatuses(st: Store, setup: Setup, kinds: seq<Option<StatusType>>)
    requires st.Valid() && st.schema == Migrated
    modifies st`statuses, st`nextStatusId
    ensures st.Valid()
    ensures st.statuses == old(st.statuses) + StatusRows(StatusSeeds(setup, kinds), old(st.nextStatusId))
    ensures st.nextStatusId == old(st.nextStatusId) + |StatusSeeds(setup, kinds)|
  {
    match setup {
      case UseDefaults => CreateStatuses(st, DefaultStatuses);
      case EnterOwn(input) => CreateEnteredStatuses(st, Entries(input), kinds);
    }
  }

  /** Creating the rows of `seeds` one `TaskPriority::create` at a time. */
  method CreatePriorities(st: Store, seeds: seq<PrioritySeed>)
    requires st.Valid() && st.schema == Migrated
    modifies st`priorities, st`nextPriorityId
    ensures st.Valid()
    ensures st.priorities == old(st.priorities) + PriorityRows(seeds, old(st.nextPriorityId))
    ensures st.nextPriorityId == old(st.nextPriorityId) + |seeds|
  {
    ghost var start := st.priorities;
    var k := 0;
    while k < |seeds|
      invariant 0 <= k <= |seeds|
      invariant st.Valid() && st.schema == Migrated
      invariant st.priorities == start + PriorityRows(seeds[..k], old(st.nextPriorityId))
      invariant st.nextPriorityId == old(st.nextPriorityId) + k
    {
      st.InsertPriority(seeds[k].name, seeds[k].level);
      PriorityRowsNext(start, seeds, k, old(st.nextPriorityId));
      k := k + 1;
    }
    assert seeds[..k] == seeds;
  }

  /** The custom branch of `setupPriorities()`: a priority per non-empty entry, at ten times its index. */
  method CreateEnteredPriorities(st: Store, names: seq<string>)
    requires st.Valid() && st.schema == Migrated
    modifies st`priorities, st`nextPriorityId
    ensures st.Valid()
    ensures st.priorities == old(st.priorities) + PriorityRows(CustomPrioritySeeds(names), old(st.nextPriorityId))
    ensures st.nextPriorityId == old(st.nextPriorityId) + |CustomPrioritySeeds(names)|
  {
    ghost var start := st.priorities;
    ghost var first := st.nextPriorityId;
    ghost var made: seq<PrioritySeed> := [];
    var k := 0;
    while k < |names|
      invariant 0 <= k <= |names|
      invariant st.Valid() && st.schema == Migrated
      invariant made == CustomPrioritySeeds(names[..k])
      invariant st.priorities == start + PriorityRows(made, first)
      invariant st.nextPriorityId == first + |made|
    {
      CustomPrioritySeedsNext(names, k);
      if Truthy(names[k]) {
        st.InsertPriority(names[k], k * 10);
        PriorityRowsSnoc(start, made, PrioritySeed(names[k], k * 10), first);
        made := made + [PrioritySeed(names[k], k * 10)];
      }
      k := k + 1;
    }
    assert names[..k] == names;
  }

  /** `setupPriorities()`: the defaults, or one priority per non-empty entry at level `index * 10`. */
  method SetupPriorities(st: Store, setup: Setup)
    requires st.Valid() && st.schema == Migrated
    modifies st`priorities, st`nextPriorityId
    ensures st.Valid()
    ensures st.priorities == old(st.priorities) + PriorityRows(PrioritySeeds(setup), old(st.nextPriorityId))
    ensures st.nextPriorityId == old(st.nextPriorityId) + |PrioritySeeds(setup)|
  {
    match setup {
      case UseDefaults => CreatePriorities(st, DefaultPriorities);
      case EnterOwn(input) => CreateEnteredPriorities(st, Entries(input));
    }
  }

  /** Creating the rows of `names` one `TaskCategory::create` at a time. */
  method CreateCategories(st: Store, names: seq<string>)
    requires st.Valid() && st.schema == Migrated
    modifies st`categories, st`nextCategoryId
    ensures st.Valid()
    ensures st.categories == old(st.categories) + CategoryRows(names, old(st.nextCategoryId))
    ensures st.nextCategoryId == old(st.nextCategoryId) + |names|
  {
    ghost var start := st.categories;
    var k := 0;
    while k < |names|
      invariant 0 <= k <= |names|
      invariant st.Valid() && st.schema == Migrated
      invariant st.categories == start + CategoryRows(names[..k], old(st.nextCategoryId))
      invariant st.nextCategoryId == old(st.nextCategoryId) + k
    {
      st.InsertCategory(names[k]);
      CategoryRowsNext(start, names, k, old(st.nextCategoryId));
      k := k + 1;
    }
    assert names[..k] == names;
  }

  /** The custom branch of `setupCategories()`: a category per non-empty entry. */
  method CreateEnteredCategories(st: Store, names: seq<string>)
    requires st.Valid() && st.schema == Migrated
    modifies st`categories, st`nextCategoryId
    ensures st.Valid()
    ensures st.categories == old(st.categories) + CategoryRows(Kept(names), old(st.nextCategoryId))
    ensures st.nextCategoryId == old(st.nextCategoryId) + |Kept(names)|
  {
    ghost var start := st.categories;
    ghost var first := st.nextCategoryId;
    var made := 0;
    var k := 0;
    while k < |names|
      invariant 0 <= k <= |names|
      invariant st.Valid() && st.schema == Migrated
      invariant made == |Kept(names[..k])|
      invariant st.categories == start + CategoryRows(Kept(names[..k]), first)
      invariant st.nextCategoryId == first + made
    {
      ghost var kept := Kept(names[..k]);
      KeptNext(names, k);
      if Truthy(names[k]) {
        assert Category(st.nextCategoryId, names[k]) == Category(first + |kept|, names[k]);
        st.InsertCategory(names[k]);
        CategoryRowsSnoc(start, kept, names[k], first);
        made := made + 1;
      }
      k := k + 1;
    }
    assert names[..k] == names;
  }

  /** `setupCategories()`: the defaults, or one category per non-empty entry. */
  method SetupCategories(st: Store, setup: Setup)
    requires st.Valid() && st.schema == Migrated
    modifies st`categories, st`nextCategoryId
    ensures st.Valid()
    ensures st.categories == old(st.categories) + CategoryRows(CategorySeeds(setup), old(st.nextCategoryId))
    ensures st.nextCategoryId == old(st.nextCategoryId) + |CategorySeeds(setup)|
  {
    match setup {
      case UseDefaults => CreateCategories(st, DefaultCategories);
      case EnterOwn(input) => CreateEnteredCategories(st, Entries(input));
    }
  }

  /** How the command ends. */
  datatype Outcome =
    | Failed       // the database cannot be read: the migrations raise
    | KeptAsIs     // already set up and the user declined to reconfigure
    | Rejected     // reconfiguring: the engine refused a delete because tasks still refer to the rows
    | Configured   // the reference tables were (re)seeded

  /**
   * `handle()`: migrate; if statuses exist, either stop (declined) or delete
   * every status, priority and category, which the engine refuses while a
   * task still refers to a status or a priority; then seed the three tables.
   */
  method Handle(st: Store, reconfigure: bool, statusSetup: Setup, kinds: seq<Option<StatusType>>,
                prioritySetup: Setup, categorySetup: Setup) returns (outcome: Outcome)
    requires st.Valid()
    modifies st`schema, st`statuses, st`priorities, st`categories, st`tasks
    modifies st`nextStatusId, st`nextPriorityId, st`nextCategoryId
    ensures st.Valid()
    ensures outcome == Failed <==> old(st.schema) == Unreadable
    ensures outcome == KeptAsIs <==> old(st.schema) != Unreadable && |old(st.statuses)| > 0 && !reconfigure
    ensures outcome == Rejected <==>
              && old(st.schema) != Unreadable && |old(st.statuses)| > 0 && reconfigure
              && (StatusesReferenced(old(st.statuses), old(st.tasks)) ||
                  PrioritiesReferenced(old(st.priorities), old(st.tasks)))
    ensures outcome != Configured ==> st.tasks == old(st.tasks)
    ensures outcome == Failed || outcome == KeptAsIs ||
            (outcome == Rejected && StatusesReferenced(old(st.statuses), old(st.tasks))) ==>
              st.statuses == old(st.statuses) && st.priorities == old(st.priorities) && st.categories == old(st.categories)
    ensures outcome == Rejected && !StatusesReferenced(old(st.statuses), old(st.tasks)) ==>
              st.statuses == [] && st.priorities == old(st.priorities) && st.categories == old(st.categories)
    ensures outcome == Configured ==>
              var cleared := |old(st.statuses)| > 0;
              && st.statuses == StatusRows(StatusSeeds(statusSetup, kinds), old(st.nextStatusId))
              && st.priorities == (if cleared then [] else old(st.priorities)) +
                                  PriorityRows(PrioritySeeds(prioritySetup), old(st.nextPriorityId))
              && st.categories == (if cleared then [] else old(st.categories)) +
                                  CategoryRows(CategorySeeds(categorySetup), old(st.nextCategoryId))
              && st.tasks == (if cleared then Unlinked(old(st.categories), old(st.tasks)) else old(st.tasks))
    ensures st.IsInstalled() <==>
              || outcome == KeptAsIs
              || (outcome == Rejected && StatusesReferenced(old(st.statuses), old(st.tasks)))
              || (outcome == Configured && |StatusSeeds(statusSetup, kinds)| > 0)
  {
    st.Migrate();
    if st.schema == Unreadable {
      return Failed;
    }
    assert st.statuses == old(st.statuses) && st.priorities == old(st.priorities) && st.categories == old(st.categories);
    assert st.tasks == old(st.tasks);
    assert st.nextStatusId == old(st.nextStatusId) && st.nextPriorityId == old(st.nextPriorityId);
    assert st.nextCategoryId == old(st.nextCategoryId);
    outcome := Seed(st, reconfigure, statusSetup, kinds, prioritySetup, categorySetup);
  }

  /**
   * `handle()` once the tables exist: keep an installed store, or delete its
   * reference rows (which the engine may refuse) and seed again.
   */
  method Seed(st: Store, reconfigure: bool, statusSetup: Setup, kinds: seq<Option<StatusType>>,
              prioritySetup: Setup, categorySetup: Setup) returns (outcome: Outcome)
    requires st.Valid() && st.schema == Migrated
    modifies st`statuses, st`priorities, st`categories, st`tasks
    modifies st`nextStatusId, st`nextPriorityId, st`nextCategoryId
    ensures st.Valid()
    ensures outcome != Failed
    ensures outcome == KeptAsIs <==> |old(st.statuses)| > 0 && !reconfigure
    ensures outcome == Rejected <==>
              && |old(st.statuses)| > 0 && reconfigure
              && (StatusesReferenced(old(st.statuses), old(st.tasks)) ||
                  PrioritiesReferenced(old(st.priorities), old(st.tasks)))
    ensures outcome != Configured ==> st.tasks == old(st.tasks)
    ensures outcome == KeptAsIs || (outcome == Rejected && StatusesReferenced(old(st.statuses), old(st.tasks))) ==>
              st.statuses == old(st.statuses) && st.priorities == old(st.priorities) && st.categories == old(st.categories)
    ensures outcome == Rejected && !StatusesReferenced(old(st.statuses), old(st.tasks)) ==>
              st.statuses == [] && st.priorities == old(st.priorities) && st.categories == old(st.categories)
    ensures outcome == Configured ==>
              var cleared := |old(st.statuses)| > 0;
              && st.statuses == StatusRows(StatusSeeds(statusSetup, kinds), old(st.nextStatusId))
              && st.priorities == (if cleared then [] else old(st.priorities)) +
                                  PriorityRows(PrioritySeeds(prioritySetup), old(st.nextPriorityId))
              && st.categories == (if cleared then [] else old(st.categories)) +
                                  CategoryRows(CategorySeeds(categorySetup), old(st.nextCategoryId))
              && st.tasks == (if cleared then Unlinked(old(st.categories), old(st.tasks)) else old(st.tasks))
    ensures st.IsInstalled() <==>
              || outcome == KeptAsIs
              || (outcome == Rejected && StatusesReferenced(old(st.statuses), old(st.tasks)))
              || (outcome == Configured && |StatusSeeds(statusSetup, kinds)| > 0)
  {
    if |st.statuses| == 0 {
      SetupAll(st, statusSetup, kinds, prioritySetup, categorySetup);
      return Configured;
    }
    if !reconfigure {
      return KeptAsIs;
    }
    outcome := Reconfigure(st, statusSetup, kinds, prioritySetup, categorySetup);
  }

  /** The confirmed reconfigure: delete the reference rows and, if the engine allows it, seed again. */
  method Reconfigure(st: Store, statusSetup: Setup, kinds: seq<Option<StatusType>>,
                     prioritySetup: Setup, categorySetup: Setup) returns (outcome: Outcome)
    requires st.Valid() && st.schema == Migrated
    modifies st`statuses, st`priorities, st`categories, st`tasks
    modifies st`nextStatusId, st`nextPriorityId, st`nextCategoryId
    ensures st.Valid()
    ensures outcome == Rejected || outcome == Configured
    ensures outcome == Rejected <==>
              StatusesReferenced(old(st.statuses), old(st.tasks)) || PrioritiesReferenced(old(st.priorities), old(st.tasks))
    ensures outcome == Rejected ==> st.tasks == old(st.tasks) && st.priorities == old(st.priorities) &&
                                    st.categories == old(st.categories)
    ensures outcome == Rejected ==>
              st.statuses == if StatusesReferenced(old(st.statuses), old(st.tasks)) then old(st.statuses) else []
    ensures outcome == Configured ==>
              && st.statuses == StatusRows(StatusSeeds(statusSetup, kinds), old(st.nextStatusId))
              && st.priorities == PriorityRows(PrioritySeeds(prioritySetup), old(st.nextPriorityId))
              && st.categories == CategoryRows(CategorySeeds(categorySetup), old(st.nextCategoryId))
              && st.tasks == Unlinked(old(st.categories), old(st.tasks))
  {
    var deleted := st.DeleteReferenceData();
    if !deleted {
      return Rejected;
    }
    SetupAll(st, statusSetup, kinds, prioritySetup, categorySetup);
    return Configured;
  }

  /** The three setup steps in order, each appending to its own table. */
  method SetupAll(st: Store, statusSetup: Setup, kinds: seq<Option<StatusType>>, prioritySetup: Setup, categorySetup: Setup)
    requires st.Valid() && st.schema == Migrated
    modifies st`statuses, st`priorities, st`categories, st`nextStatusId, st`nextPriorityId, st`nextCategoryId
    ensures st.Valid()
    ensures st.statuses == old(st.statuses) + StatusRows(StatusSeeds(statusSetup, kinds), old(st.nextStatusId))
    ensures st.priorities == old(st.priorities) + PriorityRows(PrioritySeeds(prioritySetup), old(st.nextPriorityId))
    ensures st.categories == old(st.categories) + CategoryRows(CategorySeeds(categorySetup), old(st.nextCategoryId))
  {
    SetupStatuses(st, statusSetup, kinds);
    SetupRest(st, prioritySetup, categorySetup);
  }

  /** The priority and category setup steps in order. */
  method SetupRest(st: Store, prioritySetup: Setup, categorySetup: Setup)
    requires st.Valid() && st.schema == Migrated
    modifies st`priorities, st`categories, st`nextPriorityId, st`nextCategoryId
    ensures st.Valid()
    ensures st.priorities == old(st.priorities) + PriorityRows(PrioritySeeds(prioritySetup), old(st.nextPriorityId))
    ensures st.categories == old(st.categories) + CategoryRows(CategorySeeds(categorySetup), old(st.nextCategoryId))
  {
    SetupPriorities(st, prioritySetup);
    SetupCategories(st, categorySetup);
  }

  /**
   * After the default setup every status kind has a row, and the first row
   * of kind Inbox, the one new tasks start in, is the status named "Inbox".
   */
  lemma DefaultStatusesCoverKinds(first: nat)
    ensures forall kind :: FirstOfKind(StatusRows(DefaultStatuses, first), kind).Some?
    ensures FirstOfKind(StatusRows(DefaultStatuses, first), Inbox) == Some(Status(first, "Inbox", Inbox))
  {
    var rows := StatusRows(DefaultStatuses, first);
    assert rows[0].kind == Inbox && rows[1].kind == Active && rows[4].kind == Done && rows[5].kind == Cancelled;
  }

  /** Every kept entry is non-empty, trimmed and free of commas. */
  lemma KeptEntriesAreClean(input: string)
    ensures forall x :: x in Kept(Entries(input)) ==> Truthy(x) && Trim(x) == x && ',' !in x
  {
    var entries := Entries(input);
    EntriesAreClean(input);
    KeptIsNonEmptyEntries(entries);
    forall x | x in Kept(entries) ensures Truthy(x) && Trim(x) == x && ',' !in x {
      var k :| 0 <= k < |entries| && entries[k] == x;
    }
  }

  /** A setup entered as a list creates only non-empty, trimmed names that contain no comma. */
  lemma EnteredNamesAreClean(input: string, kinds: seq<Option<StatusType>>)
    ensures forall s :: s in StatusSeeds(EnterOwn(input), kinds) ==>
              Truthy(s.name) && Trim(s.name) == s.name && ',' !in s.name
    ensures forall p :: p in PrioritySeeds(EnterOwn(input)) ==>
              Truthy(p.name) && Trim(p.name) == p.name && ',' !in p.name
    ensures forall c :: c in CategorySeeds(EnterOwn(input)) ==> Truthy(c) && Trim(c) == c && ',' !in c
  {
    KeptEntriesAreClean(input);
    EnteredStatusNamesAreKept(input, kinds);
    EnteredPriorityNamesAreKept(input);
  }

  /** Each entered status carries a kept entry as its name. */
  lemma EnteredStatusNamesAreKept(input: string, kinds: seq<Option<StatusType>>)
    ensures forall s :: s in StatusSeeds(EnterOwn(input), kinds) ==> s.name in Kept(Entries(input))
  {
    var kept := Kept(Entries(input));
    var statuses := CustomStatusSeeds(kept, kinds);
    forall s | s in statuses ensures s.name in kept {
      var i :| 0 <= i < |statuses| && statuses[i] == s;
      assert s.name == kept[i];
    }
  }

  /** Each entered priority carries a kept entry as its name. */
  lemma EnteredPriorityNamesAreKept(input: string)
    ensures forall p :: p in PrioritySeeds(EnterOwn(input)) ==> p.name in Kept(Entries(input))
  {
    var kept := Kept(Entries(input));
    var priorities := CustomPrioritySeeds(Entries(input));
    CustomPriorityNames(Entries(input));
    forall p | p in priorities ensures p.name in kept {
      var i :| 0 <= i < |priorities| && priorities[i] == p;
      assert p.name == kept[i];
    }
  }

  /** Nothing is kept exactly when every entry is empty. */
  lemma {:induction false} NothingKeptIffAllEmpty(entries: seq<string>)
    ensures Kept(entries) == [] <==> forall e :: e in entries ==> !Truthy(e)
  {
    KeptIsNonEmptyEntries(entries);
    if Kept(entries) != [] {
      assert Kept(entries)[0] in Kept(entries);
    }
  }

  /**
   * An entered status list creates no status exactly when none of its
   * entries is non-empty; the store is then not installed even though the
   * command has finished.
   */
  lemma {:induction false} BlankStatusListLeavesUninstalled(input: string, kinds: seq<Option<StatusType>>, first: nat)
    ensures StatusSeeds(EnterOwn(input), kinds) == [] <==> forall e :: e in Entries(input) ==> !Truthy(e)
    ensures (forall e :: e in Entries(input) ==> !Truthy(e)) ==>
              !Installed(Migrated, StatusRows(StatusSeeds(EnterOwn(input), kinds), first))
  {
    var entries := Entries(input);
    NothingKeptIffAllEmpty(entries);
    assert |StatusSeeds(EnterOwn(input), kinds)| == |Kept(entries)|;
  }

  /** The list " , " is such a list: both of its entries are blank. */
  lemma {:induction false} CommaOnlyListIsBlank()
    ensures forall e :: e in Entries(" , ") ==> !Truthy(e)
  {
    BlankListPieces();
    assert TrimStart(" ") == "";
    assert Trim(" ") == "";
    assert Entries(" , ") == ["", ""];
  }

  /** The list " , " explodes into two blank pieces. */
  lemma BlankListPieces()
    ensures Explode(',', " , ") == [" ", " "]
  {
    assert " , "[1..] == ", " && ", "[1..] == " " && " "[1..] == "";
    assert Explode(',', "") == [""];
    assert [' '] + "" == " ";
    assert Explode(',', " ") == [" "];
    assert Explode(',', ", ") == ["", " "];
  }
}
