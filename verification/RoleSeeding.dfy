/**
 * `RolesService`: seeding default roles, default groups and the access grants of collections and
 * admin sets, by find-or-create loops that may be run again at any time.
 */
module RoleSeeding {
  import opened Prelude

  // ---------- roles and groups ----------

  /** A role record; its id is its position in the table, which has no unique index. */
  datatype Role = Role(name: string, resourceType: string, resourceId: int)

  /** `caption` stands for the humanized name and description; `roles` are role ids, as the association lists them. */
  datatype Group = Group(caption: string, roles: seq<nat>)

  datatype Tenant = Tenant(site: int, roles: seq<Role>, groups: map<string, Group>)

  datatype DefaultGroup = DefaultGroup(name: string, caption: string, roles: seq<string>)

  const DEFAULT_ROLES: seq<string> :=
    ["admin", "collection_manager", "collection_editor", "collection_reader", "user_manager", "user_reader",
     "work_editor", "work_depositor"]

  /** The default groups; the translated labels come from outside. */
  function DefaultGroups(labels: map<string, string>): seq<DefaultGroup> {
    var caption := (name: string) => if name in labels then labels[name] else "";
    [DefaultGroup("admin", caption("admin"), ["admin"]),
     DefaultGroup("registered", caption("registered"), []),
     DefaultGroup("editors", caption("editors"), ["work_editor", "collection_editor", "user_reader"]),
     DefaultGroup("depositors", caption("depositors"), ["work_depositor"])]
  }

  function FindRole(roles: seq<Role>, r: Role): (i: nat)
    ensures i <= |roles|
    ensures i < |roles| ==> roles[i] == r
    ensures forall j | 0 <= j < i :: roles[j] != r
  {
    if roles == [] || roles[0] == r then 0 else 1 + FindRole(roles[1..], r)
  }

  function SiteRole(t: Tenant, name: string): Role {
    Role(name, "Site", t.site)
  }

  /** One thing that seeding sees to. */
  datatype Task = NeedRole(name: string) | NeedGroup(group: string, caption: string) | NeedGroupRole(group: string, name: string)

  function EnsureRole(t: Tenant, name: string): Tenant {
    if FindRole(t.roles, SiteRole(t, name)) < |t.roles| then t else t.(roles := t.roles + [SiteRole(t, name)])
  }

  function Do(t: Tenant, task: Task): Tenant {
    match task
    case NeedRole(name) => EnsureRole(t, name)
    case NeedGroup(group, caption) =>
      t.(groups := t.groups[group := Group(caption, if group in t.groups then t.groups[group].roles else [])])
    case NeedGroupRole(group, name) =>
      var u := EnsureRole(t, name);
      var id := FindRole(u.roles, SiteRole(t, name));
      if group !in u.groups || id in u.groups[group].roles then u
      else u.(groups := u.groups[group := u.groups[group].(roles := u.groups[group].roles + [id])])
  }

  function DoAll(t: Tenant, tasks: seq<Task>): Tenant {
    if tasks == [] then t else Do(DoAll(t, tasks[..|tasks| - 1]), tasks[|tasks| - 1])
  }

  function RoleTasks(names: seq<string>): seq<Task> {
    seq(|names|, i requires 0 <= i < |names| => NeedRole(names[i]))
  }

  function GroupTasks(g: DefaultGroup): seq<Task> {
    [NeedGroup(g.name, g.caption)] + seq(|g.roles|, i requires 0 <= i < |g.roles| => NeedGroupRole(g.name, g.roles[i]))
  }

  function AllGroupTasks(gs: seq<DefaultGroup>): seq<Task> {
    if gs == [] then [] else AllGroupTasks(gs[..|gs| - 1]) + GroupTasks(gs[|gs| - 1])
  }

  lemma {:induction false} DoAllCat(t: Tenant, a: seq<Task>, b: seq<Task>)
    ensures DoAll(t, a + b) == DoAll(DoAll(t, a), b)
  {
    if b == [] {
      assert a + b == a;
    } else {
      var n := |b| - 1;
      assert (a + b)[..|a + b| - 1] == a + b[..n];
      DoAllCat(t, a, b[..n]);
    }
  }

  class RolesService {
    const site: Option<int>
    var roles: seq<Role>
    var groups: map<string, Group>

    function Current(): Tenant
      requires site.Some?
      reads this
    {
      Tenant(site.value, roles, groups)
    }

    method FindOrCreateSiteRole(name: string) returns (id: nat)
      requires site.Some?
      modifies this`roles
      ensures Current() == EnsureRole(old(Current()), name)
      ensures id == FindRole(roles, SiteRole(Current(), name)) < |roles|
    {
      var role := Role(name, "Site", site.value);
      id := FindRole(roles, role);
      if id == |roles| {
        AppendedIsFound(roles, role);
        roles := roles + [role];
      }
    }

    method CreateDefaultRoles() returns (created: bool)
      modifies this
      ensures created <==> site.Some?
      ensures site.Some? ==> Current() == DoAll(old(Current()), RoleTasks(DEFAULT_ROLES))
      ensures site.None? ==> roles == old(roles) && groups == old(groups)
    {
      if site.None? {
        return false;
      }
      CreateRoles(DEFAULT_ROLES);
      return true;
    }

    /** The loop over the role names. */
    method CreateRoles(names: seq<string>)
      requires site.Some?
      modifies this
      ensures Current() == DoAll(old(Current()), RoleTasks(names))
    {
      hide EnsureRole;
      ghost var tasks := RoleTasks(names);
      var i := 0;
      while i < |names|
        invariant 0 <= i <= |names|
        invariant Current() == DoAll(old(Current()), tasks[..i])
      {
        assert tasks[..i + 1][..i] == tasks[..i];
        var id := FindOrCreateSiteRole(names[i]);
        i := i + 1;
      }
      assert tasks[..i] == tasks;
    }

    method CreateDefaultGroup(g: DefaultGroup)
      requires site.Some?
      modifies this
      ensures Current() == DoAll(old(Current()), GroupTasks(g))
    {
      hide FindRole;
      ghost var tasks := GroupTasks(g);
      if g.name !in groups {
        groups := groups[g.name := Group("", [])];
      }
      groups := groups[g.name := groups[g.name].(caption := g.caption)];
      assert tasks[..1] == [NeedGroup(g.name, g.caption)] && tasks[..1][..0] == [];
      assert Current() == DoAll(old(Current()), tasks[..1]);
      var i := 0;
      while i < |g.roles|
        invariant 0 <= i <= |g.roles| && g.name in groups
        invariant Current() == DoAll(old(Current()), tasks[..i + 1])
      {
        assert tasks[..i + 2][..i + 1] == tasks[..i + 1];
        var id := FindOrCreateSiteRole(g.roles[i]);
        if id !in groups[g.name].roles {
          groups := groups[g.name := groups[g.name].(roles := groups[g.name].roles + [id])];
        }
        i := i + 1;
      }
      assert tasks[..i + 1] == tasks;
    }

    method CreateDefaultHyraxGroupsWithRoles(labels: map<string, string>) returns (created: bool)
      modifies this
      ensures created <==> site.Some?
      ensures site.Some? ==> Current() == DoAll(old(Current()), AllGroupTasks(DefaultGroups(labels)))
      ensures site.None? ==> roles == old(roles) && groups == old(groups)
    {
      if site.None? {
        return false;
      }
      var defaults := DefaultGroups(labels);
      var i := 0;
      while i < |defaults|
        invariant 0 <= i <= |defaults|
        invariant Current() == DoAll(old(Current()), AllGroupTasks(defaults[..i]))
      {
        assert defaults[..i + 1][..i] == defaults[..i];
        DoAllCat(old(Current()), AllGroupTasks(defaults[..i]), GroupTasks(defaults[i]));
        CreateDefaultGroup(defaults[i]);
        i := i + 1;
      }
      assert defaults[..i] == defaults;
      return true;
    }
  }

  lemma FindRoleUnique(roles: seq<Role>, r: Role, i: nat)
    requires i <= |roles| && (i < |roles| ==> roles[i] == r)
    requires forall j | 0 <= j < i :: roles[j] != r
    ensures FindRole(roles, r) == i
  {
  }

  lemma AppendedIsFound(roles: seq<Role>, r: Role)
    requires FindRole(roles, r) == |roles|
    ensures FindRole(roles + [r], r) == |roles|
  {
    FindRoleUnique(roles + [r], r, |roles|);
  }

  // ---------- what seeding achieves ----------

  predicate HasRole(t: Tenant, name: string) {
    FindRole(t.roles, SiteRole(t, name)) < |t.roles|
  }

  /** The task has nothing left to do. */
  predicate Satisfied(t: Tenant, task: Task) {
    match task
    case NeedRole(name) => HasRole(t, name)
    case NeedGroup(group, caption) => group in t.groups && t.groups[group].caption == caption
    case NeedGroupRole(group, name) =>
      HasRole(t, name) && group in t.groups && FindRole(t.roles, SiteRole(t, name)) in t.groups[group].roles
  }

  predicate AllSatisfied(t: Tenant, tasks: seq<Task>) {
    forall i | 0 <= i < |tasks| :: Satisfied(t, tasks[i])
  }

  predicate AtMostOneRecord(t: Tenant, r: Role) {
    forall i, j | 0 <= i < j < |t.roles| :: !(t.roles[i] == r && t.roles[j] == r)
  }

  /** Nothing of `t` is lost in `u`: role records, groups, and the roles that groups have, extra ones included. */
  predicate Keeps(t: Tenant, u: Tenant) {
    && u.site == t.site && t.roles <= u.roles
    && forall g | g in t.groups :: g in u.groups && t.groups[g].roles <= u.groups[g].roles
  }

  /** Each group of a role task is created by an earlier task, and a group's caption is the same throughout. */
  predicate Ordered(tasks: seq<Task>) {
    && (forall i | 0 <= i < |tasks| :: tasks[i].NeedGroupRole? ==>
          exists j | 0 <= j < i :: tasks[j].NeedGroup? && tasks[j].group == tasks[i].group)
    && (forall i, j | 0 <= i < |tasks| && 0 <= j < |tasks| ::
          tasks[i].NeedGroup? && tasks[j].NeedGroup? && tasks[i].group == tasks[j].group ==> tasks[i].caption == tasks[j].caption)
  }

  lemma DoKeeps(t: Tenant, task: Task)
    ensures Keeps(t, Do(t, task))
    ensures forall r :: AtMostOneRecord(t, r) ==> AtMostOneRecord(Do(t, task), r)
    ensures Satisfied(t, task) ==> Do(t, task) == t
  {
  }

  lemma DoSatisfies(t: Tenant, task: Task)
    requires task.NeedGroupRole? ==> task.group in t.groups
    ensures Satisfied(Do(t, task), task)
  {
    if !task.NeedGroup? && !HasRole(t, task.name) {
      AppendedIsFound(t.roles, SiteRole(t, task.name));
    }
  }

  lemma DoKeepsSatisfied(t: Tenant, task: Task, done: Task)
    requires Satisfied(t, done)
    requires task.NeedGroup? && done.NeedGroup? && task.group == done.group ==> task.caption == done.caption
    ensures Satisfied(Do(t, task), done)
  {
    DoKeeps(t, task);
    var after := Do(t, task);
    if !done.NeedGroup? {
      FindRoleUnique(after.roles, SiteRole(t, done.name), FindRole(t.roles, SiteRole(t, done.name)));
    }
  }

  lemma KeepsTransitive(t: Tenant, u: Tenant, v: Tenant)
    requires Keeps(t, u) && Keeps(u, v)
    ensures Keeps(t, v)
  {
  }

  lemma OrderedPrefix(tasks: seq<Task>)
    requires tasks != [] && Ordered(tasks)
    ensures Ordered(tasks[..|tasks| - 1])
  {
    assert forall i | 0 <= i < |tasks| - 1 :: tasks[..|tasks| - 1][i] == tasks[i];
  }

  lemma GroupIsThere(t: Tenant, tasks: seq<Task>)
    requires tasks != [] && Ordered(tasks) && AllSatisfied(t, tasks[..|tasks| - 1])
    ensures tasks[|tasks| - 1].NeedGroupRole? ==> tasks[|tasks| - 1].group in t.groups
  {
    var n := |tasks| - 1;
    if tasks[n].NeedGroupRole? {
      var j :| 0 <= j < n && tasks[j].NeedGroup? && tasks[j].group == tasks[n].group;
      assert Satisfied(t, tasks[..n][j]);
    }
  }

  /** After the loops every task is done, nothing that was there is lost, and no role record gets duplicated. */
  lemma {:induction false} SeedingCompletes(t: Tenant, tasks: seq<Task>)
    requires Ordered(tasks)
    ensures AllSatisfied(DoAll(t, tasks), tasks) && Keeps(t, DoAll(t, tasks))
    ensures forall r :: AtMostOneRecord(t, r) ==> AtMostOneRecord(DoAll(t, tasks), r)
  {
    hide Do, Satisfied, AtMostOneRecord;
    if tasks != [] {
      var n := |tasks| - 1;
      var before, task := DoAll(t, tasks[..n]), tasks[n];
      OrderedPrefix(tasks);
      SeedingCompletes(t, tasks[..n]);
      DoKeeps(before, task);
      KeepsTransitive(t, before, DoAll(t, tasks));
      GroupIsThere(before, tasks);
      DoSatisfies(before, task);
      forall i | 0 <= i < n ensures Satisfied(DoAll(t, tasks), tasks[i]) {
        assert Satisfied(before, tasks[..n][i]);
        DoKeepsSatisfied(before, task, tasks[i]);
      }
    }
  }

  lemma {:induction false} NothingLeftToDo(t: Tenant, tasks: seq<Task>)
    requires AllSatisfied(t, tasks)
    ensures DoAll(t, tasks) == t
  {
    if tasks != [] {
      var n := |tasks| - 1;
      assert forall i | 0 <= i < n :: tasks[..n][i] == tasks[i];
      NothingLeftToDo(t, tasks[..n]);
      DoKeeps(t, tasks[n]);
    }
  }

  /** A second run changes nothing. */
  lemma SeedingTwice(t: Tenant, tasks: seq<Task>)
    requires Ordered(tasks)
    ensures DoAll(DoAll(t, tasks), tasks) == DoAll(t, tasks)
  {
    SeedingCompletes(t, tasks);
    NothingLeftToDo(DoAll(t, tasks), tasks);
  }

  /** The service's own tasks: roles first, then groups. */
  lemma {:induction false} ServiceTasksOrdered(gs: seq<DefaultGroup>)
    requires forall i, j | 0 <= i < j < |gs| :: gs[i].name != gs[j].name
    ensures Ordered(AllGroupTasks(gs))
    ensures forall i | 0 <= i < |AllGroupTasks(gs)| && AllGroupTasks(gs)[i].NeedGroup? ::
              exists g | g in gs :: AllGroupTasks(gs)[i] == NeedGroup(g.name, g.caption)
  {
    if gs != [] {
      var n := |gs| - 1;
      var front, g := AllGroupTasks(gs[..n]), gs[n];
      ServiceTasksOrdered(gs[..n]);
      var tasks := AllGroupTasks(gs);
      assert tasks == front + GroupTasks(g);
      assert tasks[|front|] == NeedGroup(g.name, g.caption);
      forall i | 0 <= i < |tasks| && tasks[i].NeedGroup?
        ensures exists h | h in gs :: tasks[i] == NeedGroup(h.name, h.caption)
        ensures i < |front| ==> tasks[i].group != g.name
        ensures i >= |front| ==> i == |front|
      {
        if i < |front| {
          assert front[i].NeedGroup?;
          var h :| h in gs[..n] && front[i] == NeedGroup(h.name, h.caption);
          assert h in gs;
        } else {
          assert tasks[i] == GroupTasks(g)[i - |front|];
          assert g in gs;
        }
      }
      forall i | 0 <= i < |tasks| && tasks[i].NeedGroupRole?
        ensures exists j | 0 <= j < i :: tasks[j].NeedGroup? && tasks[j].group == tasks[i].group
      {
        if i < |front| {
          assert front[i].NeedGroupRole?;
          var j :| 0 <= j < i && front[j].NeedGroup? && front[j].group == front[i].group;
          assert tasks[j] == front[j];
        } else {
          assert tasks[i] == GroupTasks(g)[i - |front|];
        }
      }
      forall i, j | 0 <= i < |tasks| && 0 <= j < |tasks| && tasks[i].NeedGroup? && tasks[j].NeedGroup? && tasks[i].group == tasks[j].group
        ensures tasks[i].caption == tasks[j].caption
      {
        if i < |front| && j < |front| {
          assert front[i].caption == front[j].caption;
        }
      }
    }
  }

  /**
   * The default groups reach a fixed point: afterwards each is there with its caption and its default
   * roles, extra roles and other groups are kept, and running again changes nothing.
   */
  lemma DefaultGroupsFixedPoint(t: Tenant, labels: map<string, string>)
    ensures var tasks := AllGroupTasks(DefaultGroups(labels));
            var after := DoAll(t, tasks);
            AllSatisfied(after, tasks) && Keeps(t, after) && DoAll(after, tasks) == after
  {
    ServiceTasksOrdered(DefaultGroups(labels));
    SeedingCompletes(t, AllGroupTasks(DefaultGroups(labels)));
    SeedingTwice(t, AllGroupTasks(DefaultGroups(labels)));
  }

  /** Every default role exists afterwards, exactly once unless it was duplicated before; again changes nothing. */
  lemma DefaultRolesFixedPoint(t: Tenant)
    ensures var after := DoAll(t, RoleTasks(DEFAULT_ROLES));
            && Keeps(t, after) && DoAll(after, RoleTasks(DEFAULT_ROLES)) == after
            && (forall i | 0 <= i < |DEFAULT_ROLES| :: HasRole(after, DEFAULT_ROLES[i]))
            && (forall r :: AtMostOneRecord(t, r) ==> AtMostOneRecord(after, r))
  {
    var tasks := RoleTasks(DEFAULT_ROLES);
    assert Ordered(tasks);
    SeedingCompletes(t, tasks);
    SeedingTwice(t, tasks);
    forall i | 0 <= i < |DEFAULT_ROLES| ensures HasRole(DoAll(t, tasks), DEFAULT_ROLES[i]) {
      assert Satisfied(DoAll(t, tasks), tasks[i]);
    }
  }

  // ---------- which roles and groups there are afterwards ----------

  /** Every role of a group is a record of the table. */
  predicate ValidIds(t: Tenant) {
    forall g | g in t.groups :: forall id | id in t.groups[g].roles :: id < |t.roles|
  }

  predicate GroupHoldsAt(t: Tenant, group: string, name: string, id: nat) {
    group in t.groups && id in t.groups[group].roles && id < |t.roles| && t.roles[id] == Role(name, "Site", t.site)
  }

  /** The group has the site role of that name. */
  ghost predicate GroupHolds(t: Tenant, group: string, name: string) {
    exists id: nat :: GroupHoldsAt(t, group, name, id)
  }

  lemma EnsureHolds(t: Tenant, name: string, g: string, n: string)
    requires ValidIds(t)
    ensures var u := EnsureRole(t, name);
            && u.groups == t.groups && u.site == t.site && ValidIds(u)
            && (GroupHolds(u, g, n) <==> GroupHolds(t, g, n))
            && var id := FindRole(u.roles, SiteRole(t, name)); id < |u.roles| && u.roles[id] == SiteRole(t, name)
  {
    var u := EnsureRole(t, name);
    if FindRole(t.roles, SiteRole(t, name)) == |t.roles| {
      AppendedIsFound(t.roles, SiteRole(t, name));
    }
    hide FindRole;
    if id: nat :| GroupHoldsAt(t, g, n, id) {
      assert GroupHoldsAt(u, g, n, id);
    }
    if id: nat :| GroupHoldsAt(u, g, n, id) {
      assert GroupHoldsAt(t, g, n, id);
    }
  }

  /** Giving one group one more role. */
  lemma AddingHolds(t: Tenant, group: string, id: nat, g: string, n: string)
    requires ValidIds(t) && group in t.groups && id < |t.roles|
    ensures var after := t.(groups := t.groups[group := t.groups[group].(roles := t.groups[group].roles + [id])]);
            && ValidIds(after)
            && (GroupHolds(after, g, n) <==> GroupHolds(t, g, n) || (g == group && t.roles[id] == Role(n, "Site", t.site)))
  {
    var after := t.(groups := t.groups[group := t.groups[group].(roles := t.groups[group].roles + [id])]);
    if k: nat :| GroupHoldsAt(t, g, n, k) {
      assert GroupHoldsAt(after, g, n, k);
    }
    if g == group && t.roles[id] == Role(n, "Site", t.site) {
      assert GroupHoldsAt(after, g, n, id);
    }
    if k: nat :| GroupHoldsAt(after, g, n, k) && !GroupHoldsAt(t, g, n, k) {
      assert g == group && k == id;
    }
  }

  lemma RecaptionHolds(t: Tenant, group: string, caption: string, g: string, n: string)
    requires ValidIds(t)
    ensures var after := Do(t, NeedGroup(group, caption));
            ValidIds(after) && (GroupHolds(after, g, n) <==> GroupHolds(t, g, n))
  {
    var after := Do(t, NeedGroup(group, caption));
    forall id: nat ensures GroupHoldsAt(after, g, n, id) <==> GroupHoldsAt(t, g, n, id) {
    }
  }

  lemma DoHolds(t: Tenant, task: Task, g: string, n: string)
    requires ValidIds(t)
    ensures ValidIds(Do(t, task))
    ensures GroupHolds(Do(t, task), g, n) <==> GroupHolds(t, g, n) || (task == NeedGroupRole(g, n) && g in t.groups)
    ensures Do(t, task).groups.Keys == t.groups.Keys + (if task.NeedGroup? then {task.group} else {})
  {
    match task
    case NeedRole(name) => EnsureHolds(t, name, g, n);
    case NeedGroup(group, caption) => RecaptionHolds(t, group, caption, g, n);
    case NeedGroupRole(group, name) =>
      hide GroupHolds, ValidIds, FindRole, EnsureRole;
      EnsureHolds(t, name, g, n);
      var u := EnsureRole(t, name);
      var id := FindRole(u.roles, SiteRole(t, name));
      if group in u.groups {
        if id in u.groups[group].roles {
          HoldsBy(u, group, name, id);
        } else {
          AddingHolds(u, group, id, g, n);
        }
      }
  }

  lemma HoldsBy(t: Tenant, group: string, name: string, id: nat)
    requires GroupHoldsAt(t, group, name, id)
    ensures GroupHolds(t, group, name)
  {
  }

  lemma {:induction false} DoAllHolds(t: Tenant, tasks: seq<Task>, g: string, n: string)
    requires ValidIds(t) && Ordered(tasks)
    ensures ValidIds(DoAll(t, tasks))
    ensures GroupHolds(DoAll(t, tasks), g, n) <==> GroupHolds(t, g, n) || NeedGroupRole(g, n) in tasks
    ensures forall h :: h in DoAll(t, tasks).groups <==> h in t.groups || exists c :: NeedGroup(h, c) in tasks
  {
    hide Do, GroupHolds, ValidIds;
    if tasks != [] {
      var k := |tasks| - 1;
      var before, task := DoAll(t, tasks[..k]), tasks[k];
      OrderedPrefix(tasks);
      DoAllHolds(t, tasks[..k], g, n);
      DoHolds(before, task, g, n);
      assert tasks == tasks[..k] + [task];
      assert forall x :: x in tasks <==> x in tasks[..k] || x == task;
      SeedingCompletes(t, tasks[..k]);
      GroupIsThere(before, tasks);
      if task.NeedGroup? {
        assert NeedGroup(task.group, task.caption) in tasks;
      }
    }
  }

  lemma {:induction false} InAllTasks(gs: seq<DefaultGroup>, task: Task)
    ensures task in AllGroupTasks(gs) <==> exists g :: g in gs && task in GroupTasks(g)
  {
    if gs != [] {
      InAllTasks(gs[..|gs| - 1], task);
      assert gs == gs[..|gs| - 1] + [gs[|gs| - 1]];
    }
  }

  lemma InGroupTasks(g: DefaultGroup, task: Task)
    ensures task in GroupTasks(g) <==>
            task == NeedGroup(g.name, g.caption) || (task.NeedGroupRole? && task.group == g.name && task.name in g.roles)
  {
    if task.NeedGroupRole? && task.group == g.name && task.name in g.roles {
      var i :| 0 <= i < |g.roles| && g.roles[i] == task.name;
      assert GroupTasks(g)[i + 1] == task;
    }
    assert GroupTasks(g)[0] == NeedGroup(g.name, g.caption);
  }

  /** The roles that the default groups come with. */
  predicate ComesWith(group: string, role: string) {
    || (group == "admin" && role == "admin")
    || (group == "editors" && (role == "work_editor" || role == "collection_editor" || role == "user_reader"))
    || (group == "depositors" && role == "work_depositor")
  }

  predicate IsDefaultGroup(group: string) {
    group == "admin" || group == "registered" || group == "editors" || group == "depositors"
  }

  lemma DefaultTasksAre(labels: map<string, string>, task: Task)
    ensures task in AllGroupTasks(DefaultGroups(labels)) <==>
            match task
            case NeedRole(_) => false
            case NeedGroup(group, caption) =>
              IsDefaultGroup(group) && caption == if group in labels then labels[group] else ""
            case NeedGroupRole(group, role) => ComesWith(group, role)
  {
    var gs := DefaultGroups(labels);
    InAllTasks(gs, task);
    assert gs[0] in gs && gs[1] in gs && gs[2] in gs && gs[3] in gs;
    InGroupTasks(gs[0], task);
    InGroupTasks(gs[1], task);
    InGroupTasks(gs[2], task);
    InGroupTasks(gs[3], task);
  }

  /**
   * What creating the default groups leaves, whatever was there: the four groups and no others are new, and
   * the site roles that a group has are those it had and those it comes with.
   */
  lemma DefaultGroupsSeeded(t: Tenant, labels: map<string, string>, g: string, n: string)
    requires ValidIds(t)
    ensures var after := DoAll(t, AllGroupTasks(DefaultGroups(labels)));
            && (g in after.groups <==> g in t.groups || IsDefaultGroup(g))
            && (IsDefaultGroup(g) ==> g in after.groups && after.groups[g].caption == if g in labels then labels[g] else "")
            && (GroupHolds(after, g, n) <==> GroupHolds(t, g, n) || ComesWith(g, n))
  {
    var tasks := AllGroupTasks(DefaultGroups(labels));
    ServiceTasksOrdered(DefaultGroups(labels));
    DoAllHolds(t, tasks, g, n);
    SeedingCompletes(t, tasks);
    var caption := if g in labels then labels[g] else "";
    DefaultTasksAre(labels, NeedGroupRole(g, n));
    forall c ensures NeedGroup(g, c) in tasks <==> IsDefaultGroup(g) && c == caption {
      DefaultTasksAre(labels, NeedGroup(g, c));
    }
    if IsDefaultGroup(g) {
      var i :| 0 <= i < |tasks| && tasks[i] == NeedGroup(g, caption);
      assert Satisfied(DoAll(t, tasks), tasks[i]);
    }
  }

  lemma {:induction false} RolesOnlyGrow(t: Tenant, names: seq<string>, n: string)
    ensures HasRole(DoAll(t, RoleTasks(names)), n) <==> HasRole(t, n) || n in names
    ensures DoAll(t, RoleTasks(names)).groups == t.groups
  {
    if names != [] {
      var k := |names| - 1;
      var before := DoAll(t, RoleTasks(names[..k]));
      RolesOnlyGrow(t, names[..k], n);
      assert RoleTasks(names)[..k] == RoleTasks(names[..k]);
      assert names == names[..k] + [names[k]];
      var r := SiteRole(before, n);
      if before.roles + [SiteRole(before, names[k])] == EnsureRole(before, names[k]).roles {
        FindRoleUnique(before.roles + [SiteRole(before, names[k])], r,
                       if HasRole(before, n) then FindRole(before.roles, r)
                       else if n == names[k] then |before.roles| else |before.roles| + 1);
      }
    }
  }

  /** The eight default roles are there afterwards, whatever was there, and no other site role is new. */
  lemma DefaultRolesSeeded(t: Tenant, n: string)
    ensures HasRole(DoAll(t, RoleTasks(DEFAULT_ROLES)), n) <==>
            || HasRole(t, n) || n == "admin"
            || n == "collection_manager" || n == "collection_editor" || n == "collection_reader"
            || n == "user_manager" || n == "user_reader" || n == "work_editor" || n == "work_depositor"
    ensures HasRole(t, n) <==> exists i :: 0 <= i < |t.roles| && t.roles[i] == Role(n, "Site", t.site)
  {
    RolesOnlyGrow(t, DEFAULT_ROLES, n);
  }

  // ---------- access grants ----------

  datatype Access = Manage | Deposit | View

  /** A grant to a group. */
  datatype Grant = Grant(access: Access, agentId: string)

  /** Permission templates by source id; a unique index keeps each grant of a template single. */
  type Templates = map<string, set<Grant>>

  const COLLECTION_GRANTS: seq<Grant> :=
    [Grant(Manage, "admin"), Grant(Manage, "collection_manager"), Grant(View, "collection_editor"), Grant(View, "collection_reader")]

  const ADMIN_SET_GRANTS: seq<Grant> :=
    [Grant(Manage, "admin"), Grant(Deposit, "work_depositor"), Grant(Deposit, "work_editor"), Grant(View, "work_editor")]

  function GrantsOf(ts: Templates, id: string): set<Grant> {
    if id in ts then ts[id] else {}
  }

  function Required(gs: seq<Grant>): set<Grant> {
    set g | g in gs
  }

  /** The objects one after the other: their templates, and for which of them the access controls are reset. */
  function SeedGrants(ts: Templates, ids: seq<string>, gs: seq<Grant>): (Templates, seq<string>) {
    if ids == [] then (ts, [])
    else
      var n := |ids| - 1;
      var (before, resets) := SeedGrants(ts, ids[..n], gs);
      var had := GrantsOf(before, ids[n]);
      (before[ids[n] := had + Required(gs)], if Required(gs) <= had then resets else resets + [ids[n]])
  }

  lemma SameSizeSubset<T>(a: set<T>, b: set<T>)
    requires a <= b && |a| == |b|
    ensures a == b
  {
    assert b == a + (b - a);
    assert |b| == |a| + |b - a|;
    assert b - a == {};
  }

  function Open(ts: Templates, id: string): Templates {
    if id in ts then ts else ts[id := {}]
  }

  function AddGrant(ts: Templates, id: string, g: Grant): Templates {
    ts[id := GrantsOf(ts, id) + {g}]
  }

  /** Four grants, found or created one by one. */
  lemma FourGrants(ts: Templates, id: string, gs: seq<Grant>)
    requires |gs| == 4
    ensures AddGrant(AddGrant(AddGrant(AddGrant(Open(ts, id), id, gs[0]), id, gs[1]), id, gs[2]), id, gs[3])
         == ts[id := GrantsOf(ts, id) + Required(gs)]
  {
    assert gs == [gs[0], gs[1], gs[2], gs[3]];
    assert GrantsOf(ts, id) + {gs[0]} + {gs[1]} + {gs[2]} + {gs[3]} == GrantsOf(ts, id) + Required(gs);
  }

  /** The count has not changed exactly when nothing was missing. */
  lemma SameCountExactly(had: set<Grant>, required: set<Grant>)
    ensures |had + required| == |had| <==> required <= had
  {
    if |had + required| == |had| {
      SameSizeSubset(had, had + required);
    } else {
      assert required <= had ==> had + required == had;
    }
  }

  class AccessesJob {
    var templates: Templates
    var resets: seq<string>

    method FindOrCreateGrant(id: string, g: Grant)
      requires id in templates
      modifies this`templates
      ensures templates == AddGrant(old(templates), id, g)
    {
      if g !in templates[id] {
        templates := templates[id := templates[id] + {g}];
      } else {
        assert templates[id] + {g} == templates[id];
      }
    }

    /** The body that both jobs run for each object, with their four grants. */
    method CreateAccesses(id: string, gs: seq<Grant>)
      requires |gs| == 4
      modifies this
      ensures templates == old(templates)[id := GrantsOf(old(templates), id) + Required(gs)]
      ensures resets == if Required(gs) <= GrantsOf(old(templates), id) then old(resets) else old(resets) + [id]
    {
      if id !in templates {
        templates := templates[id := {}];
      }
      assert templates == Open(old(templates), id) && templates[id] == GrantsOf(old(templates), id);
      var originalCount := |templates[id]|;
      FindOrCreateGrant(id, gs[0]);
      FindOrCreateGrant(id, gs[1]);
      FindOrCreateGrant(id, gs[2]);
      FindOrCreateGrant(id, gs[3]);
      hide AddGrant, Open, GrantsOf, Required;
      FourGrants(old(templates), id, gs);
      SameCountExactly(GrantsOf(old(templates), id), Required(gs));
      if |templates[id]| != originalCount {
        resets := resets + [id];
      }
    }

    /** The loop over all objects of a kind. */
    method CreateAllAccesses(ids: seq<string>, gs: seq<Grant>)
      requires |gs| == 4
      modifies this
      ensures templates == SeedGrants(old(templates), ids, gs).0
      ensures resets == old(resets) + SeedGrants(old(templates), ids, gs).1
    {
      var i := 0;
      while i < |ids|
        invariant 0 <= i <= |ids|
        invariant templates == SeedGrants(old(templates), ids[..i], gs).0
        invariant resets == old(resets) + SeedGrants(old(templates), ids[..i], gs).1
      {
        assert ids[..i + 1][..i] == ids[..i];
        CreateAccesses(ids[i], gs);
        i := i + 1;
      }
      assert ids[..i] == ids;
    }

    method CreateCollectionAccesses(collections: seq<string>)
      modifies this
      ensures templates == SeedGrants(old(templates), collections, COLLECTION_GRANTS).0
      ensures resets == old(resets) + SeedGrants(old(templates), collections, COLLECTION_GRANTS).1
    {
      CreateAllAccesses(collections, COLLECTION_GRANTS);
    }

    method CreateAdminSetAccesses(adminSets: seq<string>)
      modifies this
      ensures templates == SeedGrants(old(templates), adminSets, ADMIN_SET_GRANTS).0
      ensures resets == old(resets) + SeedGrants(old(templates), adminSets, ADMIN_SET_GRANTS).1
    {
      CreateAllAccesses(adminSets, ADMIN_SET_GRANTS);
    }
  }

  /** Every object gets its required grants and keeps its others; other templates stay as they are. */
  lemma {:induction false} GrantsSeeded(ts: Templates, ids: seq<string>, gs: seq<Grant>)
    ensures var after := SeedGrants(ts, ids, gs).0;
            && after.Keys == ts.Keys + (set id | id in ids)
            && forall id | id in after :: after[id] == if id in ids then GrantsOf(ts, id) + Required(gs) else ts[id]
  {
    if ids != [] {
      var n := |ids| - 1;
      GrantsSeeded(ts, ids[..n], gs);
      assert ids == ids[..n] + [ids[n]];
    }
  }

  /** The access controls of an object are reset exactly when one of its grants was missing. */
  lemma {:induction false} ResetExactly(ts: Templates, ids: seq<string>, gs: seq<Grant>, id: string)
    ensures id in SeedGrants(ts, ids, gs).1 <==> id in ids && exists g :: g in gs && g !in GrantsOf(ts, id)
  {
    if ids != [] {
      var n := |ids| - 1;
      ResetExactly(ts, ids[..n], gs, id);
      GrantsSeeded(ts, ids[..n], gs);
      assert ids == ids[..n] + [ids[n]];
      var had := GrantsOf(SeedGrants(ts, ids[..n], gs).0, ids[n]);
      assert ids[n] !in ids[..n] ==> had == GrantsOf(ts, ids[n]);
      assert Required(gs) <= GrantsOf(ts, id) <==> forall g | g in gs :: g in GrantsOf(ts, id);
    }
  }

  /** A second run changes and resets nothing. */
  lemma GrantsSeededTwice(ts: Templates, ids: seq<string>, gs: seq<Grant>)
    ensures var once := SeedGrants(ts, ids, gs).0; SeedGrants(once, ids, gs) == (once, [])
  {
    var once := SeedGrants(ts, ids, gs).0;
    var (twice, resets) := SeedGrants(once, ids, gs);
    GrantsSeeded(ts, ids, gs);
    GrantsSeeded(once, ids, gs);
    forall id | id in once ensures twice[id] == once[id] {
      assert id in ids ==> GrantsOf(ts, id) + Required(gs) + Required(gs) == GrantsOf(ts, id) + Required(gs);
    }
    assert twice == once;
    if resets != [] {
      ResetExactly(once, ids, gs, resets[0]);
    }
  }

  /** What the two jobs leave, grant by grant: the listed objects have their four and keep their others. */
  lemma AccessesSeeded(ts: Templates, ids: seq<string>, id: string, g: Grant)
    ensures var collections := SeedGrants(ts, ids, COLLECTION_GRANTS).0;
            g in GrantsOf(collections, id) <==>
            || g in GrantsOf(ts, id)
            || (id in ids && (|| (g.access == Manage && (g.agentId == "admin" || g.agentId == "collection_manager"))
                              || (g.access == View && (g.agentId == "collection_editor" || g.agentId == "collection_reader"))))
    ensures var adminSets := SeedGrants(ts, ids, ADMIN_SET_GRANTS).0;
            g in GrantsOf(adminSets, id) <==>
            || g in GrantsOf(ts, id)
            || (id in ids && (|| (g.access == Manage && g.agentId == "admin")
                              || (g.access == Deposit && (g.agentId == "work_depositor" || g.agentId == "work_editor"))
                              || (g.access == View && g.agentId == "work_editor")))
  {
    hide SeedGrants;
    GrantsSeeded(ts, ids, COLLECTION_GRANTS);
    GrantsSeeded(ts, ids, ADMIN_SET_GRANTS);
  }
}
