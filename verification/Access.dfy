/**
 * From group membership to readability: the groups and role names that `Ability` computes for a user,
 * and who can read a stamped lending work at the end of a run of the lending protocol.
 */
module Access {
  import opened Prelude
  import opened WorkAuthorization
  import opened LeaseHistory
  import GroupJob
  import RoleSeeding

  const REGISTERED := "registered"

  /**
   * The signed-in user: `siteRoles` are the names for which `has_role?` holds on the site, `otherRoles`
   * says whether there are further roles that are neither these nor group memberships.
   */
  datatype User = User(id: UserId, newRecord: bool, siteRoles: set<string>, otherRoles: bool)

  function Elements(xs: seq<string>): set<string> {
    set x | x in xs
  }

  lemma ElementsMean(xs: seq<string>)
    ensures forall x :: x in xs <==> x in Elements(xs)
  {
  }

  // ---------- what the user's groups are ----------

  function Memberships(s: Store, u: UserId): set<string> {
    set g | g in s.groups && u in s.groups[g]
  }

  predicate HasSiteRole(groupRoles: map<string, set<string>>, group: string, role: string) {
    group in groupRoles && role in groupRoles[group]
  }

  /** The user has the role, directly or through a group. */
  predicate HasGroupAwareRole(user: User, memberships: set<string>, groupRoles: map<string, set<string>>, role: string) {
    !user.newRecord && (role in user.siteRoles || exists g | g in memberships :: HasSiteRole(groupRoles, g, role))
  }

  predicate HasAnyRole(user: User, memberships: set<string>) {
    user.siteRoles != {} || memberships != {} || user.otherRoles
  }

  function RoleNames(user: User, memberships: set<string>, groupRoles: map<string, set<string>>): set<string> {
    set r | r in RoleSeeding.DEFAULT_ROLES && HasGroupAwareRole(user, memberships, groupRoles, r)
  }

  function UserGroups(defaults: seq<string>, user: User, memberships: set<string>,
                      groupRoles: map<string, set<string>>): set<string>
  {
    Elements(defaults) + memberships
    + (if !user.newRecord && HasAnyRole(user, memberships) then {REGISTERED} else {})
    + RoleNames(user, memberships, groupRoles)
  }

  // ---------- the memoising class ----------

  function Deduplicate(xs: seq<string>): (r: seq<string>)
    ensures Elements(r) == Elements(xs)
  {
    if xs == [] then []
    else
      var init, last := xs[..|xs| - 1], xs[|xs| - 1];
      assert xs == init + [last];
      var r := Deduplicate(init);
      assert Elements(xs) == Elements(init) + {last};
      if last in r then
        assert last in Elements(r);
        r
      else
        assert Elements(r + [last]) == Elements(r) + {last};
        r + [last]
  }

  /** Ruby's array union: first occurrences, in order. */
  function Union(a: seq<string>, b: seq<string>): (r: seq<string>)
    ensures Elements(r) == Elements(a) + Elements(b)
  {
    Deduplicate(a + b)
  }

  class Ability {
    const defaultUserGroups: seq<string>
    const user: User
    const groupNames: seq<string>
    const groupRoles: map<string, set<string>>
    var userGroups: Option<seq<string>>
    var roleNames: Option<seq<string>>

    predicate Valid()
      reads this
    {
      && (userGroups.Some? ==>
            Elements(userGroups.value) == UserGroups(defaultUserGroups, user, Elements(groupNames), groupRoles))
      && (roleNames.Some? ==> Elements(roleNames.value) == RoleNames(user, Elements(groupNames), groupRoles))
    }

    constructor (defaultUserGroups: seq<string>, user: User, groupNames: seq<string>, groupRoles: map<string, set<string>>)
      ensures Valid() && userGroups.None? && roleNames.None?
      ensures this.defaultUserGroups == defaultUserGroups && this.user == user
      ensures this.groupNames == groupNames && this.groupRoles == groupRoles
    {
      this.defaultUserGroups, this.user, this.groupNames, this.groupRoles :=
        defaultUserGroups, user, groupNames, groupRoles;
      userGroups, roleNames := None, None;
    }

    /** What the memoised sets hold, in terms of the user's own roles, groups and the groups' roles. */
    lemma NamesExplained(x: string)
      ensures x in RoleNames(user, Elements(groupNames), groupRoles) <==> x in RoleSeeding.DEFAULT_ROLES && HoldsRole(x)
      ensures x in UserGroups(defaultUserGroups, user, Elements(groupNames), groupRoles) <==>
                || x in defaultUserGroups || x in groupNames
                || (x == REGISTERED && !user.newRecord && (user.siteRoles != {} || groupNames != [] || user.otherRoles))
                || (x in RoleSeeding.DEFAULT_ROLES && HoldsRole(x))
    {
      if groupNames != [] {
        assert groupNames[0] in Elements(groupNames);
      }
      if g :| g in groupNames && g in groupRoles && x in groupRoles[g] {
        assert g in Elements(groupNames) && HasSiteRole(groupRoles, g, x);
      }
    }

    /** The user is saved and has the role on the site, itself or through one of its groups. */
    predicate HoldsRole(x: string)
    {
      !user.newRecord && (x in user.siteRoles || exists g :: g in groupNames && g in groupRoles && x in groupRoles[g])
    }

    method AllUserAndGroupRoles() returns (names: seq<string>)
      requires Valid()
      modifies this`roleNames
      ensures Valid() && roleNames == Some(names)
      ensures Elements(names) == RoleNames(user, Elements(groupNames), groupRoles)
      ensures forall r :: r in names <==>
                r in RoleSeeding.DEFAULT_ROLES && !user.newRecord &&
                (r in user.siteRoles || exists g :: g in groupNames && g in groupRoles && r in groupRoles[g])
    {
      forall r ensures r in RoleNames(user, Elements(groupNames), groupRoles) <==> r in RoleSeeding.DEFAULT_ROLES && HoldsRole(r) {
        NamesExplained(r);
      }
      if roleNames.Some? {
        ElementsMean(roleNames.value);
      }
      if roleNames.Some? {
        return roleNames.value;
      }
      names := [];
      var i := 0;
      while i < |RoleSeeding.DEFAULT_ROLES|
        invariant 0 <= i <= |RoleSeeding.DEFAULT_ROLES|
        invariant forall r :: r in names <==>
                    r in RoleSeeding.DEFAULT_ROLES[..i] && HasGroupAwareRole(user, Elements(groupNames), groupRoles, r)
      {
        if HasGroupAwareRole(user, Elements(groupNames), groupRoles, RoleSeeding.DEFAULT_ROLES[i]) {
          ghost var before := names;
          names := Union(names, [RoleSeeding.DEFAULT_ROLES[i]]);
          assert forall r :: r in names <==> r in Elements(before) + Elements([RoleSeeding.DEFAULT_ROLES[i]]) by {
            assert forall r :: r in names <==> r in Elements(names);
          }
        }
        i := i + 1;
      }
      assert RoleSeeding.DEFAULT_ROLES[..|RoleSeeding.DEFAULT_ROLES|] == RoleSeeding.DEFAULT_ROLES;
      ElementsMean(names);
      roleNames := Some(names);
    }

    method ComputeUserGroups() returns (names: seq<string>)
      requires Valid()
      modifies this
      ensures Valid() && userGroups == Some(names)
      ensures Elements(names) == UserGroups(defaultUserGroups, user, Elements(groupNames), groupRoles)
      ensures forall x :: x in names <==>
                || x in defaultUserGroups || x in groupNames
                || (x == "registered" && !user.newRecord && (user.siteRoles != {} || groupNames != [] || user.otherRoles))
                || (x in RoleSeeding.DEFAULT_ROLES && !user.newRecord &&
                    (x in user.siteRoles || exists g :: g in groupNames && g in groupRoles && x in groupRoles[g]))
    {
      names := FindUserGroups();
      forall x ensures x in names <==>
                         || x in defaultUserGroups || x in groupNames
                         || (x == "registered" && !user.newRecord && (user.siteRoles != {} || groupNames != [] || user.otherRoles))
                         || (x in RoleSeeding.DEFAULT_ROLES && HoldsRole(x))
      {
        NamesExplained(x);
        assert x in names <==> x in Elements(names);
      }
    }

    method FindUserGroups() returns (names: seq<string>)
      requires Valid()
      modifies this
      ensures Valid() && userGroups == Some(names)
      ensures Elements(names) == UserGroups(defaultUserGroups, user, Elements(groupNames), groupRoles)
    {
      if userGroups.Some? {
        return userGroups.value;
      }
      names := Union(defaultUserGroups, groupNames);
      if !user.newRecord && HasAnyRole(user, Elements(groupNames)) {
        names := Union(names, [REGISTERED]);
      }
      var roles := AllUserAndGroupRoles();
      names := Union(names, roles);
      userGroups := Some(names);
    }
  }

  // ---------- readability ----------

  /** A document is readable when one of its read groups is among the user's groups. */
  predicate CanRead(readGroups: seq<string>, userGroups: set<string>) {
    exists g | g in readGroups :: g in userGroups
  }

  /** The user's groups at the end of a run, which `Ability` computes from the memberships then. */
  function GroupsOf(s: Store, user: User, defaults: seq<string>, groupRoles: map<string, set<string>>): set<string> {
    UserGroups(defaults, user, Memberships(s, user.id), groupRoles)
  }

  /** The name reaches `user_groups` by another way than membership. */
  predicate OtherwiseGranted(s: Store, user: User, defaults: seq<string>, groupRoles: map<string, set<string>>, name: string) {
    || name in defaults
    || (name == REGISTERED && !user.newRecord && HasAnyRole(user, Memberships(s, user.id)))
    || (name in RoleSeeding.DEFAULT_ROLES && HasGroupAwareRole(user, Memberships(s, user.id), groupRoles, name))
  }

  /** No role name and no default group name is the pid. */
  predicate OrdinaryPid(defaults: seq<string>, p: Pid) {
    p !in defaults && p != REGISTERED && p !in RoleSeeding.DEFAULT_ROLES
  }

  /** Everything at or below `p` carries the read group `p` and no other. */
  ghost predicate TreeStamped(nodes: map<string, GroupJob.Node>, readGroups: map<string, seq<string>>, p: Pid) {
    forall n | n in readGroups && GroupJob.Reaches(nodes, p, n) :: readGroups[n] == [p]
  }

  /** The job leaves the tree stamped, whatever the read groups were. */
  lemma JobStampsTree(nodes: map<string, GroupJob.Node>, before: map<string, seq<string>>,
                      after: map<string, seq<string>>, p: Pid)
    requires GroupJob.StampedBelow(nodes, before, after, p, p)
    ensures TreeStamped(nodes, after, p)
    ensures forall n | n in before && !GroupJob.Reaches(nodes, p, n) :: after[n] == before[n]
  {
  }

  /** Who can read what carries the group `p` alone. */
  lemma GroupReadability(s: Store, user: User, defaults: seq<string>, groupRoles: map<string, set<string>>, p: Pid)
    ensures CanRead([p], GroupsOf(s, user, defaults, groupRoles)) <==>
            Member(s, user.id, p) || OtherwiseGranted(s, user, defaults, groupRoles, p)
    ensures OrdinaryPid(defaults, p) ==> !OtherwiseGranted(s, user, defaults, groupRoles, p)
  {
    assert p in [p];
    assert p in defaults <==> p in Elements(defaults);
  }

  /** Exactly who can read a node of a stamped tree. */
  lemma StampedReadability(s: Store, user: User, defaults: seq<string>, groupRoles: map<string, set<string>>,
                           nodes: map<string, GroupJob.Node>, readGroups: map<string, seq<string>>, p: Pid, n: string)
    requires TreeStamped(nodes, readGroups, p)
    requires n in readGroups && GroupJob.Reaches(nodes, p, n)
    ensures CanRead(readGroups[n], GroupsOf(s, user, defaults, groupRoles)) <==>
            Member(s, user.id, p) || OtherwiseGranted(s, user, defaults, groupRoles, p)
  {
    GroupReadability(s, user, defaults, groupRoles, p);
  }

  /** Authorizing a user opens the whole tree of the work, at every depth. */
  lemma GrantOpensTree(s: Store, user: User, until: Time, defaults: seq<string>, groupRoles: map<string, set<string>>,
                       nodes: map<string, GroupJob.Node>, readGroups: map<string, seq<string>>, p: Pid)
    requires Resolves(s, p) && TreeStamped(nodes, readGroups, p)
    ensures forall n | n in readGroups && GroupJob.Reaches(nodes, p, n) ::
              CanRead(readGroups[n], GroupsOf(Grant(s, user.id, p, until), user, defaults, groupRoles))
  {
    forall n | n in readGroups && GroupJob.Reaches(nodes, p, n)
      ensures CanRead(readGroups[n], GroupsOf(Grant(s, user.id, p, until), user, defaults, groupRoles))
    {
      StampedReadability(Grant(s, user.id, p, until), user, defaults, groupRoles, nodes, readGroups, p, n);
    }
  }

  /**
   * What a lease adds to the user's groups: the work's group, and `registered`, which every role of a
   * saved user brings along. A group without site roles gives no role.
   */
  lemma GrantEffectOnUserGroups(s: Store, user: User, until: Time, defaults: seq<string>,
                                groupRoles: map<string, set<string>>, p: Pid)
    requires Resolves(s, p) && (p in groupRoles ==> groupRoles[p] == {})
    ensures GroupsOf(Grant(s, user.id, p, until), user, defaults, groupRoles)
         == GroupsOf(s, user, defaults, groupRoles) + {p} + (if user.newRecord then {} else {REGISTERED})
  {
    var after := Grant(s, user.id, p, until);
    var had, has := Memberships(s, user.id), Memberships(after, user.id);
    assert has == had + {p};
    forall r ensures HasGroupAwareRole(user, has, groupRoles, r) == HasGroupAwareRole(user, had, groupRoles, r) {
      assert !HasSiteRole(groupRoles, p, r);
      if g :| g in has && HasSiteRole(groupRoles, g, r) {
        assert g in had;
      }
    }
    assert RoleNames(user, has, groupRoles) == RoleNames(user, had, groupRoles);
  }

  /**
   * Joining a group gives a saved user the group's name, `registered` and every default role of the group,
   * and nothing else.
   */
  lemma JoiningAddsRoles(user: User, memberships: set<string>, g: string, defaults: seq<string>,
                         groupRoles: map<string, set<string>>, x: string)
    requires !user.newRecord
    ensures x in UserGroups(defaults, user, memberships + {g}, groupRoles) <==>
            || x in UserGroups(defaults, user, memberships, groupRoles) || x == g || x == REGISTERED
            || (x in RoleSeeding.DEFAULT_ROLES && g in groupRoles && x in groupRoles[g])
  {
    if g in groupRoles && x in groupRoles[g] {
      assert g in memberships + {g} && HasSiteRole(groupRoles, g, x);
    }
    if h :| h in memberships && HasSiteRole(groupRoles, h, x) {
      assert h in memberships + {g};
    }
  }

  /** Revoking closes it again, except where the pid reaches the user's groups by another way. */
  lemma RevokeClosesTree(s: Store, user: User, defaults: seq<string>, groupRoles: map<string, set<string>>,
                         nodes: map<string, GroupJob.Node>, readGroups: map<string, seq<string>>, p: Pid, n: string)
    requires p in s.works && TreeStamped(nodes, readGroups, p)
    requires n in readGroups && GroupJob.Reaches(nodes, p, n)
    ensures var after := Revoke(s, user.id, p);
            && (CanRead(readGroups[n], GroupsOf(after, user, defaults, groupRoles)) <==>
                OtherwiseGranted(after, user, defaults, groupRoles, p))
            && (OrdinaryPid(defaults, p) ==> !CanRead(readGroups[n], GroupsOf(after, user, defaults, groupRoles)))
  {
    StampedReadability(Revoke(s, user.id, p), user, defaults, groupRoles, nodes, readGroups, p, n);
  }

  /**
   * From the job to the reader: once the job has stamped the tree, authorizing a user opens every node of
   * it, and revoking closes every one again, provided the pid is no role or default group name.
   */
  lemma JobThenLease(s: Store, user: User, until: Time, defaults: seq<string>, groupRoles: map<string, set<string>>,
                     nodes: map<string, GroupJob.Node>, before: map<string, seq<string>>, after: map<string, seq<string>>,
                     p: Pid, n: string)
    requires GroupJob.StampedBelow(nodes, before, after, p, p) && n in after && GroupJob.Reaches(nodes, p, n)
    requires Resolves(s, p) && OrdinaryPid(defaults, p)
    ensures var granted := Grant(s, user.id, p, until);
            && CanRead(after[n], GroupsOf(granted, user, defaults, groupRoles))
            && !CanRead(after[n], GroupsOf(Revoke(granted, user.id, p), user, defaults, groupRoles))
  {
    JobStampsTree(nodes, before, after, p);
    GrantOpensTree(s, user, until, defaults, groupRoles, nodes, after, p);
    RevokeClosesTree(Grant(s, user.id, p, until), user, defaults, groupRoles, nodes, after, p, n);
  }

  /**
   * End to end: in any run, right after a completed sign-in of the user with revoke time `t`, a node at
   * any depth of a stamped, existing work is readable exactly when the most recent successful grant of
   * that work to that user reaches beyond `t` and there was one since the group was last destroyed.
   */
  lemma ReadableIffGrantCurrent(start: Store, before: seq<Step>, signIn: Step, user: User, defaults: seq<string>,
                                groupRoles: map<string, set<string>>, nodes: map<string, GroupJob.Node>,
                                readGroups: map<string, seq<string>>, p: Pid, n: string)
    requires signIn.SignInStep? && signIn.user == user.id
    requires Initial(start) && WellTimed(before + [signIn]) && AllResolve(Run(start, before), signIn.pids)
    requires p in Run(start, before).works && OrdinaryPid(defaults, p)
    requires TreeStamped(nodes, readGroups, p) && n in readGroups && GroupJob.Reaches(nodes, p, n)
    ensures var s, steps := Run(start, before + [signIn]), before + [signIn];
            CanRead(readGroups[n], GroupsOf(s, user, defaults, groupRoles)) <==>
            LeaseStands(start, steps, user.id, p, signIn.revokeBefore)
  {
    MemberIffGrantCurrent(start, before, signIn, p);
    StampedReadability(Run(start, before + [signIn]), user, defaults, groupRoles, nodes, readGroups, p, n);
  }

  /** The last grant reaches beyond `now`, and there was one since the group was last destroyed. */
  predicate LeaseStands(start: Store, steps: seq<Step>, u: UserId, p: Pid, now: Time) {
    var last := LastGrant(start, steps, u, p);
    last.Some? && now < last.value && GrantedSinceDestroyed(start, steps, u, p)
  }

  /** Safety at every moment of every run: who can read a stamped tree has a row for it. */
  lemma ReadersHaveRows(start: Store, steps: seq<Step>, user: User, defaults: seq<string>,
                        groupRoles: map<string, set<string>>, nodes: map<string, GroupJob.Node>,
                        readGroups: map<string, seq<string>>, p: Pid, n: string)
    requires Initial(start) && OrdinaryPid(defaults, p)
    requires TreeStamped(nodes, readGroups, p) && n in readGroups && GroupJob.Reaches(nodes, p, n)
    requires CanRead(readGroups[n], GroupsOf(Run(start, steps), user, defaults, groupRoles))
    ensures HasRow(Run(start, steps).rows, user.id, p)
  {
    StampedReadability(Run(start, steps), user, defaults, groupRoles, nodes, readGroups, p, n);
    MembershipExact(start, steps, user.id, p);
  }

  // ---------- several works stamped one after the other ----------

  /** The read groups after the job has stamped `q`. */
  ghost function Stamp(nodes: map<string, GroupJob.Node>, readGroups: map<string, seq<string>>, q: Pid): map<string, seq<string>> {
    map n | n in readGroups :: if GroupJob.Reaches(nodes, q, n) then [q] else readGroups[n]
  }

  /** And after performs that stamp these works, in that order. */
  ghost function StampAll(nodes: map<string, GroupJob.Node>, readGroups: map<string, seq<string>>, qs: seq<Pid>): map<string, seq<string>> {
    if qs == [] then readGroups else Stamp(nodes, StampAll(nodes, readGroups, qs[..|qs| - 1]), qs[|qs| - 1])
  }

  /** `Stamp` is what a perform that stamps promises. */
  lemma StampIsPerform(nodes: map<string, GroupJob.Node>, before: map<string, seq<string>>, after: map<string, seq<string>>, q: Pid)
    ensures GroupJob.StampedBelow(nodes, before, after, q, q) <==> after == Stamp(nodes, before, q)
  {
  }

  /** The last work of the list that `n` is or lies below. */
  ghost function LastStamp(nodes: map<string, GroupJob.Node>, qs: seq<Pid>, n: string): Option<Pid> {
    if qs == [] then None
    else if GroupJob.Reaches(nodes, qs[|qs| - 1], n) then Some(qs[|qs| - 1])
    else LastStamp(nodes, qs[..|qs| - 1], n)
  }

  /** A node carries the work that last stamped it, and its old read groups if none did. */
  lemma {:induction false} LastStampStays(nodes: map<string, GroupJob.Node>, readGroups: map<string, seq<string>>,
                                          qs: seq<Pid>, n: string)
    requires n in readGroups
    ensures var after := StampAll(nodes, readGroups, qs);
            && after.Keys == readGroups.Keys
            && after[n] == match LastStamp(nodes, qs, n) case Some(q) => [q] case None => readGroups[n]
  {
    if qs != [] {
      LastStampStays(nodes, readGroups, qs[..|qs| - 1], n);
    }
  }

  lemma {:induction false} LastStampCat(nodes: map<string, GroupJob.Node>, a: seq<Pid>, b: seq<Pid>, n: string)
    ensures LastStamp(nodes, a + b, n) ==
            if LastStamp(nodes, b, n).Some? then LastStamp(nodes, b, n) else LastStamp(nodes, a, n)
  {
    if b == [] {
      assert a + b == a;
    } else {
      assert (a + b)[..|a + b| - 1] == a + b[..|b| - 1];
      LastStampCat(nodes, a, b[..|b| - 1], n);
    }
  }

  lemma {:induction false} LastStampMeans(nodes: map<string, GroupJob.Node>, qs: seq<Pid>, n: string)
    ensures LastStamp(nodes, qs, n).Some? ==>
              LastStamp(nodes, qs, n).value in qs && GroupJob.Reaches(nodes, LastStamp(nodes, qs, n).value, n)
    ensures LastStamp(nodes, qs, n).None? ==> forall q | q in qs :: !GroupJob.Reaches(nodes, q, n)
  {
    if qs != [] {
      LastStampMeans(nodes, qs[..|qs| - 1], n);
      assert qs == qs[..|qs| - 1] + [qs[|qs| - 1]];
    }
  }

  /** No node lies below both works. */
  ghost predicate Apart(nodes: map<string, GroupJob.Node>, readGroups: map<string, seq<string>>, p: Pid, q: Pid) {
    forall n | n in readGroups :: !(GroupJob.Reaches(nodes, p, n) && GroupJob.Reaches(nodes, q, n))
  }

  lemma LastStampAfter(nodes: map<string, GroupJob.Node>, earlier: seq<Pid>, p: Pid, later: seq<Pid>, n: string)
    requires GroupJob.Reaches(nodes, p, n)
    ensures LastStamp(nodes, earlier + [p] + later, n) ==
            if LastStamp(nodes, later, n).Some? then LastStamp(nodes, later, n) else Some(p)
  {
    LastStampCat(nodes, earlier + [p], later, n);
    LastStampCat(nodes, earlier, [p], n);
    assert LastStamp(nodes, [p], n) == Some(p);
  }

  /**
   * When several works are stamped, a tree stays stamped exactly when no work stamped after it shares a
   * node with it: the last stamp overwrites.
   */
  lemma TreeStaysStampedExactly(nodes: map<string, GroupJob.Node>, readGroups: map<string, seq<string>>,
                                earlier: seq<Pid>, p: Pid, later: seq<Pid>)
    requires p !in later
    ensures TreeStamped(nodes, StampAll(nodes, readGroups, earlier + [p] + later), p) <==>
            forall q | q in later :: Apart(nodes, readGroups, p, q)
  {
    hide StampAll, LastStamp;
    var after := StampAll(nodes, readGroups, earlier + [p] + later);
    forall n | n in readGroups && GroupJob.Reaches(nodes, p, n)
      ensures n in after && (after[n] == [p] <==> forall q | q in later :: !GroupJob.Reaches(nodes, q, n))
    {
      LastStampStays(nodes, readGroups, earlier + [p] + later, n);
      LastStampAfter(nodes, earlier, p, later, n);
      LastStampMeans(nodes, later, n);
    }
    forall n | n in after ensures n in readGroups {
      StampKeys(nodes, readGroups, earlier + [p] + later);
    }
    if q :| q in later && !Apart(nodes, readGroups, p, q) {
      var n :| n in readGroups && GroupJob.Reaches(nodes, p, n) && GroupJob.Reaches(nodes, q, n);
      assert after[n] != [p];
    }
  }

  lemma {:induction false} StampKeys(nodes: map<string, GroupJob.Node>, readGroups: map<string, seq<string>>, qs: seq<Pid>)
    ensures StampAll(nodes, readGroups, qs).Keys == readGroups.Keys
  {
    if qs != [] {
      StampKeys(nodes, readGroups, qs[..|qs| - 1]);
    }
  }

  /** A series of performs, each stamping one work; anything else they do leaves the read groups alone. */
  ghost predicate Performs(nodes: map<string, GroupJob.Node>, states: seq<map<string, seq<string>>>, qs: seq<Pid>) {
    && |states| == |qs| + 1
    && forall i | 0 <= i < |qs| :: GroupJob.StampedBelow(nodes, states[i], states[i + 1], qs[i], qs[i])
  }

  /** It ends in what stamping those works one after the other gives. */
  lemma {:induction false} PerformsStamp(nodes: map<string, GroupJob.Node>, states: seq<map<string, seq<string>>>, qs: seq<Pid>,
                                         n: nat)
    requires Performs(nodes, states, qs) && n <= |qs|
    ensures states[n] == StampAll(nodes, states[0], qs[..n])
  {
    if n > 0 {
      PerformsStamp(nodes, states, qs, n - 1);
      assert qs[..n][..n - 1] == qs[..n - 1];
      StampIsPerform(nodes, states[n - 1], states[n], qs[n - 1]);
    }
  }

  lemma LastPerformStays(nodes: map<string, GroupJob.Node>, states: seq<map<string, seq<string>>>, qs: seq<Pid>, n: string)
    requires Performs(nodes, states, qs) && n in states[0] && LastStamp(nodes, qs, n).Some?
    ensures n in states[|qs|] && states[|qs|][n] == [LastStamp(nodes, qs, n).value]
  {
    hide StampAll, LastStamp;
    PerformsStamp(nodes, states, qs, |qs|);
    assert qs[..|qs|] == qs;
    LastStampStays(nodes, states[0], qs, n);
  }

  /**
   * End to end with several works: after any series of performs and right after a completed sign-in with
   * revoke time `t`, a node is readable exactly when the last grant of the work that stamped it last
   * reaches beyond `t`, and came since its group was last destroyed, whichever other works the node also
   * lies below.
   */
  lemma ReadableIffLastStampCurrent(start: Store, before: seq<Step>, signIn: Step, user: User, defaults: seq<string>,
                                    groupRoles: map<string, set<string>>, nodes: map<string, GroupJob.Node>,
                                    states: seq<map<string, seq<string>>>, qs: seq<Pid>, p: Pid, n: string)
    requires signIn.SignInStep? && signIn.user == user.id
    requires Initial(start) && WellTimed(before + [signIn]) && AllResolve(Run(start, before), signIn.pids)
    requires Performs(nodes, states, qs) && n in states[0] && LastStamp(nodes, qs, n) == Some(p)
    requires p in Run(start, before).works && OrdinaryPid(defaults, p)
    ensures n in states[|qs|]
    ensures var s, steps := Run(start, before + [signIn]), before + [signIn];
            CanRead(states[|qs|][n], GroupsOf(s, user, defaults, groupRoles)) <==>
            LeaseStands(start, steps, user.id, p, signIn.revokeBefore)
  {
    LastPerformStays(nodes, states, qs, n);
    MemberIffGrantCurrent(start, before, signIn, p);
    GroupReadability(Run(start, before + [signIn]), user, defaults, groupRoles, p);
    hide CanRead, GroupsOf, LastGrant, GrantedSinceDestroyed, Run, LastStamp, Performs;
  }

  /** A page that two works share goes to the one that is stamped later. */
  lemma SharedPageIsTaken(p: Pid, q: Pid, page: string, readGroups: map<string, seq<string>>)
    requires p != q && p != page && q != page && page in readGroups
    ensures var nodes := map[p := GroupJob.Node(GroupJob.Cdl, [page], 0), q := GroupJob.Node(GroupJob.Cdl, [page], 0),
                             page := GroupJob.Node(GroupJob.ChildWork, [], 0)];
            && TreeStamped(nodes, StampAll(nodes, readGroups, [p]), p)
            && !TreeStamped(nodes, StampAll(nodes, readGroups, [p, q]), p)
  {
    var nodes := map[p := GroupJob.Node(GroupJob.Cdl, [page], 0), q := GroupJob.Node(GroupJob.Cdl, [page], 0),
                     page := GroupJob.Node(GroupJob.ChildWork, [], 0)];
    assert GroupJob.PathBetween(nodes, [p, page], p, page) && GroupJob.PathBetween(nodes, [q, page], q, page);
    TreeStaysStampedExactly(nodes, readGroups, [], p, []);
    TreeStaysStampedExactly(nodes, readGroups, [], p, [q]);
    assert [] + [p] + [] == [p] && [] + [p] + [q] == [p, q];
    assert q in [q] && !Apart(nodes, readGroups, p, q);
  }
}
