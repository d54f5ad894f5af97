/**
 * Runs of the lending protocol: what the rows and the group memberships say about the grants and
 * sign-ins that led to them.
 */
module LeaseHistory {
  import opened Prelude
  import opened WorkAuthorization

  datatype Step =
    | SignInStep(user: UserId, pids: seq<Pid>, until: Time, revokeBefore: Time)
    | CreateGroup(name: string)
    | DestroyGroup(name: string)
    | CreateWork(pid: Pid, title: string)
    | DeleteWork(pid: Pid)

  function Apply(s: Store, step: Step): Store {
    match step
    case SignInStep(u, pids, until, before) => SignIn(s, u, pids, until, before)
    case CreateGroup(name) => WithGroup(s, name)
    case DestroyGroup(name) => WithoutGroup(s, name)
    case CreateWork(pid, title) => WithWork(s, pid, title)
    case DeleteWork(pid) => WithoutWork(s, pid)
  }

  function Run(start: Store, steps: seq<Step>): Store {
    if steps == [] then start else Apply(Run(start, steps[..|steps| - 1]), steps[|steps| - 1])
  }

  /** Nobody has a lease yet; works and empty groups may exist. */
  predicate Initial(s: Store) {
    s.rows == [] && forall g | g in s.groups :: s.groups[g] == {}
  }

  /** Sign-ins grant beyond their own revoke time, and the revoke times of one user never go back. */
  predicate WellTimed(steps: seq<Step>) {
    && (forall i | 0 <= i < |steps| :: steps[i].SignInStep? ==> steps[i].revokeBefore < steps[i].until)
    && (forall i, j | 0 <= i < j < |steps| ::
          steps[i].SignInStep? && steps[j].SignInStep? && steps[i].user == steps[j].user ==>
            steps[i].revokeBefore <= steps[j].revokeBefore)
  }

  // ---------- the history, independent of rows and memberships ----------

  /** The step grants `p` to `u` when it runs in state `s`. */
  predicate Grants(s: Store, step: Step, u: UserId, p: Pid) {
    step.SignInStep? && step.user == u && p in Granted(s, step.pids)
  }

  /** The step runs its revocations for `u`. */
  predicate Sweeps(s: Store, step: Step, u: UserId) {
    step.SignInStep? && step.user == u && AllResolve(s, step.pids)
  }

  /** Until when the most recent successful grant of `p` to `u` reaches. */
  function LastGrant(start: Store, steps: seq<Step>, u: UserId, p: Pid): Option<Time> {
    if steps == [] then None
    else
      var before, step := steps[..|steps| - 1], steps[|steps| - 1];
      if Grants(Run(start, before), step, u, p) then Some(step.until) else LastGrant(start, before, u, p)
  }

  /** The revoke time of the most recent completed sign-in of `u`. */
  function LastSweep(start: Store, steps: seq<Step>, u: UserId): Option<Time> {
    if steps == [] then None
    else
      var before, step := steps[..|steps| - 1], steps[|steps| - 1];
      if Sweeps(Run(start, before), step, u) then Some(step.revokeBefore) else LastSweep(start, before, u)
  }

  /** There was a grant of `p` to `u` since the group `p` was last destroyed. */
  predicate GrantedSinceDestroyed(start: Store, steps: seq<Step>, u: UserId, p: Pid) {
    steps != [] &&
    var before, step := steps[..|steps| - 1], steps[|steps| - 1];
    if Grants(Run(start, before), step, u, p) then true
    else step != DestroyGroup(p) && GrantedSinceDestroyed(start, before, u, p)
  }

  lemma WellTimedPrefix(steps: seq<Step>)
    requires WellTimed(steps) && steps != []
    ensures WellTimed(steps[..|steps| - 1])
  {
  }

  /** A recorded revoke time is one of the run's, so it is not after that of a later sign-in. */
  lemma {:induction false} SweepNotLater(start: Store, steps: seq<Step>, n: nat, u: UserId)
    requires WellTimed(steps) && n < |steps|
    requires steps[|steps| - 1].SignInStep? && steps[|steps| - 1].user == u
    requires LastSweep(start, steps[..n], u).Some?
    ensures LastSweep(start, steps[..n], u).value <= steps[|steps| - 1].revokeBefore
  {
    assert steps[..n][..n - 1] == steps[..n - 1];
    if !Sweeps(Run(start, steps[..n - 1]), steps[n - 1], u) {
      SweepNotLater(start, steps, n - 1, u);
    }
  }

  // ---------- the inductive invariant ----------

  lemma {:induction false} RowsStayUnique(start: Store, steps: seq<Step>)
    requires Initial(start)
    ensures UniqueRows(Run(start, steps).rows)
  {
    if steps != [] {
      var before, step := steps[..|steps| - 1], steps[|steps| - 1];
      RowsStayUnique(start, before);
      if step.SignInStep? {
        SignInEffect(Run(start, before), step.user, step.pids, step.until, step.revokeBefore, step.user, "");
      }
    }
  }

  /** A row carries the last grant's expiry; a grant without a row was over at the last completed sign-in. */
  ghost predicate LeaseInvariant(start: Store, steps: seq<Step>, u: UserId, p: Pid) {
    var lease, last, sweep := Expiry(Run(start, steps).rows, u, p), LastGrant(start, steps, u, p), LastSweep(start, steps, u);
    && (lease.Some? ==> lease == last)
    && (last.Some? && lease.None? ==> sweep.Some? && last.value <= sweep.value)
  }

  lemma {:induction false} LeaseInvariantHolds(start: Store, steps: seq<Step>, u: UserId, p: Pid)
    requires Initial(start) && WellTimed(steps)
    ensures LeaseInvariant(start, steps, u, p)
  {
    if steps != [] {
      var n := |steps| - 1;
      var before, step := steps[..n], steps[n];
      WellTimedPrefix(steps);
      LeaseInvariantHolds(start, before, u, p);
      RowsStayUnique(start, before);
      if step.SignInStep? {
        SignInEffect(Run(start, before), step.user, step.pids, step.until, step.revokeBefore, u, p);
        if step.user == u && LastSweep(start, before, u).Some? {
          SweepNotLater(start, steps, n, u);
        }
      }
    }
  }

  /**
   * Right after a completed sign-in of `u` with revoke time `t`, the rows of `u` for works that exist
   * are exactly the pids whose most recent successful grant to `u` reaches beyond `t`.
   */
  lemma LeaseHistoryExact(start: Store, before: seq<Step>, signIn: Step, p: Pid)
    requires signIn.SignInStep? && Initial(start) && WellTimed(before + [signIn])
    requires AllResolve(Run(start, before), signIn.pids)
    requires p in Run(start, before).works
    ensures var steps, u := before + [signIn], signIn.user;
            var last := LastGrant(start, steps, u, p);
            && (HasRow(Run(start, steps).rows, u, p) <==> last.Some? && signIn.revokeBefore < last.value)
            && (HasRow(Run(start, steps).rows, u, p) ==> Expiry(Run(start, steps).rows, u, p) == last)
  {
    var steps := before + [signIn];
    assert steps[..|steps| - 1] == before;
    LeaseInvariantHolds(start, steps, signIn.user, p);
    RowsStayUnique(start, before);
    SignInEffect(Run(start, before), signIn.user, signIn.pids, signIn.until, signIn.revokeBefore, signIn.user, p);
  }

  // ---------- works and groups ----------

  /** The title that the work was last created with, unless it has been deleted since. */
  function LastTitle(start: Store, steps: seq<Step>, p: Pid): Option<string> {
    if steps == [] then (if p in start.works then Some(start.works[p]) else None)
    else
      var before, step := steps[..|steps| - 1], steps[|steps| - 1];
      if step.CreateWork? && step.pid == p then Some(step.title)
      else if step == DeleteWork(p) then None
      else LastTitle(start, before, p)
  }

  predicate GroupStands(start: Store, steps: seq<Step>, name: string) {
    if steps == [] then name in start.groups
    else
      var before, step := steps[..|steps| - 1], steps[|steps| - 1];
      step == CreateGroup(name) || (step != DestroyGroup(name) && GroupStands(start, before, name))
  }

  /** Which works and groups there are is up to their own steps; sign-ins create and destroy none. */
  lemma {:induction false} WorksAndGroupsExactly(start: Store, steps: seq<Step>, p: Pid)
    requires UniqueRows(start.rows)
    ensures var s := Run(start, steps);
            && (if p in s.works then Some(s.works[p]) else None) == LastTitle(start, steps, p)
            && (p in s.groups <==> GroupStands(start, steps, p))
            && UniqueRows(s.rows)
  {
    if steps != [] {
      var before, step := steps[..|steps| - 1], steps[|steps| - 1];
      WorksAndGroupsExactly(start, before, p);
      if step.SignInStep? {
        SignInEffect(Run(start, before), step.user, step.pids, step.until, step.revokeBefore, step.user, p);
      }
    }
  }

  // ---------- membership ----------

  ghost predicate MembershipInvariant(start: Store, steps: seq<Step>, u: UserId, p: Pid) {
    var s := Run(start, steps);
    Member(s, u, p) <==> HasRow(s.rows, u, p) && GrantedSinceDestroyed(start, steps, u, p)
  }

  /** A user is in a lending group exactly when there is a row, granted since the group was last destroyed. */
  lemma {:induction false} MembershipExact(start: Store, steps: seq<Step>, u: UserId, p: Pid)
    requires Initial(start)
    ensures MembershipInvariant(start, steps, u, p)
  {
    if steps != [] {
      var before, step := steps[..|steps| - 1], steps[|steps| - 1];
      MembershipExact(start, before, u, p);
      RowsStayUnique(start, before);
      if step.SignInStep? {
        SignInEffect(Run(start, before), step.user, step.pids, step.until, step.revokeBefore, u, p);
      }
    }
  }

  predicate NeverDestroyed(steps: seq<Step>, p: Pid) {
    forall i | 0 <= i < |steps| :: steps[i] != DestroyGroup(p)
  }

  /** Rows and membership coincide for a group that was never destroyed. */
  lemma RowsAreMembers(start: Store, steps: seq<Step>, u: UserId, p: Pid)
    requires Initial(start) && NeverDestroyed(steps, p)
    ensures var s := Run(start, steps); Member(s, u, p) <==> HasRow(s.rows, u, p)
  {
    MembershipExact(start, steps, u, p);
    NeverDestroyedGrants(start, steps, u, p);
  }

  lemma {:induction false} NeverDestroyedGrants(start: Store, steps: seq<Step>, u: UserId, p: Pid)
    requires Initial(start) && NeverDestroyed(steps, p)
    ensures HasRow(Run(start, steps).rows, u, p) ==> GrantedSinceDestroyed(start, steps, u, p)
  {
    if steps != [] {
      var before, step := steps[..|steps| - 1], steps[|steps| - 1];
      NeverDestroyedGrants(start, before, u, p);
      RowsStayUnique(start, before);
      if step.SignInStep? {
        SignInEffect(Run(start, before), step.user, step.pids, step.until, step.revokeBefore, u, p);
      }
    }
  }

  /**
   * The whole protocol at once: right after a completed sign-in of `u` with revoke time `t`, `u` is in
   * the group of an existing work exactly when its last grant to `u` reaches beyond `t` and there was one
   * since the group was last destroyed.
   */
  lemma MemberIffGrantCurrent(start: Store, before: seq<Step>, signIn: Step, p: Pid)
    requires signIn.SignInStep? && Initial(start) && WellTimed(before + [signIn])
    requires AllResolve(Run(start, before), signIn.pids)
    requires p in Run(start, before).works
    ensures var steps, u := before + [signIn], signIn.user;
            var last := LastGrant(start, steps, u, p);
            Member(Run(start, steps), u, p) <==>
            last.Some? && signIn.revokeBefore < last.value && GrantedSinceDestroyed(start, steps, u, p)
  {
    LeaseHistoryExact(start, before, signIn, p);
    MembershipExact(start, before + [signIn], signIn.user, p);
  }

  /** For a group that was never destroyed the last condition drops out. */
  lemma MemberOfKeptGroup(start: Store, before: seq<Step>, signIn: Step, p: Pid)
    requires signIn.SignInStep? && Initial(start) && WellTimed(before + [signIn])
    requires AllResolve(Run(start, before), signIn.pids)
    requires p in Run(start, before).works && NeverDestroyed(before, p)
    ensures var steps, u := before + [signIn], signIn.user;
            var last := LastGrant(start, steps, u, p);
            Member(Run(start, steps), u, p) <==> last.Some? && signIn.revokeBefore < last.value
  {
    LeaseHistoryExact(start, before, signIn, p);
    RowsAreMembers(start, before + [signIn], signIn.user, p);
  }

  /** Destroying a group and creating it again leaves its rows behind without a membership. */
  lemma RecreatedGroupLosesMembers(s: Store, u: UserId, p: Pid)
    requires HasRow(s.rows, u, p)
    ensures var after := Apply(Apply(s, DestroyGroup(p)), CreateGroup(p));
            after.rows == s.rows && after.works == s.works && p in after.groups && !Member(after, u, p)
  {
  }

  /**
   * There it does not drop out: a lease that has not run out survives the group's destruction and
   * re-creation and the next completed sign-in as a row, but gives no membership until it is granted anew.
   */
  lemma RecreationPartsRowAndMember(s: Store, signIn: Step, p: Pid)
    requires UniqueRows(s.rows) && signIn.SignInStep? && p !in signIn.pids
    requires Expiry(s.rows, signIn.user, p).Some? && signIn.revokeBefore < Expiry(s.rows, signIn.user, p).value
    ensures var after := Apply(Apply(Apply(s, DestroyGroup(p)), CreateGroup(p)), signIn);
            && Expiry(after.rows, signIn.user, p) == Expiry(s.rows, signIn.user, p)
            && p in after.groups && !Member(after, signIn.user, p)
  {
    var recreated := Apply(Apply(s, DestroyGroup(p)), CreateGroup(p));
    RecreatedGroupLosesMembers(s, signIn.user, p);
    GrantedIsPrefix(recreated, signIn.pids);
    SignInEffect(recreated, signIn.user, signIn.pids, signIn.until, signIn.revokeBefore, signIn.user, p);
  }
}
