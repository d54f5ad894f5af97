/**
 * The lending protocol one database transaction at a time. A sign-in is a series of transactions, and
 * those of other sign-ins and of the group jobs may come in between.
 */
module Interleaving {
  import opened Prelude
  import opened WorkAuthorization
  import LeaseHistory

  /** What one transaction does; lookups that fail make it do nothing. */
  datatype Transaction =
    | Authorize(user: UserId, pid: Pid, until: Time)
    | RevokeOne(user: UserId, pid: Pid)
    | CreateGroup(name: string)
    | DestroyGroup(name: string)
    | CreateWork(pid: Pid, title: string)
    | DeleteWork(pid: Pid)

  function Commit(s: Store, t: Transaction): Store {
    match t
    case Authorize(u, p, until) => if Resolves(s, p) then Grant(s, u, p, until) else s
    case RevokeOne(u, p) => Revoke(s, u, p)
    case CreateGroup(name) => WithGroup(s, name)
    case DestroyGroup(name) => WithoutGroup(s, name)
    case CreateWork(pid, title) => WithWork(s, pid, title)
    case DeleteWork(pid) => WithoutWork(s, pid)
  }

  function CommitAll(s: Store, ts: seq<Transaction>): Store {
    if ts == [] then s else Commit(CommitAll(s, ts[..|ts| - 1]), ts[|ts| - 1])
  }

  // ---------- a sign-in is a run of transactions ----------

  function Authorizations(u: UserId, pids: seq<Pid>, until: Time): seq<Transaction> {
    seq(|pids|, i requires 0 <= i < |pids| => Authorize(u, pids[i], until))
  }

  function Revocations(u: UserId, pids: seq<Pid>): seq<Transaction> {
    seq(|pids|, i requires 0 <= i < |pids| => RevokeOne(u, pids[i]))
  }

  lemma {:induction false} CommitAllCat(s: Store, a: seq<Transaction>, b: seq<Transaction>)
    ensures CommitAll(s, a + b) == CommitAll(CommitAll(s, a), b)
  {
    if b == [] {
      assert a + b == a;
    } else {
      assert (a + b)[..|a + b| - 1] == a + b[..|b| - 1];
      CommitAllCat(s, a, b[..|b| - 1]);
    }
  }

  lemma CommitFirst(s: Store, t: Transaction, rest: seq<Transaction>)
    ensures CommitAll(s, [t] + rest) == CommitAll(Commit(s, t), rest)
  {
    CommitAllCat(s, [t], rest);
    assert [t][..0] == [];
    assert CommitAll(s, [t]) == Commit(CommitAll(s, []), t);
  }

  lemma {:induction false} GrantAllCommits(s: Store, u: UserId, pids: seq<Pid>, until: Time)
    ensures GrantAll(s, u, pids, until) == CommitAll(s, Authorizations(u, Granted(s, pids), until))
    decreases |pids|
  {
    if pids != [] && Resolves(s, pids[0]) {
      var next := Grant(s, u, pids[0], until);
      GrantedSame(s, next, pids[1..]);
      GrantAllCommits(next, u, pids[1..], until);
      var rest := Authorizations(u, Granted(s, pids[1..]), until);
      assert Authorizations(u, Granted(s, pids), until) == [Authorize(u, pids[0], until)] + rest;
      CommitFirst(s, Authorize(u, pids[0], until), rest);
    }
  }

  lemma {:induction false} RevokeAllCommits(s: Store, u: UserId, pids: seq<Pid>)
    ensures RevokeAll(s, u, pids) == CommitAll(s, Revocations(u, pids))
    decreases |pids|
  {
    if pids != [] {
      var rest := Revocations(u, pids[1..]);
      RevokeAllCommits(Revoke(s, u, pids[0]), u, pids[1..]);
      assert Revocations(u, pids) == [RevokeOne(u, pids[0])] + rest;
      CommitFirst(s, RevokeOne(u, pids[0]), rest);
    }
  }

  /** The transactions of a sign-in that nothing interrupts. */
  function Transactions(s: Store, u: UserId, pids: seq<Pid>, until: Time, revokeBefore: Time): seq<Transaction> {
    Authorizations(u, Granted(s, pids), until) +
    if AllResolve(s, pids) then Revocations(u, ExpiredPids(GrantAll(s, u, pids, until).rows, u, revokeBefore)) else []
  }

  /** A sign-in as one step is the run of its transactions. */
  lemma SignInIsItsTransactions(s: Store, u: UserId, pids: seq<Pid>, until: Time, revokeBefore: Time)
    ensures SignIn(s, u, pids, until, revokeBefore) == CommitAll(s, Transactions(s, u, pids, until, revokeBefore))
  {
    var granted := GrantAll(s, u, pids, until);
    var grants := Authorizations(u, Granted(s, pids), until);
    GrantAllCommits(s, u, pids, until);
    if AllResolve(s, pids) {
      var expired := ExpiredPids(granted.rows, u, revokeBefore);
      RevokeAllCommits(granted, u, expired);
      CommitAllCat(s, grants, Revocations(u, expired));
    } else {
      assert grants + [] == grants;
    }
  }

  /** The transactions of one step of the protocol. */
  function StepTransactions(s: Store, step: LeaseHistory.Step): seq<Transaction> {
    match step
    case SignInStep(u, pids, until, before) => Transactions(s, u, pids, until, before)
    case CreateGroup(name) => [CreateGroup(name)]
    case DestroyGroup(name) => [DestroyGroup(name)]
    case CreateWork(pid, title) => [CreateWork(pid, title)]
    case DeleteWork(pid) => [DeleteWork(pid)]
  }

  function RunTransactions(start: Store, steps: seq<LeaseHistory.Step>): seq<Transaction> {
    if steps == [] then []
    else
      var before := steps[..|steps| - 1];
      RunTransactions(start, before) + StepTransactions(LeaseHistory.Run(start, before), steps[|steps| - 1])
  }

  /** Every run of whole steps is a run of their transactions: what holds of all interleavings holds of it. */
  lemma {:induction false} RunIsItsTransactions(start: Store, steps: seq<LeaseHistory.Step>)
    ensures LeaseHistory.Run(start, steps) == CommitAll(start, RunTransactions(start, steps))
  {
    if steps != [] {
      var before, step := steps[..|steps| - 1], steps[|steps| - 1];
      var s := LeaseHistory.Run(start, before);
      RunIsItsTransactions(start, before);
      CommitAllCat(start, RunTransactions(start, before), StepTransactions(s, step));
      StepIsItsTransactions(s, step);
    }
  }

  lemma StepIsItsTransactions(s: Store, step: LeaseHistory.Step)
    ensures LeaseHistory.Apply(s, step) == CommitAll(s, StepTransactions(s, step))
  {
    match step
    case SignInStep(u, pids, until, before) => SignInIsItsTransactions(s, u, pids, until, before);
    case CreateGroup(name) => CommitFirst(s, CreateGroup(name), []);
    case DestroyGroup(name) => CommitFirst(s, DestroyGroup(name), []);
    case CreateWork(pid, title) => CommitFirst(s, CreateWork(pid, title), []);
    case DeleteWork(pid) => CommitFirst(s, DeleteWork(pid), []);
  }

  // ---------- what every interleaving keeps ----------

  /** There was an effective authorization of `u` for `p` since the group `p` was last destroyed. */
  predicate AuthorizedSinceDestroyed(start: Store, ts: seq<Transaction>, u: UserId, p: Pid) {
    ts != [] &&
    var before, t := ts[..|ts| - 1], ts[|ts| - 1];
    if t.Authorize? && t.user == u && t.pid == p && Resolves(CommitAll(start, before), p) then true
    else t != DestroyGroup(p) && AuthorizedSinceDestroyed(start, before, u, p)
  }

  lemma {:induction false} RowsUniqueThroughout(start: Store, ts: seq<Transaction>)
    requires UniqueRows(start.rows)
    ensures UniqueRows(CommitAll(start, ts).rows)
  {
    if ts != [] {
      var before, t := CommitAll(start, ts[..|ts| - 1]), ts[|ts| - 1];
      RowsUniqueThroughout(start, ts[..|ts| - 1]);
      match t
      case Authorize(u, p, until) =>
        if Resolves(before, p) {
          UpsertRow(before.rows, u, p, before.works[p], until, u, p);
        }
      case RevokeOne(u, p) => WithoutKeepsRows(before.rows, u, p);
      case _ =>
    }
  }

  /** The effect of one transaction on the lease of `u` on `p`. */
  lemma CommitEffect(s: Store, t: Transaction, u: UserId, p: Pid)
    ensures var after := Commit(s, t);
            var granted := t.Authorize? && t.user == u && t.pid == p && Resolves(s, p);
            var revoked := t.RevokeOne? && t.user == u && t.pid == p && p in s.works;
            && Expiry(after.rows, u, p) == (if granted then Some(t.until) else if revoked then None else Expiry(s.rows, u, p))
            && (Member(after, u, p) <==> granted || (Member(s, u, p) && !revoked && t != DestroyGroup(p)))
  {
    match t
    case Authorize(v, q, until) =>
      if Resolves(s, q) {
        UpsertRow(s.rows, v, q, s.works[q], until, u, p);
      }
    case RevokeOne(v, q) => WithoutRow(s.rows, v, q, u, p);
    case _ =>
  }

  /** However the transactions interleave, membership means a row, authorized since the group was last destroyed. */
  lemma {:induction false} MembershipThroughout(start: Store, ts: seq<Transaction>, u: UserId, p: Pid)
    requires start.rows == [] && forall g | g in start.groups :: start.groups[g] == {}
    ensures var s := CommitAll(start, ts);
            Member(s, u, p) <==> HasRow(s.rows, u, p) && AuthorizedSinceDestroyed(start, ts, u, p)
    ensures AuthorizedSinceDestroyed(start, ts, u, p) ==> p in CommitAll(start, ts).groups
  {
    if ts != [] {
      MembershipThroughout(start, ts[..|ts| - 1], u, p);
      CommitEffect(CommitAll(start, ts[..|ts| - 1]), ts[|ts| - 1], u, p);
    }
  }

  // ---------- the last transaction that touches a lease ----------

  /** In `s` the transaction writes or destroys the row of `u` for `p`. */
  predicate Touches(s: Store, t: Transaction, u: UserId, p: Pid) {
    || (t.Authorize? && t.user == u && t.pid == p && Resolves(s, p))
    || (t == RevokeOne(u, p) && p in s.works)
  }

  function LastTouch(start: Store, ts: seq<Transaction>, u: UserId, p: Pid): Option<Transaction> {
    if ts == [] then None
    else if Touches(CommitAll(start, ts[..|ts| - 1]), ts[|ts| - 1], u, p) then Some(ts[|ts| - 1])
    else LastTouch(start, ts[..|ts| - 1], u, p)
  }

  /**
   * The lease history of any interleaving: what `u` holds on `p` is what the last transaction that
   * touched it has left, an authorization its expiry and a revocation nothing.
   */
  lemma {:induction false} LeaseIsLastTouch(start: Store, ts: seq<Transaction>, u: UserId, p: Pid)
    ensures Expiry(CommitAll(start, ts).rows, u, p) ==
            match LastTouch(start, ts, u, p)
            case None => Expiry(start.rows, u, p)
            case Some(t) => if t.Authorize? then Some(t.until) else None
  {
    if ts != [] {
      LeaseIsLastTouch(start, ts[..|ts| - 1], u, p);
      CommitEffect(CommitAll(start, ts[..|ts| - 1]), ts[|ts| - 1], u, p);
    }
  }

  // ---------- users do not disturb each other ----------

  predicate Concerns(t: Transaction, u: UserId) {
    (t.Authorize? || t.RevokeOne?) ==> t.user == u
  }

  /** The transactions without the authorizations and revocations of other users. */
  function OnlyFor(ts: seq<Transaction>, u: UserId): seq<Transaction> {
    if ts == [] then []
    else OnlyFor(ts[..|ts| - 1], u) + (if Concerns(ts[|ts| - 1], u) then [ts[|ts| - 1]] else [])
  }

  /** The two stores agree on everything that concerns `u`. */
  ghost predicate SameFor(s: Store, s': Store, u: UserId) {
    && s.works == s'.works && s.groups.Keys == s'.groups.Keys
    && forall p :: Expiry(s.rows, u, p) == Expiry(s'.rows, u, p) && Member(s, u, p) == Member(s', u, p)
  }

  lemma CommitSameFor(s: Store, s': Store, t: Transaction, u: UserId)
    requires SameFor(s, s', u)
    ensures SameFor(Commit(s, t), Commit(s', t), u)
    ensures !Concerns(t, u) ==> SameFor(Commit(s, t), s', u)
  {
    forall p
      ensures Expiry(Commit(s, t).rows, u, p) == Expiry(Commit(s', t).rows, u, p)
      ensures Member(Commit(s, t), u, p) == Member(Commit(s', t), u, p)
      ensures !Concerns(t, u) ==> Expiry(Commit(s, t).rows, u, p) == Expiry(s'.rows, u, p)
      ensures !Concerns(t, u) ==> Member(Commit(s, t), u, p) == Member(s', u, p)
    {
      CommitEffect(s, t, u, p);
      CommitEffect(s', t, u, p);
    }
  }

  /** What a user has at the end does not depend on how the other users' transactions came in between. */
  lemma {:induction false} UsersDoNotInterfere(start: Store, ts: seq<Transaction>, u: UserId)
    ensures SameFor(CommitAll(start, ts), CommitAll(start, OnlyFor(ts, u)), u)
    ensures forall t | t in OnlyFor(ts, u) :: t in ts && (t.Authorize? ==> t.user == u) && (t.RevokeOne? ==> t.user == u)
  {
    if ts != [] {
      var before, t := ts[..|ts| - 1], ts[|ts| - 1];
      UsersDoNotInterfere(start, before, u);
      CommitSameFor(CommitAll(start, before), CommitAll(start, OnlyFor(before, u)), t, u);
      if Concerns(t, u) {
        assert OnlyFor(ts, u)[..|OnlyFor(ts, u)| - 1] == OnlyFor(before, u);
      } else {
        assert OnlyFor(before, u) + [] == OnlyFor(before, u);
      }
    }
  }

  // ---------- two sign-ins of one user do ----------

  /** In turn, what the second sign-in grants stands, whatever the first was asked for. */
  lemma SignInsInTurnKeepLease(s: Store, u: UserId, pids: seq<Pid>, until: Time, revokeBefore: Time,
                               pids': seq<Pid>, until': Time, revokeBefore': Time, p: Pid)
    requires UniqueRows(s.rows) && p in Granted(s, pids') && revokeBefore' < until'
    ensures var inTurn := SignIn(SignIn(s, u, pids, until, revokeBefore), u, pids', until', revokeBefore');
            Expiry(inTurn.rows, u, p) == Some(until') && Member(inTurn, u, p)
  {
    hide SignIn, Expiry, ExpiredPids;
    var first := SignIn(s, u, pids, until, revokeBefore);
    SignInEffect(s, u, pids, until, revokeBefore, u, p);
    GrantedSame(s, first, pids');
    SignInEffect(first, u, pids', until', revokeBefore', u, p);
  }

  // ---------- sign-ins of one user, interleaved in any way ----------

  /**
   * A sign-in as it takes part in a run of transactions: what it was asked for, and how many
   * transactions the database has committed when it lists the expired pids.
   */
  datatype Session = Session(pids: seq<Pid>, until: Time, revokeBefore: Time, listedAt: nat)

  /** The transactions of a run from `i` to `j` that are of the session `who`. */
  function Own(ts: seq<Transaction>, whose: seq<nat>, who: nat, i: nat, j: nat): seq<Transaction>
    requires j <= |ts| == |whose|
  {
    if i >= j then [] else Own(ts, whose, who, i, j - 1) + (if whose[j - 1] == who then [ts[j - 1]] else [])
  }

  /** The pids that the session revokes: none when one of its own pids is unknown, as it aborts then. */
  function Listed(s: Store, ts: seq<Transaction>, u: UserId, x: Session): seq<Pid>
    requires x.listedAt <= |ts|
  {
    if AllResolve(s, x.pids) then ExpiredPids(CommitAll(s, ts[..x.listedAt]).rows, u, x.revokeBefore) else []
  }

  /** The session's own transactions are its authorizations and, once it has listed the expired pids, their revocations. */
  predicate TakesPart(s: Store, ts: seq<Transaction>, whose: seq<nat>, who: nat, u: UserId, x: Session) {
    && |whose| == |ts| && x.listedAt <= |ts|
    && Own(ts, whose, who, 0, x.listedAt) == Authorizations(u, Granted(s, x.pids), x.until)
    && Own(ts, whose, who, x.listedAt, |ts|) == Revocations(u, Listed(s, ts, u, x))
  }

  lemma {:induction false} OwnHas(ts: seq<Transaction>, whose: seq<nat>, who: nat, i: nat, j: nat, t: Transaction)
    requires i <= j <= |ts| == |whose|
    ensures t in Own(ts, whose, who, i, j) <==> exists k :: i <= k < j && whose[k] == who && ts[k] == t
  {
    if i < j {
      OwnHas(ts, whose, who, i, j - 1, t);
    }
  }

  /** The authorizations of a session come before it lists, its revocations after. */
  lemma SessionSteps(s: Store, ts: seq<Transaction>, whose: seq<nat>, who: nat, u: UserId, x: Session, k: nat)
    requires TakesPart(s, ts, whose, who, u, x) && k < |ts| && whose[k] == who
    ensures k < x.listedAt ==> ts[k].Authorize? && ts[k].user == u && ts[k].until == x.until && ts[k].pid in Granted(s, x.pids)
    ensures k >= x.listedAt ==> ts[k].RevokeOne? && ts[k].user == u && ts[k].pid in Listed(s, ts, u, x)
  {
    if k < x.listedAt {
      OwnHas(ts, whose, who, 0, x.listedAt, ts[k]);
    } else {
      OwnHas(ts, whose, who, x.listedAt, |ts|, ts[k]);
    }
  }

  /** Each of them does come. */
  lemma SessionHas(s: Store, ts: seq<Transaction>, whose: seq<nat>, who: nat, u: UserId, x: Session, p: Pid)
    requires TakesPart(s, ts, whose, who, u, x)
    ensures p in Granted(s, x.pids) ==> exists k :: 0 <= k < x.listedAt && whose[k] == who && ts[k] == Authorize(u, p, x.until)
    ensures p in Listed(s, ts, u, x) ==> exists k :: x.listedAt <= k < |ts| && whose[k] == who && ts[k] == RevokeOne(u, p)
  {
    var granted, listed := Granted(s, x.pids), Listed(s, ts, u, x);
    if i :| 0 <= i < |granted| && granted[i] == p {
      assert Authorizations(u, granted, x.until)[i] == Authorize(u, p, x.until);
      OwnHas(ts, whose, who, 0, x.listedAt, Authorize(u, p, x.until));
    }
    if i :| 0 <= i < |listed| && listed[i] == p {
      assert Revocations(u, listed)[i] == RevokeOne(u, p);
      OwnHas(ts, whose, who, x.listedAt, |ts|, RevokeOne(u, p));
    }
  }

  /**
   * The run consists of the sessions of `u`, however their transactions are merged, and of authorizations
   * and revocations of other users, which have a number beyond the sessions.
   */
  predicate Merged(s: Store, ts: seq<Transaction>, whose: seq<nat>, u: UserId, xs: seq<Session>) {
    && |whose| == |ts|
    && (forall i | 0 <= i < |xs| :: xs[i].listedAt <= |ts| && TakesPart(s, ts, whose, i, u, xs[i]))
    && (forall k | 0 <= k < |ts| && whose[k] >= |xs| :: OfAnotherUser(ts[k], u))
  }

  predicate OfAnotherUser(t: Transaction, u: UserId) {
    (t.Authorize? || t.RevokeOne?) && !Concerns(t, u)
  }

  predicate Grants(t: Transaction, u: UserId, p: Pid) {
    t.Authorize? && t.user == u && t.pid == p
  }

  /** Which of the first `n` transactions was the last to authorize or revoke `p` for `u`; `n` if none was. */
  function LastIndex(ts: seq<Transaction>, n: nat, u: UserId, p: Pid): (k: nat)
    requires n <= |ts|
    ensures k <= n
    ensures k < n ==> (Grants(ts[k], u, p) || ts[k] == RevokeOne(u, p))
                      && forall j | k < j < n :: !Grants(ts[j], u, p) && ts[j] != RevokeOne(u, p)
    ensures k == n ==> forall j | 0 <= j < n :: !Grants(ts[j], u, p) && ts[j] != RevokeOne(u, p)
  {
    if n == 0 then 0
    else if Grants(ts[n - 1], u, p) || ts[n - 1] == RevokeOne(u, p) then n - 1
    else
      var k := LastIndex(ts, n - 1, u, p);
      if k == n - 1 then n else k
  }

  predicate OnlyLeases(ts: seq<Transaction>) {
    forall k | 0 <= k < |ts| :: ts[k].Authorize? || ts[k].RevokeOne?
  }

  lemma CommitNext(s: Store, ts: seq<Transaction>, n: nat)
    requires 0 < n <= |ts|
    ensures CommitAll(s, ts[..n]) == Commit(CommitAll(s, ts[..n - 1]), ts[n - 1])
  {
    assert ts[..n][..n - 1] == ts[..n - 1];
  }

  lemma {:induction false} WorksAndGroupsStay(s: Store, ts: seq<Transaction>, n: nat)
    requires OnlyLeases(ts) && n <= |ts|
    ensures CommitAll(s, ts[..n]).works == s.works && CommitAll(s, ts[..n]).groups.Keys == s.groups.Keys
  {
    if n > 0 {
      WorksAndGroupsStay(s, ts, n - 1);
      CommitNext(s, ts, n);
    }
  }

  /** While no group or work comes or goes, the last transaction on `p` decides about lease and membership. */
  lemma {:induction false} LeaseAfter(s: Store, ts: seq<Transaction>, n: nat, u: UserId, p: Pid)
    requires OnlyLeases(ts) && n <= |ts| && Resolves(s, p)
    ensures var k, after := LastIndex(ts, n, u, p), CommitAll(s, ts[..n]);
            && Expiry(after.rows, u, p) ==
               (if k == n then Expiry(s.rows, u, p) else if ts[k].Authorize? then Some(ts[k].until) else None)
            && (Member(after, u, p) <==> if k == n then Member(s, u, p) else ts[k].Authorize?)
  {
    hide Commit, Expiry, Member;
    if n == 0 {
      assert ts[..0] == [];
    } else {
      hide CommitAll;
      LeaseAfter(s, ts, n - 1, u, p);
      WorksAndGroupsStay(s, ts, n - 1);
      CommitNext(s, ts, n);
      CommitEffect(CommitAll(s, ts[..n - 1]), ts[n - 1], u, p);
    }
  }

  /** All revoke times lie before the leases on `p` that the sessions grant. */
  predicate InTime(xs: seq<Session>, p: Pid) {
    forall i, j | 0 <= i < |xs| && 0 <= j < |xs| && p in xs[i].pids :: xs[j].revokeBefore < xs[i].until
  }

  /** The `k`-th transaction authorizes `p` on behalf of one of the sessions. */
  predicate GrantOf(ts: seq<Transaction>, whose: seq<nat>, xs: seq<Session>, k: nat, p: Pid) {
    k < |ts| == |whose| && whose[k] < |xs| && ts[k].Authorize?
    && p in xs[whose[k]].pids && ts[k].until == xs[whose[k]].until && k < xs[whose[k]].listedAt
  }

  /** It is a revocation of `p` by a session that had listed it. */
  predicate RevocationOf(s: Store, ts: seq<Transaction>, whose: seq<nat>, u: UserId, xs: seq<Session>, k: nat, p: Pid) {
    k < |ts| == |whose| && whose[k] < |xs| && xs[whose[k]].listedAt <= k && p in Listed(s, ts, u, xs[whose[k]])
  }

  lemma MergedSteps(s: Store, ts: seq<Transaction>, whose: seq<nat>, u: UserId, xs: seq<Session>, p: Pid)
    requires Merged(s, ts, whose, u, xs)
    ensures OnlyLeases(ts)
    ensures forall k: nat | k < |ts| && Grants(ts[k], u, p) :: GrantOf(ts, whose, xs, k, p)
    ensures forall k: nat | k < |ts| && ts[k] == RevokeOne(u, p) :: RevocationOf(s, ts, whose, u, xs, k, p)
  {
    hide Listed, TakesPart;
    forall k: nat | k < |ts|
      ensures ts[k].Authorize? || ts[k].RevokeOne?
      ensures Grants(ts[k], u, p) ==> GrantOf(ts, whose, xs, k, p)
      ensures ts[k] == RevokeOne(u, p) ==> RevocationOf(s, ts, whose, u, xs, k, p)
    {
      if whose[k] < |xs| {
        GrantedIsPrefix(s, xs[whose[k]].pids);
        SessionSteps(s, ts, whose, whose[k], u, xs[whose[k]], k);
      } else {
        assert OfAnotherUser(ts[k], u);
      }
    }
  }

  lemma ListedMeans(s: Store, ts: seq<Transaction>, u: UserId, x: Session, p: Pid)
    requires UniqueRows(s.rows) && x.listedAt <= |ts|
    ensures p in Listed(s, ts, u, x) <==>
            AllResolve(s, x.pids) &&
            var lease := Expiry(CommitAll(s, ts[..x.listedAt]).rows, u, p); lease.Some? && lease.value <= x.revokeBefore
  {
    RowsUniqueThroughout(s, ts[..x.listedAt]);
    ExpiredMeans(CommitAll(s, ts[..x.listedAt]).rows, u, x.revokeBefore, p);
  }

  /** The session gets to list, the lease had run out, and nobody has authorized or revoked `p` before that moment. */
  predicate ListsStale(s: Store, ts: seq<Transaction>, u: UserId, x: Session, p: Pid)
    requires x.listedAt <= |ts|
  {
    && AllResolve(s, x.pids) && Expiry(s.rows, u, p).Some? && Expiry(s.rows, u, p).value <= x.revokeBefore
    && forall k | 0 <= k < x.listedAt :: !Grants(ts[k], u, p) && ts[k] != RevokeOne(u, p)
  }

  /** That is exactly when it lists `p`. */
  lemma ListedExactly(s: Store, ts: seq<Transaction>, whose: seq<nat>, u: UserId, xs: seq<Session>, p: Pid, x: Session)
    requires UniqueRows(s.rows) && Merged(s, ts, whose, u, xs) && InTime(xs, p) && Resolves(s, p) && x in xs
    ensures x.listedAt <= |ts|
    ensures p in Listed(s, ts, u, x) <==> ListsStale(s, ts, u, x, p)
  {
    hide Listed, TakesPart, CommitAll;
    MergedSteps(s, ts, whose, u, xs, p);
    ListedMeans(s, ts, u, x, p);
    LeaseAfter(s, ts, x.listedAt, u, p);
    var k := LastIndex(ts, x.listedAt, u, p);
    assert k < x.listedAt && ts[k].Authorize? ==> GrantOf(ts, whose, xs, k, p);
  }

  /** The revocation commits after every authorization of `p`. */
  predicate RevokesLast(ts: seq<Transaction>, k: nat, u: UserId, p: Pid) {
    k < |ts| && ts[k] == RevokeOne(u, p) && forall j | 0 <= j < |ts| && Grants(ts[j], u, p) :: j < k
  }

  predicate StaleRevokesLast(s: Store, ts: seq<Transaction>, whose: seq<nat>, u: UserId, xs: seq<Session>, k: nat, p: Pid) {
    && RevokesLast(ts, k, u, p) && k < |whose| && whose[k] < |xs|
    && xs[whose[k]].listedAt <= |ts| && ListsStale(s, ts, u, xs[whose[k]], p)
  }

  /**
   * The exact condition, for any number of sign-ins of `u` whose transactions are merged in any way, at
   * least one of which authorizes `p`: the lease is lost if and only if a session that had listed `p` as
   * run out, before anyone touched it, revokes it after it was last authorized. Otherwise one of the
   * leases granted stands, with the membership.
   */
  lemma LeaseLostExactly(s: Store, ts: seq<Transaction>, whose: seq<nat>, u: UserId, xs: seq<Session>, p: Pid, g: nat)
    requires UniqueRows(s.rows) && Merged(s, ts, whose, u, xs) && InTime(xs, p)
    requires g < |xs| && p in Granted(s, xs[g].pids)
    ensures var lease := Expiry(CommitAll(s, ts).rows, u, p);
            && (lease == None <==> exists k: nat :: StaleRevokesLast(s, ts, whose, u, xs, k, p))
            && (lease.Some? ==> exists x :: x in xs && p in x.pids && lease.value == x.until)
            && (Member(CommitAll(s, ts), u, p) <==> lease.Some?)
  {
    hide Listed, TakesPart, CommitAll, ListsStale;
    GrantedIsPrefix(s, xs[g].pids);
    MergedSteps(s, ts, whose, u, xs, p);
    SessionHas(s, ts, whose, g, u, xs[g], p);
    LeaseAfter(s, ts, |ts|, u, p);
    assert ts[..|ts|] == ts;
    var own :| 0 <= own < xs[g].listedAt && ts[own] == Authorize(u, p, xs[g].until);
    assert Grants(ts[own], u, p);
    var k := LastIndex(ts, |ts|, u, p);
    if ts[k].Authorize? {
      assert GrantOf(ts, whose, xs, k, p);
    } else {
      assert RevocationOf(s, ts, whose, u, xs, k, p);
      ListedExactly(s, ts, whose, u, xs, p, xs[whose[k]]);
      assert StaleRevokesLast(s, ts, whose, u, xs, k, p);
    }
  }

  /**
   * With two sign-ins, of which the second authorizes `p`, only the first can take the lease: it does if
   * and only if it had listed `p` as run out before `p` was authorized, and revokes it after it was.
   */
  lemma FreshLeaseLostExactly(s: Store, ts: seq<Transaction>, whose: seq<nat>, u: UserId,
                              first: Session, second: Session, p: Pid)
    requires UniqueRows(s.rows) && Merged(s, ts, whose, u, [first, second]) && InTime([first, second], p)
    requires p in Granted(s, second.pids)
    ensures first.listedAt <= |ts| && second.listedAt <= |ts| && p !in Listed(s, ts, u, second)
    ensures var lease := Expiry(CommitAll(s, ts).rows, u, p);
            && (lease == None <==> p in Listed(s, ts, u, first) && exists k: nat :: RevokesLast(ts, k, u, p))
            && (lease.Some? ==> lease.value == second.until || (p in first.pids && lease.value == first.until))
            && (Member(CommitAll(s, ts), u, p) <==> lease.Some?)
  {
    hide Listed, TakesPart, CommitAll;
    var xs := [first, second];
    assert xs[0] == first && xs[1] == second;
    GrantedIsPrefix(s, second.pids);
    LeaseLostExactly(s, ts, whose, u, xs, p, 1);
    ListedExactly(s, ts, whose, u, xs, p, first);
    ListedExactly(s, ts, whose, u, xs, p, second);
    SessionHas(s, ts, whose, 1, u, second, p);
    MergedSteps(s, ts, whose, u, xs, p);
    var own :| 0 <= own < second.listedAt && ts[own] == Authorize(u, p, second.until);
    assert Grants(ts[own], u, p);
    if k: nat :| RevokesLast(ts, k, u, p) {
      assert RevocationOf(s, ts, whose, u, xs, k, p);
      assert whose[k] == 0;
      assert p in Listed(s, ts, u, first) ==> StaleRevokesLast(s, ts, whose, u, xs, k, p);
    }
  }

  /**
   * Such a merge exists: the first session lists the one lease of `u`, which has run out; the second
   * authorizes that work afresh, and the first then revokes it.
   */
  lemma LosingMerge(s: Store, u: UserId, p: Pid, stale: Row, until: Time, now: Time)
    requires s.rows == [stale] && IsFor(stale, u, p) && Resolves(s, p) && stale.expiresAt <= now < until
    ensures var ts := [Authorize(u, p, until), RevokeOne(u, p)];
            var first, second := Session([], until, now, 0), Session([p], until, now, 1);
            && Merged(s, ts, [1, 0], u, [first, second]) && InTime([first, second], p)
            && p in Granted(s, second.pids) && Expiry(CommitAll(s, ts).rows, u, p) == None
  {
    var ts: seq<Transaction>, whose: seq<nat> := [Authorize(u, p, until), RevokeOne(u, p)], [1, 0];
    var first, second := Session([], until, now, 0), Session([p], until, now, 1);
    assert ts[..0] == [] && ts[..1] == [ts[0]];
    StaleIsListed(s.rows, stale, now);
    GrantReplaces(s, u, p, stale, until, now);
    assert CommitAll(s, ts[..1]) == Commit(CommitAll(s, ts[..1][..0]), ts[0]);
    assert Granted(s, second.pids) == [p] + Granted(s, []) == [p];
    MergedAsWritten(ts, whose);
    hide CommitAll, Commit, ExpiredPids, Own, Expiry;
    assert TakesPart(s, ts, whose, 0, u, first);
    assert TakesPart(s, ts, whose, 1, u, second);
    FreshLeaseLostExactly(s, ts, whose, u, first, second, p);
    assert RevokesLast(ts, 1, u, p);
  }

  lemma StaleIsListed(rows: seq<Row>, stale: Row, now: Time)
    requires rows == [stale]
    ensures ExpiredPids(rows, stale.user, now) == if stale.expiresAt <= now then [stale.pid] else []
    ensures UniqueRows(rows)
  {
    assert rows[1..] == [];
  }

  lemma GrantReplaces(s: Store, u: UserId, p: Pid, stale: Row, until: Time, now: Time)
    requires s.rows == [stale] && IsFor(stale, u, p) && Resolves(s, p) && now < until
    ensures Grant(s, u, p, until).rows == [Row(u, p, s.works[p], until)]
    ensures ExpiredPids(Grant(s, u, p, until).rows, u, now) == []
  {
    StaleIsListed(Grant(s, u, p, until).rows, Row(u, p, s.works[p], until), now);
  }

  lemma MergedAsWritten(ts: seq<Transaction>, whose: seq<nat>)
    requires |ts| == 2 && whose == [1, 0]
    ensures Own(ts, whose, 0, 0, 0) == [] && Own(ts, whose, 0, 0, 2) == [ts[1]]
    ensures Own(ts, whose, 1, 0, 1) == [ts[0]] && Own(ts, whose, 1, 1, 2) == []
  {
    assert Own(ts, whose, 0, 0, 1) == [] && Own(ts, whose, 1, 1, 1) == [];
    assert Own(ts, whose, 1, 0, 0) == [];
  }
}
