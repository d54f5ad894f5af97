/**
 * Leases on controlled-digital-lending works: the authorization rows, the lending groups that carry
 * a work's pid as their name, and the works that exist. `Store` and the functions on it say what
 * each operation does; the class `Authorizations` performs them step by step.
 */
module WorkAuthorization {
  import opened Prelude
  import opened ScopeParser

  type UserId = int
  type Pid = string
  type Time = int

  datatype Row = Row(user: UserId, pid: Pid, title: string, expiresAt: Time)

  datatype Store = Store(rows: seq<Row>, groups: map<string, set<UserId>>, works: map<Pid, string>)

  /** What a sign-in or one authorization ends in: the error classes cannot be built for the nil they report. */
  datatype Outcome = Completed | RaisedNoMethodError

  // ---------- the rows as a table ----------

  predicate IsFor(r: Row, u: UserId, p: Pid) {
    r.user == u && r.pid == p
  }

  /** The index of the first row for `(u, p)`, or the number of rows. */
  function FindRow(rows: seq<Row>, u: UserId, p: Pid): (i: nat)
    ensures i <= |rows|
    ensures i < |rows| ==> IsFor(rows[i], u, p)
    ensures forall j | 0 <= j < i :: !IsFor(rows[j], u, p)
  {
    if rows == [] || IsFor(rows[0], u, p) then 0 else 1 + FindRow(rows[1..], u, p)
  }

  function RowFor(rows: seq<Row>, u: UserId, p: Pid): Option<Row> {
    var i := FindRow(rows, u, p);
    if i < |rows| then Some(rows[i]) else None
  }

  /** When the lease of `u` on `p` runs out, if there is a row for it. */
  function Expiry(rows: seq<Row>, u: UserId, p: Pid): Option<Time> {
    var row := RowFor(rows, u, p);
    if row.Some? then Some(row.value.expiresAt) else None
  }

  predicate HasRow(rows: seq<Row>, u: UserId, p: Pid) {
    FindRow(rows, u, p) < |rows|
  }

  ghost predicate UniqueRows(rows: seq<Row>) {
    forall i, j | 0 <= i < j < |rows| :: !IsFor(rows[j], rows[i].user, rows[i].pid)
  }

  function Upsert(rows: seq<Row>, u: UserId, p: Pid, title: string, until: Time): seq<Row> {
    var i := FindRow(rows, u, p);
    if i < |rows| then rows[i := Row(u, p, title, until)] else rows + [Row(u, p, title, until)]
  }

  function Without(rows: seq<Row>, u: UserId, p: Pid): seq<Row> {
    if rows == [] then []
    else (if IsFor(rows[0], u, p) then [] else [rows[0]]) + Without(rows[1..], u, p)
  }

  function ExpiredPids(rows: seq<Row>, u: UserId, before: Time): seq<Pid> {
    if rows == [] then []
    else (if rows[0].user == u && rows[0].expiresAt <= before then [rows[0].pid] else [])
         + ExpiredPids(rows[1..], u, before)
  }

  // ---------- the operations ----------

  /** Both lookups of the sign-in loop succeed: the work exists and so does its group. */
  predicate Resolves(s: Store, p: Pid) {
    p in s.works && p in s.groups
  }

  predicate Member(s: Store, u: UserId, p: Pid) {
    p in s.groups && u in s.groups[p]
  }

  function GrantIn(s: Store, u: UserId, p: Pid, group: string, until: Time): Store
    requires p in s.works && group in s.groups
  {
    s.(rows := Upsert(s.rows, u, p, s.works[p], until), groups := s.groups[group := s.groups[group] + {u}])
  }

  /** Sign-in looks the group up by the pid of the work. */
  function Grant(s: Store, u: UserId, p: Pid, until: Time): Store
    requires Resolves(s, p)
  {
    GrantIn(s, u, p, p, until)
  }

  function Revoke(s: Store, u: UserId, p: Pid): Store {
    if p !in s.works then s
    else s.(rows := Without(s.rows, u, p),
            groups := if p in s.groups then s.groups[p := s.groups[p] - {u}] else s.groups)
  }

  /** The pids granted before the loop meets one that does not resolve. */
  function Granted(s: Store, pids: seq<Pid>): seq<Pid> {
    if pids == [] || !Resolves(s, pids[0]) then [] else [pids[0]] + Granted(s, pids[1..])
  }

  function GrantAll(s: Store, u: UserId, pids: seq<Pid>, until: Time): Store
    decreases |pids|
  {
    if pids == [] || !Resolves(s, pids[0]) then s
    else GrantAll(Grant(s, u, pids[0], until), u, pids[1..], until)
  }

  function RevokeAll(s: Store, u: UserId, pids: seq<Pid>): Store
    decreases |pids|
  {
    if pids == [] then s else RevokeAll(Revoke(s, u, pids[0]), u, pids[1..])
  }

  predicate AllResolve(s: Store, pids: seq<Pid>) {
    forall i | 0 <= i < |pids| :: Resolves(s, pids[i])
  }

  function SignIn(s: Store, u: UserId, pids: seq<Pid>, until: Time, revokeBefore: Time): Store {
    var granted := GrantAll(s, u, pids, until);
    if AllResolve(s, pids) then RevokeAll(granted, u, ExpiredPids(granted.rows, u, revokeBefore)) else granted
  }

  /** `find_or_create_by!` on a group: it starts out empty. */
  function WithGroup(s: Store, name: string): Store {
    if name in s.groups then s else s.(groups := s.groups[name := {}])
  }

  /** Destroying a group removes its memberships. */
  function WithoutGroup(s: Store, name: string): Store {
    s.(groups := s.groups - {name})
  }

  function WithWork(s: Store, p: Pid, title: string): Store {
    s.(works := s.works[p := title])
  }

  function WithoutWork(s: Store, p: Pid): Store {
    s.(works := s.works - {p})
  }

  /** The `work_pid` argument: absent, one pid, or a list of them. */
  datatype PidArgument = NoPid | OnePid(pid: Pid) | ManyPids(pids: seq<Pid>)

  function WrapPids(arg: PidArgument): seq<Pid> {
    match arg
    case NoPid => []
    case OnePid(pid) => [pid]
    case ManyPids(pids) => pids
  }

  /** The pids that a sign-in asks for: those of the argument, then those of the scope. */
  function Requested(workPid: PidArgument, scope: Option<string>): seq<Pid> {
    WrapPids(workPid) + ExtractPids(scope)
  }

  /** A whole sign-in: the store it leaves, and how it ends. */
  function HandledSignin(s: Store, u: UserId, until: Time, workPid: PidArgument, scope: Option<string>, revokeBefore: Time)
    : (Store, Outcome)
  {
    var pids := Requested(workPid, scope);
    (SignIn(s, u, pids, until, revokeBefore), if AllResolve(s, pids) then Completed else RaisedNoMethodError)
  }

  // ---------- the operations, step by step ----------

  class Authorizations {
    var rows: seq<Row>
    var groups: map<string, set<UserId>>
    var works: map<Pid, string>

    function Current(): Store
      reads this
    {
      Store(rows, groups, works)
    }

    method Authorize(user: UserId, work: Option<Pid>, group: Option<string>, expiresAt: Time) returns (outcome: Outcome)
      requires work.Some? ==> work.value in works
      requires group.Some? ==> group.value in groups
      modifies this
      ensures work.Some? && group.Some? ==>
                outcome == Completed && Current() == GrantIn(old(Current()), user, work.value, group.value, expiresAt)
      ensures work.None? || group.None? ==> outcome == RaisedNoMethodError && Current() == old(Current())
    {
      if work.None? {
        return RaisedNoMethodError;
      }
      if group.None? {
        return RaisedNoMethodError;
      }
      var pid := work.value;
      var i := FindRow(rows, user, pid);
      if i < |rows| {
        rows := rows[i := rows[i].(title := works[pid], expiresAt := expiresAt)];
      } else {
        rows := rows + [Row(user, pid, works[pid], expiresAt)];
      }
      groups := groups[group.value := groups[group.value] + {user}];
      return Completed;
    }

    method RevokeWork(user: UserId, work: Option<Pid>)
      requires work.Some? ==> work.value in works
      modifies this
      ensures Current() == if work.Some? then Revoke(old(Current()), user, work.value) else old(Current())
    {
      if work.None? {
        return;
      }
      rows := Without(rows, user, work.value);
      if work.value !in groups {
        return;
      }
      groups := groups[work.value := groups[work.value] - {user}];
    }

    method HandleSignin(user: UserId, authorizeUntil: Time, workPid: PidArgument, scope: Option<string>,
                        revokeExpirationsBefore: Time) returns (outcome: Outcome)
      modifies this
      ensures (Current(), outcome)
           == HandledSignin(old(Current()), user, authorizeUntil, workPid, scope, revokeExpirationsBefore)
    {
      hide WrapPids, ExtractPids, Requested, FindRow, Upsert, Without, ExpiredPids;
      var pids := Requested(workPid, scope);
      ghost var start := Current();
      var i := 0;
      while i < |pids|
        invariant 0 <= i <= |pids|
        invariant GrantAll(start, user, pids, authorizeUntil)
               == GrantAll(Current(), user, pids[i..], authorizeUntil)
        invariant forall p :: Resolves(Current(), p) == Resolves(start, p)
        invariant forall j | 0 <= j < i :: Resolves(start, pids[j])
      {
        var pid := pids[i];
        var work := if pid in works then Some(pid) else None;
        var group := if pid in groups then Some(pid) else None;
        var result := Authorize(user, work, group, authorizeUntil);
        if result == RaisedNoMethodError {
          return result;
        }
        i := i + 1;
      }
      var expired := ExpiredPids(rows, user, revokeExpirationsBefore);
      ghost var granted := Current();
      i := 0;
      while i < |expired|
        invariant 0 <= i <= |expired|
        invariant RevokeAll(granted, user, expired) == RevokeAll(Current(), user, expired[i..])
      {
        var work := if expired[i] in works then Some(expired[i]) else None;
        RevokeWork(user, work);
        i := i + 1;
      }
      return Completed;
    }
  }

  // ---------- what the operations do, row by row ----------

  lemma RowForCons(r: Row, rest: seq<Row>, v: UserId, q: Pid)
    ensures RowFor([r] + rest, v, q) == if IsFor(r, v, q) then Some(r) else RowFor(rest, v, q)
  {
    assert ([r] + rest)[1..] == rest;
  }

  lemma {:induction false} WithoutRow(rows: seq<Row>, u: UserId, p: Pid, v: UserId, q: Pid)
    ensures RowFor(Without(rows, u, p), v, q) == if u == v && p == q then None else RowFor(rows, v, q)
  {
    if rows != [] {
      hide RowFor;
      var rest := Without(rows[1..], u, p);
      WithoutRow(rows[1..], u, p, v, q);
      assert rows == [rows[0]] + rows[1..];
      RowForCons(rows[0], rows[1..], v, q);
      RowForCons(rows[0], rest, v, q);
      assert [] + rest == rest;
    }
  }

  lemma {:induction false} WithoutKeepsRows(rows: seq<Row>, u: UserId, p: Pid)
    ensures forall r :: r in Without(rows, u, p) <==> r in rows && !IsFor(r, u, p)
    ensures UniqueRows(rows) ==> UniqueRows(Without(rows, u, p))
  {
    if rows != [] {
      WithoutKeepsRows(rows[1..], u, p);
      assert rows == [rows[0]] + rows[1..];
      if UniqueRows(rows) {
        var rest := Without(rows[1..], u, p);
        forall j | 0 <= j < |rest| ensures !IsFor(rest[j], rows[0].user, rows[0].pid) {
          assert rest[j] in rows[1..];
        }
      }
    }
  }

  lemma UpsertRow(rows: seq<Row>, u: UserId, p: Pid, title: string, until: Time, v: UserId, q: Pid)
    ensures RowFor(Upsert(rows, u, p, title, until), v, q) ==
            if u == v && p == q then Some(Row(u, p, title, until)) else RowFor(rows, v, q)
    ensures UniqueRows(rows) ==> UniqueRows(Upsert(rows, u, p, title, until))
  {
    var i, after := FindRow(rows, u, p), Upsert(rows, u, p, title, until);
    FindRowUnique(after, v, q, if u == v && p == q then i else
                               if FindRow(rows, v, q) < |rows| then FindRow(rows, v, q) else |after|);
  }

  lemma FindRowUnique(rows: seq<Row>, u: UserId, p: Pid, i: nat)
    requires i <= |rows| && (i < |rows| ==> IsFor(rows[i], u, p))
    requires forall j | 0 <= j < i :: !IsFor(rows[j], u, p)
    ensures FindRow(rows, u, p) == i
  {
  }

  /** The one row of `(u, p)` decides whether `p` is among the expired pids of `u`. */
  lemma {:induction false} ExpiredMeans(rows: seq<Row>, u: UserId, before: Time, p: Pid)
    requires UniqueRows(rows)
    ensures p in ExpiredPids(rows, u, before) <==>
            Expiry(rows, u, p).Some? && Expiry(rows, u, p).value <= before
  {
    if rows != [] {
      ExpiredMeans(rows[1..], u, before, p);
      if IsFor(rows[0], u, p) {
        FindRowUnique(rows[1..], u, p, |rows[1..]|);
      }
    }
  }

  lemma {:induction false} GrantAllEffect(s: Store, u: UserId, pids: seq<Pid>, until: Time, v: UserId, q: Pid)
    ensures var after, hit := GrantAll(s, u, pids, until), v == u && q in Granted(s, pids);
            && (hit ==> Resolves(s, q))
            && RowFor(after.rows, v, q) == (if hit then Some(Row(u, q, s.works[q], until)) else RowFor(s.rows, v, q))
            && (Member(after, v, q) <==> Member(s, v, q) || hit)
            && after.works == s.works && after.groups.Keys == s.groups.Keys
            && (UniqueRows(s.rows) ==> UniqueRows(after.rows))
    decreases |pids|
  {
    if pids != [] && Resolves(s, pids[0]) {
      var next := Grant(s, u, pids[0], until);
      UpsertRow(s.rows, u, pids[0], s.works[pids[0]], until, v, q);
      GrantedSame(s, next, pids[1..]);
      GrantAllEffect(next, u, pids[1..], until, v, q);
    }
  }

  lemma {:induction false} GrantedSame(s: Store, t: Store, pids: seq<Pid>)
    requires s.works == t.works && s.groups.Keys == t.groups.Keys
    ensures Granted(s, pids) == Granted(t, pids)
  {
    if pids != [] {
      GrantedSame(s, t, pids[1..]);
    }
  }

  /** The granted pids are the longest prefix of the request that resolves. */
  lemma {:induction false} GrantedIsPrefix(s: Store, pids: seq<Pid>)
    ensures var n := |Granted(s, pids)|;
            && n <= |pids| && Granted(s, pids) == pids[..n] && AllResolve(s, pids[..n])
            && (n < |pids| ==> !Resolves(s, pids[n]))
  {
    if pids != [] && Resolves(s, pids[0]) {
      GrantedIsPrefix(s, pids[1..]);
      var n := |Granted(s, pids[1..])|;
      assert pids[..n + 1] == [pids[0]] + pids[1..][..n];
    }
  }

  lemma {:induction false} RevokeAllEffect(s: Store, u: UserId, pids: seq<Pid>, v: UserId, q: Pid)
    ensures var after, hit := RevokeAll(s, u, pids), v == u && q in pids && q in s.works;
            && RowFor(after.rows, v, q) == (if hit then None else RowFor(s.rows, v, q))
            && (Member(after, v, q) <==> Member(s, v, q) && !hit)
            && after.works == s.works && after.groups.Keys == s.groups.Keys
            && (UniqueRows(s.rows) ==> UniqueRows(after.rows))
    decreases |pids|
  {
    if pids != [] {
      WithoutRow(s.rows, u, pids[0], v, q);
      WithoutKeepsRows(s.rows, u, pids[0]);
      RevokeAllEffect(Revoke(s, u, pids[0]), u, pids[1..], v, q);
    }
  }

  /** When the lease of `v` on `q` runs out just before the revocations of a sign-in of `u`. */
  function GrantedExpiry(s: Store, u: UserId, pids: seq<Pid>, until: Time, v: UserId, q: Pid): Option<Time> {
    if v == u && q in Granted(s, pids) then Some(until) else Expiry(s.rows, v, q)
  }

  /** The revocations of a sign-in of `u` take the lease of `v` on `q` away. */
  predicate TakesAway(s: Store, u: UserId, pids: seq<Pid>, until: Time, revokeBefore: Time, v: UserId, q: Pid) {
    var lease := GrantedExpiry(s, u, pids, until, v, q);
    v == u && AllResolve(s, pids) && q in s.works && lease.Some? && lease.value <= revokeBefore
  }

  /**
   * A sign-in of `u` grants the resolving prefix of its pids; when all of them resolve it then drops
   * exactly the leases of `u` that have run out, on works that still exist. Rows and membership of
   * every other user, and which groups and works exist, stay as they are.
   */
  lemma SignInEffect(s: Store, u: UserId, pids: seq<Pid>, until: Time, revokeBefore: Time, v: UserId, q: Pid)
    requires UniqueRows(s.rows)
    ensures var after := SignIn(s, u, pids, until, revokeBefore);
            var lease := GrantedExpiry(s, u, pids, until, v, q);
            var taken := TakesAway(s, u, pids, until, revokeBefore, v, q);
            && Expiry(after.rows, v, q) == (if taken then None else lease)
            && (HasRow(after.rows, v, q) && v == u && q in Granted(s, pids) ==>
                q in s.works && RowFor(after.rows, v, q) == Some(Row(u, q, s.works[q], until)))
            && (HasRow(after.rows, v, q) && !(v == u && q in Granted(s, pids)) ==>
                RowFor(after.rows, v, q) == RowFor(s.rows, v, q))
            && (Member(after, v, q) <==> (Member(s, v, q) || (v == u && q in Granted(s, pids))) && !taken)
            && after.works == s.works && after.groups.Keys == s.groups.Keys && UniqueRows(after.rows)
  {
    var granted := GrantAll(s, u, pids, until);
    GrantAllEffect(s, u, pids, until, v, q);
    var expired := ExpiredPids(granted.rows, u, revokeBefore);
    ExpiredMeans(granted.rows, u, revokeBefore, q);
    RevokeAllEffect(granted, u, expired, v, q);
  }

  /** No other user's rows or memberships change. */
  lemma SignInLeavesOthers(s: Store, u: UserId, pids: seq<Pid>, until: Time, revokeBefore: Time)
    requires UniqueRows(s.rows)
    ensures var after := SignIn(s, u, pids, until, revokeBefore);
            forall v, q | v != u :: Expiry(after.rows, v, q) == Expiry(s.rows, v, q) && Member(after, v, q) == Member(s, v, q)
  {
    forall v, q | v != u
      ensures var after := SignIn(s, u, pids, until, revokeBefore);
              Expiry(after.rows, v, q) == Expiry(s.rows, v, q) && Member(after, v, q) == Member(s, v, q)
    {
      SignInEffect(s, u, pids, until, revokeBefore, v, q);
    }
  }

  // ---------- what a sign-in is asked for ----------

  /** Without a scope only the argument counts; with a scope of work URLs and other elements, their pids follow. */
  lemma RequestedExactly(p: Pid, ps: seq<Pid>, blanks: seq<string>, es: seq<Element>)
    requires forall i | 0 <= i < |es| :: es[i].Valid()
    requires Separates(blanks, RenderAll(es))
    ensures Requested(NoPid, None) == [] && Requested(OnePid(p), None) == [p] && Requested(ManyPids(ps), None) == ps
    ensures var scope := Some(Lay(blanks, RenderAll(es)));
            && Requested(NoPid, scope) == PidsOf(es) && Requested(OnePid(p), scope) == [p] + PidsOf(es)
            && Requested(ManyPids(ps), scope) == ps + PidsOf(es)
  {
    ScopeRoundTrip(blanks, es);
  }

  /** A sign-in with one known pid and no scope completes, and leaves the user with that lease. */
  lemma OnePidIsGranted(s: Store, u: UserId, until: Time, p: Pid, revokeBefore: Time)
    requires UniqueRows(s.rows) && Resolves(s, p) && revokeBefore < until
    ensures var (after, outcome) := HandledSignin(s, u, until, OnePid(p), None, revokeBefore);
            && outcome == Completed
            && RowFor(after.rows, u, p) == Some(Row(u, p, s.works[p], until)) && Member(after, u, p)
  {
    assert Requested(OnePid(p), None) == [p];
    assert [p][0] == p && Granted(s, [p]) == [p];
    SignInEffect(s, u, [p], until, revokeBefore, u, p);
  }

  /** A sign-in completes exactly when every pid it asks for is a work with its group. */
  lemma CompletesExactly(s: Store, u: UserId, until: Time, workPid: PidArgument, scope: Option<string>, revokeBefore: Time)
    ensures var outcome := HandledSignin(s, u, until, workPid, scope, revokeBefore).1;
            && (outcome == Completed <==> forall q | q in Requested(workPid, scope) :: q in s.works && q in s.groups)
            && (outcome != Completed ==> outcome == RaisedNoMethodError)
  {
    var pids := Requested(workPid, scope);
    if AllResolve(s, pids) {
      forall q | q in pids ensures q in s.works && q in s.groups {
        var i :| 0 <= i < |pids| && pids[i] == q;
        assert Resolves(s, pids[i]);
      }
    }
    assert forall i | 0 <= i < |pids| :: pids[i] in pids;
  }

  /** A sign-in that asks for nothing completes, and only revokes what has run out. */
  lemma BareSigninOnlyRevokes(s: Store, u: UserId, until: Time, revokeBefore: Time, v: UserId, q: Pid)
    requires UniqueRows(s.rows)
    ensures var (after, outcome) := HandledSignin(s, u, until, NoPid, None, revokeBefore);
            var lease := Expiry(s.rows, v, q);
            var runOut := v == u && q in s.works && lease.Some? && lease.value <= revokeBefore;
            && outcome == Completed
            && RowFor(after.rows, v, q) == (if runOut then None else RowFor(s.rows, v, q))
            && (Member(after, v, q) <==> Member(s, v, q) && !runOut)
  {
    assert Requested(NoPid, None) == [];
    SignInEffect(s, u, [], until, revokeBefore, v, q);
  }

  /** A grant writes the row: the work's present title and the new expiry, whether or not there was one before. */
  lemma GrantWritesRow(s: Store, u: UserId, p: Pid, until: Time)
    requires Resolves(s, p)
    ensures var rows := Grant(s, u, p, until).rows;
            && HasRow(rows, u, p) && rows[FindRow(rows, u, p)] == Row(u, p, s.works[p], until)
            && |rows| == if HasRow(s.rows, u, p) then |s.rows| else |s.rows| + 1
  {
    UpsertRow(s.rows, u, p, s.works[p], until, u, p);
    FindRowUnique(Grant(s, u, p, until).rows, u, p, FindRow(s.rows, u, p));
  }

  /** Revoking undoes authorizing: the membership and the row are gone, and nothing else has moved. */
  lemma RevokeUndoesGrant(s: Store, u: UserId, p: Pid, until: Time)
    requires Resolves(s, p) && !HasRow(s.rows, u, p) && !Member(s, u, p)
    ensures Revoke(Grant(s, u, p, until), u, p) == s
  {
    var after := Grant(s, u, p, until);
    assert after.rows == s.rows + [Row(u, p, s.works[p], until)];
    WithoutAppended(s.rows, Row(u, p, s.works[p], until));
    assert s.groups[p := s.groups[p]] == s.groups;
    assert s.groups[p] + {u} - {u} == s.groups[p];
  }

  lemma {:induction false} WithoutAppended(rows: seq<Row>, r: Row)
    requires forall i | 0 <= i < |rows| :: !IsFor(rows[i], r.user, r.pid)
    ensures Without(rows + [r], r.user, r.pid) == rows
  {
    if rows != [] {
      assert (rows + [r])[1..] == rows[1..] + [r];
      WithoutAppended(rows[1..], r);
    }
  }

  // ---------- the documented treatment of unknown pids ----------

  function KnownPids(s: Store, pids: seq<Pid>): seq<Pid> {
    if pids == [] then []
    else (if Resolves(s, pids[0]) then [pids[0]] else []) + KnownPids(s, pids[1..])
  }

  /** What the rescue clause is there for: unknown pids are skipped and expired leases still revoked. */
  function SignInSkipping(s: Store, u: UserId, pids: seq<Pid>, until: Time, revokeBefore: Time): Store {
    SignIn(s, u, KnownPids(s, pids), until, revokeBefore)
  }

  lemma {:induction false} KnownMeans(s: Store, pids: seq<Pid>)
    ensures forall q :: q in KnownPids(s, pids) <==> q in pids && Resolves(s, q)
    ensures AllResolve(s, KnownPids(s, pids)) && (AllResolve(s, pids) ==> KnownPids(s, pids) == pids)
  {
    if pids != [] {
      KnownMeans(s, pids[1..]);
      assert pids == [pids[0]] + pids[1..];
      if AllResolve(s, pids) {
        assert forall i | 0 <= i < |pids| - 1 :: pids[1..][i] == pids[i + 1];
      }
    }
  }

  lemma {:induction false} AllGranted(s: Store, pids: seq<Pid>)
    requires AllResolve(s, pids)
    ensures Granted(s, pids) == pids
  {
    GrantedIsPrefix(s, pids);
    assert pids[..|pids|] == pids;
  }

  /** Granting `p` to `u` until then would write nothing new. */
  predicate HoldsLease(s: Store, u: UserId, p: Pid, until: Time) {
    p in s.works && RowFor(s.rows, u, p) == Some(Row(u, p, s.works[p], until)) && Member(s, u, p)
  }

  /** A known pid that the code does not get to, because one before it is unknown. */
  predicate PassedOver(s: Store, pids: seq<Pid>, q: Pid) {
    q in pids && Resolves(s, q) && q !in Granted(s, pids)
  }

  /**
   * Aborting at the first unknown pid misses nothing: what would still be granted is held already (or,
   * if the grant would itself be revoked at once, there is nothing to revoke), and no lease has run out.
   */
  predicate NothingMissed(s: Store, u: UserId, pids: seq<Pid>, until: Time, revokeBefore: Time) {
    && (forall q | q in pids && PassedOver(s, pids, q) ::
          if revokeBefore < until then HoldsLease(s, u, q, until) else !HasRow(s.rows, u, q) && !Member(s, u, q))
    && (forall q | q in s.works ::
          var lease := GrantedExpiry(s, u, pids, until, u, q); lease.Some? ==> revokeBefore < lease.value)
  }

  lemma HeldStays(s: Store, u: UserId, p: Pid, q: Pid, until: Time)
    requires Resolves(s, p)
    ensures HoldsLease(s, u, p, until) ==> Grant(s, u, p, until) == s
    ensures p == q || HoldsLease(s, u, q, until) ==> HoldsLease(Grant(s, u, p, until), u, q, until)
  {
    UpsertRow(s.rows, u, p, s.works[p], until, u, q);
    if HoldsLease(s, u, p, until) {
      assert s.groups[p] + {u} == s.groups[p];
      assert s.groups[p := s.groups[p]] == s.groups;
    }
  }

  lemma {:induction false} GrantHeld(s: Store, u: UserId, pids: seq<Pid>, until: Time)
    requires forall q | q in pids :: Resolves(s, q) && HoldsLease(s, u, q, until)
    ensures GrantAll(s, u, pids, until) == s
    decreases |pids|
  {
    if pids != [] {
      HeldStays(s, u, pids[0], pids[0], until);
      GrantHeld(s, u, pids[1..], until);
    }
  }

  lemma KnownSame(s: Store, t: Store, pids: seq<Pid>)
    requires s.works == t.works && s.groups.Keys == t.groups.Keys
    ensures KnownPids(s, pids) == KnownPids(t, pids)
  {
  }

  /** Granting what is held already changes nothing, so skipping grants no more than the code does. */
  lemma {:induction false} GrantKnown(s: Store, u: UserId, pids: seq<Pid>, until: Time)
    requires forall q | q in pids && PassedOver(s, pids, q) :: HoldsLease(s, u, q, until)
    ensures GrantAll(s, u, KnownPids(s, pids), until) == GrantAll(s, u, pids, until)
    decreases |pids|
  {
    KnownMeans(s, pids);
    if pids != [] && Resolves(s, pids[0]) {
      var next := Grant(s, u, pids[0], until);
      GrantedSame(s, next, pids[1..]);
      KnownSame(s, next, pids[1..]);
      forall q | q in pids[1..] && PassedOver(next, pids[1..], q) ensures HoldsLease(next, u, q, until) {
        assert q == pids[0] || PassedOver(s, pids, q);
        HeldStays(s, u, pids[0], q, until);
      }
      GrantKnown(next, u, pids[1..], until);
      assert KnownPids(s, pids)[1..] == KnownPids(next, pids[1..]);
    } else if pids != [] {
      assert forall q | q in pids && Resolves(s, q) :: PassedOver(s, pids, q);
      GrantHeld(s, u, KnownPids(s, pids), until);
    }
  }

  lemma {:induction false} RevokeMissing(s: Store, u: UserId, pids: seq<Pid>)
    requires forall q | q in pids :: q !in s.works
    ensures RevokeAll(s, u, pids) == s
    decreases |pids|
  {
    if pids != [] {
      RevokeMissing(s, u, pids[1..]);
    }
  }

  /** Nothing is missed when grants outlast the revoke time. */
  lemma SkippingKeepsLasting(s: Store, u: UserId, pids: seq<Pid>, until: Time, revokeBefore: Time)
    requires UniqueRows(s.rows) && !AllResolve(s, pids) && revokeBefore < until
    requires NothingMissed(s, u, pids, until, revokeBefore)
    ensures SignIn(s, u, pids, until, revokeBefore) == SignInSkipping(s, u, pids, until, revokeBefore)
  {
    KnownMeans(s, pids);
    GrantKnown(s, u, pids, until);
    var after := GrantAll(s, u, pids, until);
    var expired := ExpiredPids(after.rows, u, revokeBefore);
    forall q | q in expired ensures q !in after.works {
      GrantAllEffect(s, u, pids, until, u, q);
      ExpiredMeans(after.rows, u, revokeBefore, q);
    }
    RevokeMissing(after, u, expired);
  }

  lemma {:induction false} WithoutCat(a: seq<Row>, b: seq<Row>, u: UserId, p: Pid)
    ensures Without(a + b, u, p) == Without(a, u, p) + Without(b, u, p)
  {
    if a == [] {
      assert a + b == b;
    } else {
      assert (a + b)[1..] == a[1..] + b;
      WithoutCat(a[1..], b, u, p);
    }
  }

  lemma {:induction false} WithoutNone(rows: seq<Row>, u: UserId, p: Pid)
    requires forall r | r in rows :: !IsFor(r, u, p)
    ensures Without(rows, u, p) == rows
  {
    if rows != [] {
      WithoutNone(rows[1..], u, p);
    }
  }

  /** Grants of pids without a row add rows behind those there are. */
  lemma {:induction false} GrantAllAppends(s: Store, u: UserId, pids: seq<Pid>, until: Time, base: seq<Row>, extra: seq<Row>)
      returns (more: seq<Row>)
    requires AllResolve(s, pids) && s.rows == base + extra && |extra| <= |s.rows|
    requires forall r, q | r in base && q in pids :: !IsFor(r, u, q)
    ensures GrantAll(s, u, pids, until).rows == base + more
    ensures forall r | r in more :: r in extra || (r.user == u && r.pid in pids)
    decreases |pids|
  {
    if pids == [] {
      more := extra;
    } else {
      var p := pids[0];
      var row := Row(u, p, s.works[p], until);
      var i := FindRow(s.rows, u, p);
      assert i >= |base| by {
        assert forall j | 0 <= j < |base| :: s.rows[j] == base[j] && base[j] in base;
      }
      var next := if i < |s.rows| then extra[i - |base| := row] else extra + [row];
      assert Grant(s, u, p, until).rows == base + next;
      assert forall j | 0 <= j < |pids| - 1 :: pids[1..][j] == pids[j + 1];
      more := GrantAllAppends(Grant(s, u, p, until), u, pids[1..], until, base, next);
    }
  }

  lemma FirstIsIn(rows: seq<Row>)
    ensures rows == [] || rows[0] in rows
  {
  }

  /** Revocations of existing works take exactly such rows off again. */
  lemma {:induction false} RevokeAllRetracts(s: Store, u: UserId, pids: seq<Pid>, base: seq<Row>, extra: seq<Row>)
    requires s.rows == base + extra
    requires forall r | r in extra :: r.user == u && r.pid in pids && r.pid in s.works
    requires forall r | r in base :: !(r.user == u && r.pid in pids && r.pid in s.works)
    ensures RevokeAll(s, u, pids).rows == base
    decreases |pids|
  {
    if pids == [] {
      FirstIsIn(extra);
    } else {
      var p := pids[0];
      assert forall q | q in pids :: q == p || q in pids[1..];
      if p in s.works {
        WithoutCat(base, extra, u, p);
        WithoutNone(base, u, p);
        WithoutKeepsRows(extra, u, p);
        RevokeAllRetracts(Revoke(s, u, p), u, pids[1..], base, Without(extra, u, p));
      } else {
        RevokeAllRetracts(s, u, pids[1..], base, extra);
      }
    }
  }

  lemma SameMembersSameGroups(s: Store, t: Store)
    requires s.groups.Keys == t.groups.Keys && forall v, q :: Member(s, v, q) == Member(t, v, q)
    ensures s.groups == t.groups
  {
    forall g | g in s.groups ensures s.groups[g] == t.groups[g] {
      forall v ensures v in s.groups[g] <==> v in t.groups[g] {
        assert Member(s, v, g) == Member(t, v, g);
      }
    }
  }

  lemma RowsHaveRow(rows: seq<Row>)
    requires UniqueRows(rows)
    ensures forall r | r in rows :: RowFor(rows, r.user, r.pid) == Some(r)
  {
    forall i | 0 <= i < |rows| ensures RowFor(rows, rows[i].user, rows[i].pid) == Some(rows[i]) {
      FindRowUnique(rows, rows[i].user, rows[i].pid, i);
    }
  }

  lemma SomeGrantOrNone(s: Store, u: UserId, pids: seq<Pid>, until: Time)
    ensures Granted(s, pids) == [] || exists q :: q in s.works && GrantedExpiry(s, u, pids, until, u, q) == Some(until)
    ensures Granted(s, pids) == [] ==> GrantAll(s, u, pids, until) == s
  {
    if Granted(s, pids) != [] {
      assert GrantedExpiry(s, u, pids, until, u, pids[0]) == Some(until);
    }
  }

  /** Nor when grants are over at once: skipping grants them, and then takes them away again. */
  lemma SkippingKeepsMomentary(s: Store, u: UserId, pids: seq<Pid>, until: Time, revokeBefore: Time)
    requires UniqueRows(s.rows) && !AllResolve(s, pids) && until <= revokeBefore
    requires NothingMissed(s, u, pids, until, revokeBefore)
    ensures SignIn(s, u, pids, until, revokeBefore) == SignInSkipping(s, u, pids, until, revokeBefore)
  {
    var known := KnownPids(s, pids);
    KnownMeans(s, pids);
    AllGranted(s, known);
    SomeGrantOrNone(s, u, pids, until);
    assert forall q | q in known :: PassedOver(s, pids, q);
    var granted := GrantAll(s, u, known, until);
    var expired := ExpiredPids(granted.rows, u, revokeBefore);
    assert s.rows == s.rows + [];
    RowsHaveRow(s.rows);
    var extra := GrantAllAppends(s, u, known, until, s.rows, []);
    forall q ensures q in expired && q in s.works <==> q in known {
      GrantAllEffect(s, u, known, until, u, q);
      ExpiredMeans(granted.rows, u, revokeBefore, q);
    }
    GrantAllEffect(s, u, known, until, u, "");
    RevokeAllRetracts(granted, u, expired, s.rows, extra);
    var after := SignInSkipping(s, u, pids, until, revokeBefore);
    SignInEffect(s, u, known, until, revokeBefore, u, "");
    forall v, q ensures Member(s, v, q) == Member(after, v, q) {
      SignInEffect(s, u, known, until, revokeBefore, v, q);
    }
    SameMembersSameGroups(s, after);
  }

  /** What an unknown pid makes the code miss shows in the store. */
  lemma SkippingShows(s: Store, u: UserId, pids: seq<Pid>, until: Time, revokeBefore: Time)
    requires UniqueRows(s.rows) && !AllResolve(s, pids)
    requires SignIn(s, u, pids, until, revokeBefore) == SignInSkipping(s, u, pids, until, revokeBefore)
    ensures NothingMissed(s, u, pids, until, revokeBefore)
  {
    var known := KnownPids(s, pids);
    KnownMeans(s, pids);
    AllGranted(s, known);
    GrantedIsPrefix(s, pids);
    assert forall q | q in Granted(s, pids) :: q in known;
    hide SignIn;
    forall q | q in pids && PassedOver(s, pids, q)
      ensures if revokeBefore < until then HoldsLease(s, u, q, until) else !HasRow(s.rows, u, q) && !Member(s, u, q)
    {
      SignInEffect(s, u, pids, until, revokeBefore, u, q);
      SignInEffect(s, u, known, until, revokeBefore, u, q);
    }
    forall q | q in s.works
      ensures var lease := GrantedExpiry(s, u, pids, until, u, q); lease.Some? ==> revokeBefore < lease.value
    {
      SignInEffect(s, u, pids, until, revokeBefore, u, q);
      SignInEffect(s, u, known, until, revokeBefore, u, q);
    }
  }

  /**
   * Skipping unknown pids leaves the store that the code leaves exactly when there are none, or aborting
   * at the first one misses nothing.
   */
  lemma SkippingExactly(s: Store, u: UserId, pids: seq<Pid>, until: Time, revokeBefore: Time)
    requires UniqueRows(s.rows)
    ensures SignIn(s, u, pids, until, revokeBefore) == SignInSkipping(s, u, pids, until, revokeBefore) <==>
            AllResolve(s, pids) || NothingMissed(s, u, pids, until, revokeBefore)
  {
    hide SignIn, NothingMissed;
    if AllResolve(s, pids) {
      KnownMeans(s, pids);
    } else if NothingMissed(s, u, pids, until, revokeBefore) {
      if revokeBefore < until {
        SkippingKeepsLasting(s, u, pids, until, revokeBefore);
      } else {
        SkippingKeepsMomentary(s, u, pids, until, revokeBefore);
      }
    } else if SignIn(s, u, pids, until, revokeBefore) == SignInSkipping(s, u, pids, until, revokeBefore) {
      SkippingShows(s, u, pids, until, revokeBefore);
    }
  }

  /** One unknown pid keeps a lease alive that has run out: skipping would have revoked it. */
  lemma UnknownPidKeepsExpiredLease()
    ensures var s := Store([Row(1, "w", "t", 5)], map["w" := {1}], map["w" := "t"]);
            && SignIn(s, 1, ["gone"], 20, 10) == s
            && SignInSkipping(s, 1, ["gone"], 20, 10).rows == []
  {
    var s := Store([Row(1, "w", "t", 5)], map["w" := {1}], map["w" := "t"]);
    assert !Resolves(s, ["gone"][0]);
    assert KnownPids(s, ["gone"]) == [];
    SignInEffect(s, 1, [], 20, 10, 1, "w");
    assert ExpiredPids(s.rows, 1, 10) == ["w"];
    assert Without(s.rows, 1, "w") == [];
    assert RevokeAll(s, 1, ["w"]) == Revoke(s, 1, "w");
  }
}
