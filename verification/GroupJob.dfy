/**
 * `CreateGroupAndAddMembersJob`: once all pages of a lending work are split off, stamp the work and
 * everything below it with the lending group; until then come back later, a bounded number of times.
 */
module GroupJob {

  type Id = string

  datatype Kind = Cdl | ChildWork | FileSet | OtherWork

  /** `pageCount` is what `page_count.first.to_i` gives for a file set. */
  datatype Node = Node(kind: Kind, members: seq<Id>, pageCount: int)

  datatype Outcome = NotFound | RaisedNoMethodError | Stamped | GaveUp | Requeued(retries: int)

  const RETRY_MAX := 5

  // ---------- the member graph ----------

  /** `path` follows member links. */
  ghost predicate IsPath(nodes: map<Id, Node>, path: seq<Id>) {
    && path != []
    && (forall i | 0 <= i < |path| :: path[i] in nodes)
    && (forall i | 0 <= i < |path| - 1 :: path[i + 1] in nodes[path[i]].members)
  }

  ghost predicate PathBetween(nodes: map<Id, Node>, path: seq<Id>, from: Id, to: Id) {
    IsPath(nodes, path) && path[0] == from && path[|path| - 1] == to
  }

  /** `to` is `from` or lies below it, at any depth. */
  ghost predicate Reaches(nodes: map<Id, Node>, from: Id, to: Id) {
    exists path :: PathBetween(nodes, path, from, to)
  }

  /** Members exist, and nothing lies below one of its own members. */
  ghost predicate Acyclic(nodes: map<Id, Node>) {
    forall n, k | n in nodes && 0 <= k < |nodes[n].members| ::
      nodes[n].members[k] in nodes && !Reaches(nodes, nodes[n].members[k], n)
  }

  /** Everything at or below `n`. */
  ghost function Below(nodes: map<Id, Node>, n: Id): set<Id> {
    set m | m in nodes && Reaches(nodes, n, m)
  }

  lemma ReachesSelf(nodes: map<Id, Node>, n: Id)
    requires n in nodes
    ensures Reaches(nodes, n, n)
  {
    assert PathBetween(nodes, [n], n, n);
  }

  lemma ReachesThroughMember(nodes: map<Id, Node>, from: Id, k: nat, to: Id)
    requires from in nodes && k < |nodes[from].members|
    requires Reaches(nodes, nodes[from].members[k], to)
    ensures Reaches(nodes, from, to)
  {
    var path :| PathBetween(nodes, path, nodes[from].members[k], to);
    assert PathBetween(nodes, [from] + path, from, to);
  }

  /** Less lies below a member than below its parent, so that the recursion over members ends. */
  lemma MembersAreLower(nodes: map<Id, Node>, n: Id, k: nat)
    requires Acyclic(nodes) && n in nodes && k < |nodes[n].members|
    ensures |Below(nodes, nodes[n].members[k])| < |Below(nodes, n)|
  {
    var a, b := Below(nodes, nodes[n].members[k]), Below(nodes, n);
    forall m | m in a ensures m in b {
      ReachesThroughMember(nodes, n, k, m);
    }
    ReachesSelf(nodes, n);
    assert n in b && n !in a;
    assert b == a + (b - a);
    assert |b| == |a| + |b - a|;
  }

  lemma ReachesBySteps(nodes: map<Id, Node>, from: Id, to: Id) returns (k: nat)
    requires Reaches(nodes, from, to) && from != to
    ensures from in nodes && k < |nodes[from].members| && Reaches(nodes, nodes[from].members[k], to)
  {
    var path :| PathBetween(nodes, path, from, to);
    k :| 0 <= k < |nodes[from].members| && nodes[from].members[k] == path[1];
    assert PathBetween(nodes, path[1..], path[1], to);
  }

  /** `to` lies under one of the first `count` members of `from`. */
  ghost predicate UnderMembers(nodes: map<Id, Node>, from: Id, count: nat, to: Id)
    requires from in nodes && count <= |nodes[from].members|
  {
    exists k :: 0 <= k < count && Reaches(nodes, nodes[from].members[k], to)
  }

  lemma ReachesIff(nodes: map<Id, Node>, from: Id, to: Id)
    requires from in nodes
    ensures Reaches(nodes, from, to) <==> from == to || UnderMembers(nodes, from, |nodes[from].members|, to)
  {
    if from == to {
      ReachesSelf(nodes, from);
    } else if Reaches(nodes, from, to) {
      var k := ReachesBySteps(nodes, from, to);
    } else if UnderMembers(nodes, from, |nodes[from].members|, to) {
      var k :| 0 <= k < |nodes[from].members| && Reaches(nodes, nodes[from].members[k], to);
      ReachesThroughMember(nodes, from, k, to);
    }
  }

  // ---------- the job ----------

  predicate IsKind(nodes: map<Id, Node>, n: Id, kind: Kind) {
    n in nodes && nodes[n].kind == kind
  }

  /** How many of the members are of the kind. */
  function CountKind(nodes: map<Id, Node>, ns: seq<Id>, kind: Kind): nat {
    if ns == [] then 0
    else CountKind(nodes, ns[..|ns| - 1], kind) + (if IsKind(nodes, ns[|ns| - 1], kind) then 1 else 0)
  }

  function PositionsOf(nodes: map<Id, Node>, ns: seq<Id>, kind: Kind): set<int> {
    set i | 0 <= i < |ns| && ns[i] in nodes && nodes[ns[i]].kind == kind
  }

  lemma {:induction false} CountIsPositions(nodes: map<Id, Node>, ns: seq<Id>, kind: Kind)
    ensures CountKind(nodes, ns, kind) == |PositionsOf(nodes, ns, kind)|
  {
    if ns != [] {
      var n := |ns| - 1;
      CountIsPositions(nodes, ns[..n], kind);
      assert PositionsOf(nodes, ns, kind) ==
             PositionsOf(nodes, ns[..n], kind) + (if IsKind(nodes, ns[n], kind) then {n} else {});
    }
  }

  /** The index of the first file set among the members, or their number. */
  function FirstFileSet(nodes: map<Id, Node>, ns: seq<Id>): (i: nat)
    ensures i <= |ns|
    ensures i < |ns| ==> IsKind(nodes, ns[i], FileSet)
    ensures forall j | 0 <= j < i :: !IsKind(nodes, ns[j], FileSet)
  {
    if ns == [] || IsKind(nodes, ns[0], FileSet) then 0 else 1 + FirstFileSet(nodes, ns[1..])
  }

  /** Which way a perform goes in the present state of the repository. */
  function Decide(nodes: map<Id, Node>, cdl: Id, retries: int): Outcome {
    if !IsKind(nodes, cdl, Cdl) then NotFound
    else
      var ms := nodes[cdl].members;
      var f := FirstFileSet(nodes, ms);
      if f == |ms| then RaisedNoMethodError
      else if nodes[ms[f]].pageCount == CountKind(nodes, ms, ChildWork) then Stamped
      else if retries > RETRY_MAX then GaveUp
      else Requeued(retries + 1)
  }

  predicate FileSetAt(nodes: map<Id, Node>, ns: seq<Id>, i: int) {
    0 <= i < |ns| && ns[i] in nodes && nodes[ns[i]].kind == FileSet
  }

  /** There is a lending work of that id. */
  predicate LendingWork(nodes: map<Id, Node>, cdl: Id) {
    cdl in nodes && nodes[cdl].kind == Cdl
  }

  /** All pages have arrived: the first file set counts as many pages as there are child works. */
  ghost predicate PagesComplete(nodes: map<Id, Node>, cdl: Id) {
    cdl in nodes &&
    var ms := nodes[cdl].members;
    exists f :: FileSetAt(nodes, ms, f) && (forall j | 0 <= j < f :: !FileSetAt(nodes, ms, j))
                && nodes[ms[f]].pageCount == |PositionsOf(nodes, ms, ChildWork)|
  }

  /**
   * Which way a perform goes: nothing is found but lending works; without a file set it raises; it stamps
   * when the pages are complete; otherwise it requeues with one more retry, or gives up beyond the bound.
   */
  lemma DecideExactly(nodes: map<Id, Node>, cdl: Id, retries: int)
    ensures Decide(nodes, cdl, retries) ==
            if !LendingWork(nodes, cdl) then NotFound
            else if !exists f :: FileSetAt(nodes, nodes[cdl].members, f) then RaisedNoMethodError
            else if PagesComplete(nodes, cdl) then Stamped
            else if retries > 5 then GaveUp
            else Requeued(retries + 1)
  {
    if LendingWork(nodes, cdl) {
      var ms := nodes[cdl].members;
      var f := FirstFileSet(nodes, ms);
      CountIsPositions(nodes, ms, ChildWork);
      forall i: nat | i < |ms| ensures FileSetAt(nodes, ms, i) <==> IsKind(nodes, ms[i], FileSet) {
      }
      forall g | FileSetAt(nodes, ms, g) && (forall j | 0 <= j < g :: !FileSetAt(nodes, ms, j)) ensures g == f {
        assert !(f < g) && !(g < f);
      }
      assert f < |ms| ==> FileSetAt(nodes, ms, f);
    }
  }

  /** Read groups after stamping: `[group]` on everything at or below `root`, unchanged elsewhere. */
  ghost predicate StampedBelow(nodes: map<Id, Node>, before: map<Id, seq<string>>, after: map<Id, seq<string>>,
                               root: Id, group: string) {
    && after.Keys == before.Keys
    && forall n | n in after :: after[n] == if Reaches(nodes, root, n) then [group] else before[n]
  }

  /** Stamping the root after everything below it completes the stamping. */
  lemma StampRoot(nodes: map<Id, Node>, before: map<Id, seq<string>>, under: map<Id, seq<string>>, root: Id, group: string)
    requires root in nodes && root in under && under.Keys == before.Keys
    requires forall n | n in under ::
               under[n] == if UnderMembers(nodes, root, |nodes[root].members|, n) then [group] else before[n]
    ensures StampedBelow(nodes, before, under[root := [group]], root, group)
  {
    forall n | n in under
      ensures under[root := [group]][n] == if Reaches(nodes, root, n) then [group] else before[n]
    {
      ReachesIff(nodes, root, n);
    }
  }

  class Repository {
    var nodes: map<Id, Node>
    var readGroups: map<Id, seq<string>>
    var groups: map<string, set<int>>

    ghost predicate Valid()
      reads this
    {
      Acyclic(nodes) && readGroups.Keys == nodes.Keys
    }

    method AssignReadGroups(member: Id, group: string)
      requires Valid() && member in nodes
      modifies this`readGroups
      ensures Valid() && StampedBelow(nodes, old(readGroups), readGroups, member, group)
      decreases |Below(nodes, member)|
    {
      readGroups := readGroups[member := [group]];
      StampMembers(member, group);
      forall n | n in readGroups
        ensures readGroups[n] == if Reaches(nodes, member, n) then [group] else old(readGroups)[n]
      {
        ReachesIff(nodes, member, n);
      }
    }

    method StampMembers(work: Id, group: string)
      requires Valid() && work in nodes
      modifies this`readGroups
      ensures Valid()
      ensures forall n | n in readGroups ::
                readGroups[n] == if UnderMembers(nodes, work, |nodes[work].members|, n) then [group]
                                 else old(readGroups)[n]
      decreases |Below(nodes, work)|, 0
    {
      var ms := nodes[work].members;
      var i := 0;
      while i < |ms|
        invariant 0 <= i <= |ms| && Valid()
        invariant forall n | n in readGroups ::
                    readGroups[n] == if UnderMembers(nodes, work, i, n) then [group] else old(readGroups)[n]
      {
        ghost var before := readGroups;
        MembersAreLower(nodes, work, i);
        AssignReadGroups(ms[i], group);
        forall n | n in readGroups
          ensures readGroups[n] == if UnderMembers(nodes, work, i + 1, n) then [group] else old(readGroups)[n]
        {
          assert UnderMembers(nodes, work, i + 1, n) <==> UnderMembers(nodes, work, i, n) || Reaches(nodes, ms[i], n);
          assert readGroups[n] == if Reaches(nodes, ms[i], n) then [group] else before[n];
        }
        i := i + 1;
      }
    }

    method Perform(cdl: Id, retries: int) returns (outcome: Outcome)
      requires Valid()
      modifies this`readGroups, this`groups
      ensures Valid() && outcome == Decide(nodes, cdl, retries)
      ensures outcome == Stamped ==>
                && StampedBelow(nodes, old(readGroups), readGroups, cdl, cdl)
                && groups == (if cdl in old(groups) then old(groups) else old(groups)[cdl := {}])
      ensures outcome != Stamped ==> readGroups == old(readGroups) && groups == old(groups)
    {
      if !IsKind(nodes, cdl, Cdl) {
        return NotFound;
      }
      var ms := nodes[cdl].members;
      var f := FirstFileSet(nodes, ms);
      if f == |ms| {
        return RaisedNoMethodError;
      }
      var pageCount := nodes[ms[f]].pageCount;
      var childWorksCount := CountKind(nodes, ms, ChildWork);
      if pageCount == childWorksCount {
        if cdl !in groups {
          groups := groups[cdl := {}];
        }
        StampMembers(cdl, cdl);
        StampRoot(nodes, old(readGroups), readGroups, cdl, cdl);
        readGroups := readGroups[cdl := [cdl]];
        return Stamped;
      } else {
        if retries > RETRY_MAX {
          return GaveUp;
        }
        return Requeued(retries + 1);
      }
    }
  }

  // ---------- chains of performs ----------

  /** One perform: the repository it met, its argument, and what became of the read groups. */
  datatype Attempt = Attempt(nodes: map<Id, Node>, retries: int, outcome: Outcome,
                             before: map<Id, seq<string>>, after: map<Id, seq<string>>)

  /** What `Perform` promises of one attempt. */
  ghost predicate Performed(a: Attempt, cdl: Id) {
    && a.outcome == Decide(a.nodes, cdl, a.retries)
    && (a.outcome == Stamped ==> StampedBelow(a.nodes, a.before, a.after, cdl, cdl))
    && (a.outcome != Stamped ==> a.after == a.before)
  }

  /** A first attempt with no retries yet, and then the attempts it requeued; anything may happen between them. */
  ghost predicate Chain(attempts: seq<Attempt>, cdl: Id) {
    && (forall i | 0 <= i < |attempts| :: Performed(attempts[i], cdl))
    && (attempts != [] ==> attempts[0].retries == 0)
    && (forall i | 0 <= i < |attempts| - 1 :: attempts[i].outcome == Requeued(attempts[i + 1].retries))
  }

  lemma {:induction false} RetriesCountAttempts(attempts: seq<Attempt>, cdl: Id, i: nat)
    requires Chain(attempts, cdl) && i < |attempts|
    ensures attempts[i].retries == i <= RETRY_MAX + 1
  {
    if i > 0 {
      RetriesCountAttempts(attempts, cdl, i - 1);
      assert attempts[i - 1].outcome == Requeued(attempts[i].retries);
      assert Performed(attempts[i - 1], cdl);
    }
  }

  /** At most `RETRY_MAX + 2` performs, and only the last of them can have changed any read group. */
  lemma ChainsAreShort(attempts: seq<Attempt>, cdl: Id)
    requires Chain(attempts, cdl)
    ensures |attempts| <= RETRY_MAX + 2
    ensures forall i | 0 <= i < |attempts| - 1 :: attempts[i].after == attempts[i].before
    ensures attempts != [] ==>
              var last := attempts[|attempts| - 1]; last.after != last.before ==> last.outcome == Stamped
  {
    if attempts != [] {
      RetriesCountAttempts(attempts, cdl, |attempts| - 1);
      assert Performed(attempts[|attempts| - 1], cdl);
    }
    forall i | 0 <= i < |attempts| - 1 ensures attempts[i].after == attempts[i].before {
      assert attempts[i].outcome == Requeued(attempts[i + 1].retries);
      assert Performed(attempts[i], cdl);
    }
  }

  /** The bound is met: a work whose pages never all arrive is performed `RETRY_MAX + 2` times, then given up. */
  lemma LongestChain(nodes: map<Id, Node>, cdl: Id, readGroups: map<Id, seq<string>>)
    requires Decide(nodes, cdl, 0).Requeued?
    ensures var attempts := seq(RETRY_MAX + 2, i => Attempt(nodes, i, Decide(nodes, cdl, i), readGroups, readGroups));
            Chain(attempts, cdl) && attempts[RETRY_MAX + 1].outcome == GaveUp
  {
  }

  /** The job has to come back: the lending work has a file set, but not all its pages are there. */
  ghost predicate Waiting(nodes: map<Id, Node>, cdl: Id) {
    && LendingWork(nodes, cdl) && !PagesComplete(nodes, cdl)
    && exists f :: FileSetAt(nodes, nodes[cdl].members, f)
  }

  /** The first `n` attempts are there, and each of them has to come back. */
  ghost predicate FirstWait(attempts: seq<Attempt>, cdl: Id, n: nat) {
    n <= |attempts| && forall i | 0 <= i < n :: Waiting(attempts[i].nodes, cdl)
  }

  /**
   * How long a finished chain is: up to the bound, it goes beyond `n` performs exactly when each of the
   * first `n` found the work waiting. So it goes beyond six exactly when each of six did.
   */
  lemma ChainLengthExactly(attempts: seq<Attempt>, cdl: Id, n: nat)
    requires Chain(attempts, cdl) && attempts != [] && !attempts[|attempts| - 1].outcome.Requeued?
    requires n <= RETRY_MAX + 1
    ensures |attempts| > n <==> FirstWait(attempts, cdl, n)
  {
    forall i: nat | i < |attempts|
      ensures i < |attempts| - 1 ==> Waiting(attempts[i].nodes, cdl)
      ensures i == |attempts| - 1 && i < n ==> !Waiting(attempts[i].nodes, cdl)
    {
      RetriesCountAttempts(attempts, cdl, i);
      DecideExactly(attempts[i].nodes, cdl, attempts[i].retries);
      assert Performed(attempts[i], cdl);
      if i < |attempts| - 1 {
        assert attempts[i].outcome == Requeued(attempts[i + 1].retries);
      }
    }
  }

  /** The bound is met exactly when the work was waiting every time but the last. */
  lemma LongestChainExactly(attempts: seq<Attempt>, cdl: Id)
    requires Chain(attempts, cdl) && attempts != [] && !attempts[|attempts| - 1].outcome.Requeued?
    ensures |attempts| == RETRY_MAX + 2 <==> FirstWait(attempts, cdl, RETRY_MAX + 1)
  {
    ChainsAreShort(attempts, cdl);
    ChainLengthExactly(attempts, cdl, RETRY_MAX + 1);
  }
}
