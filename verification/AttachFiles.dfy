/**
 * `AttachFilesToWorkJob`: turning uploaded files into file sets of one work, by a job that may stop
 * between any two of its persistent writes and be run again.
 */
module AttachFiles {
  import opened Prelude

  type FileId = int

  /** What has been written of a file set: its `is_derived` metadata and the upload it took its content from. */
  datatype FileSet = FileSet(derived: Option<bool>, content: Option<FileId>)

  /** `uris` is the `file_set_uri` column, `attached` the work's file sets; file sets are numbered as created. */
  datatype Store = Store(derived: map<FileId, bool>, uris: map<FileId, nat>, fileSets: seq<FileSet>, attached: seq<nat>)

  /** An uploaded file as the run has loaded it. */
  datatype Upload = Upload(id: FileId, uri: Option<nat>)

  function IsDerived(s: Store, f: FileId): bool {
    f in s.derived && s.derived[f]
  }

  // ---------- one file ----------

  const WRITES_PER_FILE := 5

  /** The first `k` writes for a file: create, remember the uri, metadata, content, attach. */
  function Written(s: Store, f: FileId, k: nat): Store {
    var id := |s.fileSets|;
    if k == 0 then s
    else
      s.(fileSets := s.fileSets + [FileSet(if k >= 3 then Some(IsDerived(s, f)) else None, if k >= 4 then Some(f) else None)],
         uris := if k >= 2 then s.uris[f := id] else s.uris,
         attached := if k >= 5 then s.attached + [id] else s.attached)
  }

  /** One write after the other: each changes one thing only. */
  lemma WritesInOrder(s: Store, f: FileId)
    ensures var n, flag := |s.fileSets|, f in s.derived && s.derived[f];
            var created := s.(fileSets := s.fileSets + [FileSet(None, None)]);
            var remembered := created.(uris := s.uris[f := n]);
            var flagged := remembered.(fileSets := s.fileSets + [FileSet(Some(flag), None)]);
            var filled := flagged.(fileSets := s.fileSets + [FileSet(Some(flag), Some(f))]);
            && Written(s, f, 0) == s && Written(s, f, 1) == created && Written(s, f, 2) == remembered
            && Written(s, f, 3) == flagged && Written(s, f, 4) == filled
            && Written(s, f, 5) == filled.(attached := s.attached + [n])
  {
  }

  /** The files of a run from the `i`-th on, with the given number of writes before the process stops. */
  function RunFrom(s: Store, uploads: seq<Upload>, i: nat, writes: nat): (Store, bool)
    requires i <= |uploads|
    decreases |uploads| - i
  {
    if i == |uploads| then (s, true)
    else if uploads[i].uri.Some? then RunFrom(s, uploads, i + 1, writes)
    else if writes < WRITES_PER_FILE then (Written(s, uploads[i].id, writes), false)
    else RunFrom(Written(s, uploads[i].id, WRITES_PER_FILE), uploads, i + 1, writes - WRITES_PER_FILE)
  }

  function Load(s: Store, files: seq<FileId>): seq<Upload> {
    seq(|files|, i requires 0 <= i < |files| =>
          Upload(files[i], if files[i] in s.uris then Some(s.uris[files[i]]) else None))
  }

  /** A run of the job: the store it leaves, and whether it got to the end. */
  function RunJob(s: Store, files: seq<FileId>, writes: nat): (Store, bool) {
    RunFrom(s, Load(s, files), 0, writes)
  }

  // ---------- groups of ten ----------

  const GROUP_SIZE := 10

  function GroupEnd(n: nat, k: nat): (end: nat)
    ensures GROUP_SIZE * k <= n ==> GROUP_SIZE * k <= end <= n
  {
    if GROUP_SIZE * (k + 1) <= n then GROUP_SIZE * (k + 1) else n
  }

  /** Ruby's `in_groups_of(10, false)`. */
  function InGroups<T>(xs: seq<T>): seq<seq<T>> {
    seq((|xs| + GROUP_SIZE - 1) / GROUP_SIZE, k requires 0 <= k < (|xs| + GROUP_SIZE - 1) / GROUP_SIZE =>
      xs[GROUP_SIZE * k..GroupEnd(|xs|, k)])
  }

  function Flatten<T>(groups: seq<seq<T>>): seq<T> {
    if groups == [] then [] else Flatten(groups[..|groups| - 1]) + groups[|groups| - 1]
  }

  lemma {:induction false} GroupsUpTo<T>(xs: seq<T>, k: nat)
    requires k <= |InGroups(xs)|
    ensures GROUP_SIZE * k <= |xs| + GROUP_SIZE - 1
    ensures Flatten(InGroups(xs)[..k]) == xs[..if GROUP_SIZE * k <= |xs| then GROUP_SIZE * k else |xs|]
  {
    if k > 0 {
      GroupsUpTo(xs, k - 1);
      assert InGroups(xs)[..k][..k - 1] == InGroups(xs)[..k - 1];
    }
  }

  /** Going through the groups visits every file once, in order, at most ten at a time. */
  lemma GroupsKeepOrder<T>(xs: seq<T>)
    ensures Flatten(InGroups(xs)) == xs
    ensures forall k | 0 <= k < |InGroups(xs)| ::
              0 < |InGroups(xs)[k]| <= 10 && (k < |InGroups(xs)| - 1 ==> |InGroups(xs)[k]| == 10)
  {
    var n := |InGroups(xs)|;
    GroupsUpTo(xs, n);
    assert InGroups(xs)[..n] == InGroups(xs);
  }

  // ---------- the job, write by write ----------

  class AttachFilesJob {
    const derived: map<FileId, bool>
    var uris: map<FileId, nat>
    var fileSets: seq<FileSet>
    var attached: seq<nat>

    function Current(): Store
      reads this
    {
      Store(derived, uris, fileSets, attached)
    }

    /** `writes` counts the writes left before the process stops. */
    method AttachFile(upload: Upload, writes: nat) returns (left: nat, alive: bool)
      requires upload.uri.None?
      modifies this
      ensures Current() == Written(old(Current()), upload.id, if writes < WRITES_PER_FILE then writes else WRITES_PER_FILE)
      ensures alive <==> writes >= WRITES_PER_FILE
      ensures alive ==> left == writes - WRITES_PER_FILE
    {
      left := writes;
      if left == 0 {
        return left, false;
      }
      var id := |fileSets|;
      fileSets := fileSets + [FileSet(None, None)];
      left := left - 1;
      if left == 0 {
        return left, false;
      }
      uris := uris[upload.id := id];
      left := left - 1;
      if left == 0 {
        return left, false;
      }
      var isDerived := upload.id in derived && derived[upload.id];
      fileSets := fileSets[id := fileSets[id].(derived := Some(isDerived))];
      left := left - 1;
      if left == 0 {
        return left, false;
      }
      fileSets := fileSets[id := fileSets[id].(content := Some(upload.id))];
      left := left - 1;
      if left == 0 {
        return left, false;
      }
      attached := attached + [id];
      left := left - 1;
      return left, true;
    }

    method Perform(files: seq<FileId>, writes: nat) returns (completed: bool)
      modifies this
      ensures (Current(), completed) == RunJob(old(Current()), files, writes)
    {
      hide Written;
      var uploads := Load(Current(), files);
      var groups := InGroups(uploads);
      var left := writes;
      var k := 0;
      while k < |groups|
        invariant 0 <= k <= |groups|
        invariant var i := if GROUP_SIZE * k <= |uploads| then GROUP_SIZE * k else |uploads|;
                  RunFrom(old(Current()), uploads, 0, writes) == RunFrom(Current(), uploads, i, left)
      {
        var group := groups[k];
        var j := 0;
        while j < |group|
          invariant 0 <= j <= |group|
          invariant RunFrom(old(Current()), uploads, 0, writes) == RunFrom(Current(), uploads, GROUP_SIZE * k + j, left)
        {
          assert group[j] == uploads[GROUP_SIZE * k + j];
          if group[j].uri.None? {
            left, completed := AttachFile(group[j], left);
            if !completed {
              return;
            }
          }
          j := j + 1;
        }
        k := k + 1;
      }
      completed := true;
    }
  }

  // ---------- a run, position by position ----------

  /** How many of the first `n` files have no uri when the run loads them. */
  function Pending(s: Store, files: seq<FileId>, n: nat): nat
    requires n <= |files|
  {
    if n == 0 then 0 else Pending(s, files, n - 1) + (if files[n - 1] in s.uris then 0 else 1)
  }

  /** The store once the first `n` files are dealt with. */
  function Completed(s: Store, files: seq<FileId>, n: nat): Store
    requires n <= |files|
  {
    if n == 0 then s
    else if files[n - 1] in s.uris then Completed(s, files, n - 1)
    else Written(Completed(s, files, n - 1), files[n - 1], WRITES_PER_FILE)
  }

  lemma {:induction false} PendingGrows(s: Store, files: seq<FileId>, i: nat, j: nat)
    requires i < j <= |files|
    ensures Pending(s, files, i) <= Pending(s, files, j)
    ensures files[i] !in s.uris ==> Pending(s, files, i) < Pending(s, files, j)
  {
    if i + 1 < j {
      PendingGrows(s, files, i, j - 1);
    }
  }

  /** A run deals with the files in order and stops in the middle of the `j`-th, or at the end. */
  lemma {:induction false} RunStopsAt(s: Store, files: seq<FileId>, i: nat, writes: nat) returns (j: nat)
    requires i <= |files| && WRITES_PER_FILE * Pending(s, files, i) <= writes
    ensures i <= j <= |files| && WRITES_PER_FILE * Pending(s, files, j) <= writes
    ensures j < |files| ==> files[j] !in s.uris && writes < WRITES_PER_FILE * (Pending(s, files, j) + 1)
    ensures RunFrom(Completed(s, files, i), Load(s, files), i, writes - WRITES_PER_FILE * Pending(s, files, i)) ==
            if j == |files| then (Completed(s, files, j), true)
            else (Written(Completed(s, files, j), files[j], writes - WRITES_PER_FILE * Pending(s, files, j)), false)
    decreases |files| - i
  {
    hide Written;
    var left := writes - WRITES_PER_FILE * Pending(s, files, i);
    if i == |files| || (files[i] !in s.uris && left < WRITES_PER_FILE) {
      j := i;
    } else {
      j := RunStopsAt(s, files, i + 1, writes);
    }
  }

  // ---------- what a run attaches ----------

  /** The `i`-th file set of the work took its content from `f`. */
  predicate AttachedAt(s: Store, i: nat, f: FileId) {
    i < |s.attached| && s.attached[i] < |s.fileSets| && s.fileSets[s.attached[i]].content == Some(f)
  }

  ghost predicate Attached(s: Store, f: FileId) {
    exists i: nat :: AttachedAt(s, i, f)
  }

  /** No two of the work's file sets come from the same upload. */
  ghost predicate AtMostOnce(s: Store) {
    forall i: nat, j: nat, f :: AttachedAt(s, i, f) && AttachedAt(s, j, f) ==> i == j
  }

  predicate InRange(s: Store) {
    forall i | 0 <= i < |s.attached| :: s.attached[i] < |s.fileSets|
  }

  /** What every run keeps: file sets of the work exist, and an attached upload has a uri. */
  ghost predicate Sound(s: Store) {
    InRange(s) && forall f :: Attached(s, f) ==> f in s.uris
  }

  /** Dealing with the `i`-th file made the work's file set `k`, out of `f`. */
  predicate PutAt(s: Store, files: seq<FileId>, i: nat, k: nat, f: FileId) {
    i < |files| && files[i] == f && f !in s.uris && k == |s.attached| + Pending(s, files, i)
  }

  lemma {:induction false} CompletedAttaches(s: Store, files: seq<FileId>, n: nat, k: nat, f: FileId)
    requires InRange(s) && n <= |files|
    ensures var after := Completed(s, files, n);
            && InRange(after) && |after.attached| == |s.attached| + Pending(s, files, n)
            && (AttachedAt(after, k, f) <==> AttachedAt(s, k, f) || exists i :: 0 <= i < n && PutAt(s, files, i, k, f))
            && (f in after.uris <==> f in s.uris || f in files[..n])
  {
    if n > 0 {
      CompletedAttaches(s, files, n - 1, k, f);
      assert files[..n] == files[..n - 1] + [files[n - 1]];
      WrittenAttaches(Completed(s, files, n - 1), files[n - 1], WRITES_PER_FILE, k, f);
      assert PutAt(s, files, n - 1, k, f) <==>
             files[n - 1] !in s.uris && f == files[n - 1] && k == |s.attached| + Pending(s, files, n - 1);
    }
  }

  lemma WrittenAttaches(s: Store, f: FileId, writes: nat, k: nat, g: FileId)
    requires InRange(s) && writes <= WRITES_PER_FILE
    ensures var after := Written(s, f, writes);
            && InRange(after) && |after.attached| == |s.attached| + (if writes == WRITES_PER_FILE then 1 else 0)
            && (AttachedAt(after, k, g) <==> AttachedAt(s, k, g) || (g == f && k == |s.attached| && writes == WRITES_PER_FILE))
            && (g in after.uris <==> g in s.uris || (g == f && writes >= 2))
  {
  }

  /** The run gets to attach the `i`-th file: it had no uri, and the writes reach that far. */
  predicate Finishes(s: Store, files: seq<FileId>, writes: nat, i: nat) {
    i < |files| && files[i] !in s.uris && WRITES_PER_FILE * (Pending(s, files, i) + 1) <= writes
  }

  /** Where a run stops says which files it finishes and which uris it writes. */
  lemma StopMeans(s: Store, files: seq<FileId>, writes: nat, j: nat, i: nat)
    requires i < |files| && files[i] !in s.uris
    requires j <= |files| && WRITES_PER_FILE * Pending(s, files, j) <= writes
    requires j < |files| ==> files[j] !in s.uris && writes < WRITES_PER_FILE * (Pending(s, files, j) + 1)
    ensures Finishes(s, files, writes, i) <==> i < j
    ensures i > j ==> writes < WRITES_PER_FILE * Pending(s, files, i)
  {
    hide Pending;
    if i < j {
      PendingGrows(s, files, i, j);
    } else if j < i {
      PendingGrows(s, files, j, i);
    }
  }

  /** Exactly what is attached where after a run, stopped or completed, whatever its list of files. */
  lemma RunAttaches(s: Store, files: seq<FileId>, writes: nat, k: nat, f: FileId)
    requires InRange(s)
    ensures InRange(RunJob(s, files, writes).0)
    ensures AttachedAt(RunJob(s, files, writes).0, k, f) <==>
            AttachedAt(s, k, f) || exists i: nat :: Finishes(s, files, writes, i) && PutAt(s, files, i, k, f)
  {
    hide Written, AttachedAt;
    var j := RunStopsAt(s, files, 0, writes);
    CompletedAttaches(s, files, j, k, f);
    if j < |files| {
      WrittenAttaches(Completed(s, files, j), files[j], writes - WRITES_PER_FILE * Pending(s, files, j), k, f);
    }
    forall i: nat | i < |files| && files[i] !in s.uris ensures Finishes(s, files, writes, i) <==> i < j {
      StopMeans(s, files, writes, j, i);
    }
  }

  /** A run completes exactly when it may make all the writes for its files without a uri. */
  lemma RunCompletesExactly(s: Store, files: seq<FileId>, writes: nat)
    ensures RunJob(s, files, writes).1 <==> WRITES_PER_FILE * Pending(s, files, |files|) <= writes
  {
    hide Written, Pending;
    PendingNothing(s, files);
    var j := RunStopsAt(s, files, 0, writes);
    if j < |files| {
      PendingGrows(s, files, j, |files|);
    }
  }

  lemma PendingNothing(s: Store, files: seq<FileId>)
    ensures Pending(s, files, 0) == 0 && Completed(s, files, 0) == s
  {
  }

  /** The run gets to remember the `i`-th file's uri. */
  predicate Remembers(s: Store, files: seq<FileId>, writes: nat, i: nat) {
    i < |files| && files[i] !in s.uris && WRITES_PER_FILE * Pending(s, files, i) + 2 <= writes
  }

  /** Which uris there are after a run. */
  lemma RunRemembers(s: Store, files: seq<FileId>, writes: nat, f: FileId)
    requires InRange(s)
    ensures f in RunJob(s, files, writes).0.uris <==>
            f in s.uris || exists i: nat :: Remembers(s, files, writes, i) && files[i] == f
  {
    hide Written, Pending, InRange;
    PendingNothing(s, files);
    var j := RunStopsAt(s, files, 0, writes);
    CompletedAttaches(s, files, j, 0, f);
    var left := writes - WRITES_PER_FILE * Pending(s, files, j);
    if j < |files| {
      WrittenAttaches(Completed(s, files, j), files[j], left, 0, f);
    }
    forall i: nat | i < |files| && files[i] !in s.uris
      ensures Remembers(s, files, writes, i) <==> i < j || (i == j && left >= 2)
    {
      StopMeans(s, files, writes, j, i);
    }
    assert f in files[..j] <==> exists i: nat :: i < j && files[i] == f;
  }

  /** A run attaches exactly the files it finishes, loses none that were attached, and keeps the store sound. */
  lemma RunJobEffect(s: Store, files: seq<FileId>, writes: nat, f: FileId)
    requires Sound(s)
    ensures var after := RunJob(s, files, writes).0;
            && (Attached(after, f) <==>
                Attached(s, f) || exists i: nat :: Finishes(s, files, writes, i) && files[i] == f)
            && (f in s.uris ==> f in after.uris) && (Attached(after, f) ==> f in after.uris) && InRange(after)
  {
    var after := RunJob(s, files, writes).0;
    RunRemembers(s, files, writes, f);
    RunAttaches(s, files, writes, 0, f);
    if i: nat :| Finishes(s, files, writes, i) && files[i] == f {
      RunAttaches(s, files, writes, |s.attached| + Pending(s, files, i), f);
      assert PutAt(s, files, i, |s.attached| + Pending(s, files, i), f);
    }
    if k: nat :| AttachedAt(s, k, f) {
      RunAttaches(s, files, writes, k, f);
    }
    if k: nat :| AttachedAt(after, k, f) {
      RunAttaches(s, files, writes, k, f);
    }
  }

  lemma RunKeepsSound(s: Store, files: seq<FileId>, writes: nat)
    requires Sound(s)
    ensures Sound(RunJob(s, files, writes).0)
  {
    RunJobEffect(s, files, writes, 0);
    forall f ensures Attached(RunJob(s, files, writes).0, f) ==> f in RunJob(s, files, writes).0.uris {
      RunJobEffect(s, files, writes, f);
    }
  }

  // ---------- at most once ----------

  /** No upload without a uri is listed a second time at a place that the run finishes. */
  ghost predicate NoSecondAttachment(s: Store, files: seq<FileId>, writes: nat) {
    forall i, j: nat | 0 <= i < j && j < |files| && files[i] == files[j] :: !Finishes(s, files, writes, j)
  }

  lemma OnceIfNoSecond(s: Store, files: seq<FileId>, writes: nat)
    requires Sound(s) && AtMostOnce(s) && NoSecondAttachment(s, files, writes)
    ensures AtMostOnce(RunJob(s, files, writes).0)
  {
    hide Finishes, AttachedAt;
    var after := RunJob(s, files, writes).0;
    forall k: nat, l: nat, f | AttachedAt(after, k, f) && AttachedAt(after, l, f) ensures k == l {
      RunAttaches(s, files, writes, k, f);
      RunAttaches(s, files, writes, l, f);
      if i: nat :| Finishes(s, files, writes, i) && PutAt(s, files, i, k, f) {
        assert !AttachedAt(s, l, f);
        var j: nat :| Finishes(s, files, writes, j) && PutAt(s, files, j, l, f);
        assert !(i < j) && !(j < i);
      }
    }
  }

  lemma SecondAttaches(s: Store, files: seq<FileId>, writes: nat, i: nat, j: nat)
    requires Sound(s) && i < j < |files| && files[i] == files[j] && Finishes(s, files, writes, j)
    ensures !AtMostOnce(RunJob(s, files, writes).0)
  {
    hide AttachedAt;
    var base, f := |s.attached|, files[i];
    PendingGrows(s, files, i, j);
    assert PutAt(s, files, i, base + Pending(s, files, i), f) && PutAt(s, files, j, base + Pending(s, files, j), f);
    RunAttaches(s, files, writes, base + Pending(s, files, i), f);
    RunAttaches(s, files, writes, base + Pending(s, files, j), f);
  }

  lemma TwiceStaysTwice(s: Store, files: seq<FileId>, writes: nat)
    requires InRange(s) && AtMostOnce(RunJob(s, files, writes).0)
    ensures AtMostOnce(s)
  {
    hide AttachedAt;
    forall k: nat, l: nat, f | AttachedAt(s, k, f) && AttachedAt(s, l, f) ensures k == l {
      RunAttaches(s, files, writes, k, f);
      RunAttaches(s, files, writes, l, f);
    }
  }

  /**
   * A run, stopped anywhere or completed, leaves every upload attached at most once exactly when that
   * held before and it finishes no second copy of an upload that had no uri when it started.
   */
  lemma AtMostOnceExactly(s: Store, files: seq<FileId>, writes: nat)
    requires Sound(s)
    ensures AtMostOnce(RunJob(s, files, writes).0) <==> AtMostOnce(s) && NoSecondAttachment(s, files, writes)
  {
    if AtMostOnce(s) && NoSecondAttachment(s, files, writes) {
      OnceIfNoSecond(s, files, writes);
    } else if AtMostOnce(RunJob(s, files, writes).0) {
      TwiceStaysTwice(s, files, writes);
      if i, j: nat :| 0 <= i < j && j < |files| && files[i] == files[j] && Finishes(s, files, writes, j) {
        SecondAttaches(s, files, writes, i, j);
      }
    }
  }

  /** Whatever is listed twice had its uri from the start. */
  predicate RepeatsHaveUris(s: Store, files: seq<FileId>) {
    forall i, j | 0 <= i < j < |files| && files[i] == files[j] :: files[i] in s.uris
  }

  /** For a completed run the writes drop out of the condition: every repeated upload must have had its uri. */
  lemma CompletedOnceExactly(s: Store, files: seq<FileId>, writes: nat)
    requires Sound(s) && AtMostOnce(s) && RunJob(s, files, writes).1
    ensures AtMostOnce(RunJob(s, files, writes).0) <==> RepeatsHaveUris(s, files)
  {
    AtMostOnceExactly(s, files, writes);
    RunCompletesExactly(s, files, writes);
    forall i: nat | i < |files| ensures Finishes(s, files, writes, i) <==> files[i] !in s.uris {
      PendingGrows(s, files, i, |files|);
    }
  }

  /** One run of the job over some of the uploads, stopping after that many writes. */
  datatype Run = Run(files: seq<FileId>, writes: nat)

  function RunAll(s: Store, runs: seq<Run>): Store {
    if runs == [] then s
    else RunJob(RunAll(s, runs[..|runs| - 1]), runs[|runs| - 1].files, runs[|runs| - 1].writes).0
  }

  lemma {:induction false} RunsKeepSound(s: Store, runs: seq<Run>)
    requires Sound(s)
    ensures Sound(RunAll(s, runs))
  {
    if runs != [] {
      var n := |runs| - 1;
      RunsKeepSound(s, runs[..n]);
      RunKeepsSound(RunAll(s, runs[..n]), runs[n].files, runs[n].writes);
    }
  }

  /** The `n`-th run attaches nothing a second time. */
  ghost predicate RunIsSafe(s: Store, runs: seq<Run>, n: nat) {
    n < |runs| ==> NoSecondAttachment(RunAll(s, runs[..n]), runs[n].files, runs[n].writes)
  }

  /**
   * Over any sequence of runs that may stop anywhere, no upload is attached twice exactly when none of
   * them finishes a second copy of an upload that was without a uri when that run started.
   */
  lemma {:induction false} NeverAttachedTwiceExactly(s: Store, runs: seq<Run>)
    requires Sound(s)
    ensures AtMostOnce(RunAll(s, runs)) <==> AtMostOnce(s) && forall n: nat :: RunIsSafe(s, runs, n)
  {
    if runs != [] {
      var last := |runs| - 1;
      var before := RunAll(s, runs[..last]);
      NeverAttachedTwiceExactly(s, runs[..last]);
      RunsKeepSound(s, runs[..last]);
      AtMostOnceExactly(before, runs[last].files, runs[last].writes);
      forall n: nat ensures RunIsSafe(s, runs, n) <==>
                            if n == last then NoSecondAttachment(before, runs[n].files, runs[n].writes)
                            else RunIsSafe(s, runs[..last], n)
      {
        if n < last {
          assert runs[..last][..n] == runs[..n];
        }
      }
      assert RunIsSafe(s, runs, last) <==> NoSecondAttachment(before, runs[last].files, runs[last].writes);
    }
  }

  ghost predicate Distinct<T(!new)>(xs: seq<T>) {
    forall i, j | 0 <= i < j < |xs| :: xs[i] != xs[j]
  }

  /** In particular when no run lists an upload twice. */
  lemma NeverAttachedTwice(s: Store, runs: seq<Run>)
    requires Sound(s) && AtMostOnce(s) && forall i | 0 <= i < |runs| :: Distinct(runs[i].files)
    ensures AtMostOnce(RunAll(s, runs))
  {
    NeverAttachedTwiceExactly(s, runs);
  }

  // ---------- attached, or lost ----------

  /** After a completed run a file of it is attached exactly when it had no uri or was attached before. */
  lemma CompletedRunAttaches(s: Store, files: seq<FileId>, writes: nat, f: FileId)
    requires Sound(s) && f in files && RunJob(s, files, writes).1
    ensures Attached(RunJob(s, files, writes).0, f) <==> f !in s.uris || Attached(s, f)
  {
    RunJobEffect(s, files, writes, f);
    RunCompletesExactly(s, files, writes);
    var i :| 0 <= i < |files| && files[i] == f;
    PendingGrows(s, files, i, |files|);
  }

  /** It has a uri, so every run skips it, but it is not attached. */
  ghost predicate Lost(s: Store, f: FileId) {
    f in s.uris && !Attached(s, f)
  }

  /**
   * A run loses a file that had no uri exactly when it stops after the second, third or fourth write for
   * it, of which there are five for every file without a uri that is listed before it.
   */
  lemma LostExactly(s: Store, files: seq<FileId>, writes: nat, i: nat)
    requires Sound(s) && i < |files| && files[i] !in s.uris && files[i] !in files[..i]
    ensures Lost(RunJob(s, files, writes).0, files[i]) <==>
            2 <= writes - WRITES_PER_FILE * Pending(s, files, i) < WRITES_PER_FILE
  {
    var f := files[i];
    RunJobEffect(s, files, writes, f);
    RunRemembers(s, files, writes, f);
    assert Remembers(s, files, writes, i) <==> WRITES_PER_FILE * Pending(s, files, i) + 2 <= writes;
    assert Finishes(s, files, writes, i) <==> WRITES_PER_FILE * (Pending(s, files, i) + 1) <= writes;
    assert forall j | 0 <= j < i :: files[..i][j] == files[j];
    forall j: nat | j < |files| && files[j] == f
      ensures Finishes(s, files, writes, j) ==> Finishes(s, files, writes, i)
      ensures Remembers(s, files, writes, j) ==> Remembers(s, files, writes, i)
    {
      if i < j {
        PendingGrows(s, files, i, j);
      }
    }
  }

  /** The smallest case: the process stops once the uri of its only file is written. */
  lemma StoppedRunLoses(s: Store, f: FileId)
    requires Sound(s) && f !in s.uris
    ensures Lost(RunJob(s, [f], 2).0, f)
  {
    assert [f][..0] == [] && Pending(s, [f], 0) == 0;
    LostExactly(s, [f], 2, 0);
  }

  /** A lost file is never attached again. */
  lemma {:induction false} LostForever(s: Store, runs: seq<Run>, f: FileId)
    requires Sound(s) && Lost(s, f)
    ensures Lost(RunAll(s, runs), f)
  {
    if runs != [] {
      var n := |runs| - 1;
      LostForever(s, runs[..n], f);
      RunsKeepSound(s, runs[..n]);
      RunJobEffect(RunAll(s, runs[..n]), runs[n].files, runs[n].writes, f);
    }
  }

  /** The smallest case: an upload without a uri that is listed twice is attached twice. */
  lemma ListedTwiceAttachedTwice(s: Store, f: FileId)
    requires Sound(s) && f !in s.uris
    ensures var (after, completed) := RunJob(s, [f, f], 2 * WRITES_PER_FILE);
            completed && !AtMostOnce(after)
  {
    var files := [f, f];
    assert Pending(s, files, 2) == Pending(s, files, 1) + 1 == Pending(s, files, 0) + 2;
    RunCompletesExactly(s, files, 2 * WRITES_PER_FILE);
    SecondAttaches(s, files, 2 * WRITES_PER_FILE, 0, 1);
  }

  // ---------- what the file sets hold ----------

  /** Content comes from the upload that remembers the file set, and is flagged as that upload is. */
  predicate ContentRemembered(s: Store, j: nat) {
    j < |s.fileSets| && s.fileSets[j].content.Some? ==>
      var f := s.fileSets[j].content.value;
      f in s.uris && s.uris[f] == j && s.fileSets[j].derived == Some(f in s.derived && s.derived[f])
  }

  predicate UriExists(s: Store, f: FileId) {
    f in s.uris ==> s.uris[f] < |s.fileSets|
  }

  ghost predicate Consistent(s: Store) {
    && (forall j: nat :: ContentRemembered(s, j)) && (forall f: FileId :: UriExists(s, f))
    && InRange(s) && Distinct(s.attached)
  }

  /** A consistent store is sound, and its uploads are attached at most once. */
  lemma ConsistentIsSound(s: Store)
    requires Consistent(s)
    ensures Sound(s) && AtMostOnce(s)
  {
    forall i: nat, f | AttachedAt(s, i, f) ensures f in s.uris && s.uris[f] == s.attached[i] {
      assert ContentRemembered(s, s.attached[i]);
    }
  }

  lemma WrittenConsistent(s: Store, f: FileId, k: nat)
    requires Consistent(s) && f !in s.uris && k <= WRITES_PER_FILE
    ensures Consistent(Written(s, f, k))
  {
    var after := Written(s, f, k);
    forall j: nat ensures ContentRemembered(after, j) {
      assert ContentRemembered(s, j);
    }
    forall g: FileId ensures UriExists(after, g) {
      assert UriExists(s, g);
    }
  }

  lemma {:induction false} CompletedConsistent(s: Store, files: seq<FileId>, n: nat)
    requires Consistent(s) && n <= |files| && RepeatsHaveUris(s, files)
    ensures Consistent(Completed(s, files, n))
    ensures n < |files| && files[n] !in s.uris ==> files[n] !in Completed(s, files, n).uris
  {
    if n > 0 {
      CompletedConsistent(s, files, n - 1);
      if files[n - 1] !in s.uris {
        WrittenConsistent(Completed(s, files, n - 1), files[n - 1], WRITES_PER_FILE);
      }
    }
    if n < |files| {
      CompletedAttaches(s, files, n, 0, files[n]);
    }
  }

  /**
   * Runs that repeat no upload without a uri keep every file set with its upload, whole or in part, and
   * so every upload attached at most once.
   */
  lemma RunKeepsConsistent(s: Store, files: seq<FileId>, writes: nat)
    requires Consistent(s) && RepeatsHaveUris(s, files)
    ensures var after := RunJob(s, files, writes).0; Consistent(after) && Sound(after) && AtMostOnce(after)
  {
    hide Written, Consistent, Sound, AtMostOnce;
    PendingNothing(s, files);
    var j := RunStopsAt(s, files, 0, writes);
    CompletedConsistent(s, files, j);
    if j < |files| {
      WrittenConsistent(Completed(s, files, j), files[j], writes - WRITES_PER_FILE * Pending(s, files, j));
    }
    ConsistentIsSound(RunJob(s, files, writes).0);
  }
}
