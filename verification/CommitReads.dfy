/** What group commit promises to writers and readers, over every run. */
module CommitReads {
  import opened InternalKeys
  import opened Operations
  import opened Manifest
  import opened StateMachine
  import opened Safety
  import opened GroupCommit

  ghost predicate CommitSteps(a: Commit, b: Commit) {
    exists step :: CommitNext(a, b, step)
  }

  ghost predicate CommitRun(run: seq<Commit>) {
    && run != [] && CommitInit(run[0])
    && forall i :: 0 <= i < |run| - 1 ==> CommitSteps(run[i], run[i + 1])
  }

  lemma {:induction false} CommitRunKeepsInv(run: seq<Commit>, i: nat)
    requires CommitRun(run) && i < |run|
    ensures CommitInv(run[i])
    decreases i
  {
    hide CommitInv, CommitNext;
    if i == 0 {
      CommitStarts(run[0]);
    } else {
      CommitRunKeepsInv(run, i - 1);
      assert CommitSteps(run[i - 1], run[i - 1 + 1]);
      var step :| CommitNext(run[i - 1], run[i], step);
      CommitStepKeeps(run[i - 1], run[i], step);
    }
  }

  // ----- The store under group commit -----

  /** The states that the store goes through in a run of group commit, without the pauses. */
  ghost function StoreRun(run: seq<Commit>): (r: seq<Sys>)
    requires run != []
    ensures r != [] && r[|r| - 1] == run[|run| - 1].sys
  {
    var n := |run| - 1;
    if n == 0 then [run[0].sys]
    else
      var before := StoreRun(run[..n]);
      if run[n].sys == before[|before| - 1] then before else before + [run[n].sys]
  }

  /** Where in its run the store is at a point of the run of group commit. */
  ghost function StoreIndex(run: seq<Commit>, i: nat): nat
    requires i < |run|
  {
    |StoreRun(run[..i + 1])| - 1
  }

  lemma StepIsStoreStep(a: Commit, b: Commit)
    requires CommitSteps(a, b)
    ensures b.sys == a.sys || Steps(a.sys, b.sys)
  {
    hide Next;
    var step :| CommitNext(a, b, step);
    match step
    case Finish => assert Next(a.sys, b.sys, Publish(|a.leader.value.ops|));
    case _ =>
  }

  lemma {:induction false} StoreRunIsRun(run: seq<Commit>)
    requires CommitRun(run)
    ensures Run(StoreRun(run))
  {
    hide CommitRun, CommitSteps, Steps, Init, Run;
    var n := |run| - 1;
    NotEmpty(run);
    if n > 0 {
      RunPrefix(run, n - 1);
      assert run[..n - 1 + 1] == run[..n];
      StoreRunIsRun(run[..n]);
      LastStep(run);
      var before := StoreRun(run[..n]);
      if run[n].sys != before[|before| - 1] {
        RunGoesOn(before, run[n].sys);
      }
    } else {
      FirstIsInit(run);
      OneIsRun(run[0].sys);
    }
  }

  lemma NotEmpty(run: seq<Commit>)
    requires CommitRun(run)
    ensures run != []
  {
    hide CommitSteps, CommitInit;
  }

  lemma LastStep(run: seq<Commit>)
    requires CommitRun(run) && |run| > 1
    ensures run[|run| - 1].sys == run[|run| - 2].sys || Steps(run[|run| - 2].sys, run[|run| - 1].sys)
  {
    hide CommitSteps, CommitInit, Steps;
    var n := |run| - 2;
    assert CommitSteps(run[n], run[n + 1]);
    StepIsStoreStep(run[n], run[n + 1]);
  }

  lemma OneIsRun(a: Sys)
    requires Init(a)
    ensures Run([a])
  {
    hide Init, Steps;
  }

  lemma RunGoesOn(run: seq<Sys>, b: Sys)
    requires Run(run) && run != [] && Steps(run[|run| - 1], b)
    ensures Run(run + [b])
  {
    hide Init, Steps;
  }

  lemma FirstIsInit(run: seq<Commit>)
    requires CommitRun(run)
    ensures Init(run[0].sys)
  {
    hide CommitNext;
  }

  lemma RunPrefix(run: seq<Commit>, i: nat)
    requires CommitRun(run) && i < |run|
    ensures CommitRun(run[..i + 1])
  {
    hide CommitNext, CommitInit;
    var front := run[..i + 1];
    forall j | 0 <= j < |front| - 1
      ensures CommitSteps(front[j], front[j + 1])
    {
      assert front[j] == run[j] && front[j + 1] == run[j + 1];
    }
  }

  lemma {:induction false} StoreRunGrows(run: seq<Commit>, i: nat)
    requires i < |run|
    ensures StoreRun(run[..i + 1]) <= StoreRun(run)
    decreases |run|
  {
    var n := |run| - 1;
    if i == n {
      assert run[..i + 1] == run;
    } else {
      StoreRunGrows(run[..n], i);
      assert run[..n][..i + 1] == run[..i + 1];
    }
  }

  /** Refinement: what the store does under group commit, with the pauses left out, is a run of the store. So
      whatever holds of all runs of the store holds of all interleavings. */
  lemma CommitRefinesStore(run: seq<Commit>, i: nat, j: nat)
    requires CommitRun(run) && i <= j < |run|
    ensures Run(StoreRun(run))
    ensures StoreIndex(run, i) <= StoreIndex(run, j) < |StoreRun(run)|
    ensures run[i].sys == StoreRun(run)[StoreIndex(run, i)] && run[j].sys == StoreRun(run)[StoreIndex(run, j)]
  {
    hide CommitRun, Run, StoreRun;
    StoreRunIsRun(run);
    StoreRunGrows(run, i);
    StoreRunGrows(run, j);
    StoreRunGrows(run[..j + 1], i);
    assert run[..j + 1][..i + 1] == run[..i + 1];
  }

  /** Reads at live snapshots survive every interleaving of writers and background work. */
  lemma CommitsKeepReads(run: seq<Commit>, i: nat, k: Key, s: nat)
    requires CommitRun(run) && i < |run| && Readable(run[i].sys, s)
    ensures Read(Store(run[i].sys.db), k, s) == Read(run[i].sys.history, k, s)
  {
    hide *;
    CommitRefinesStore(run, i, i);
    ReadsSurvive(StoreRun(run), StoreIndex(run, i), k, s);
  }

  /** And snapshots read the same as long as they live. */
  lemma CommitsKeepSnapshots(run: seq<Commit>, i: nat, j: nat, k: Key, s: nat)
    requires CommitRun(run) && i <= j < |run| && Readable(run[i].sys, s) && Readable(run[j].sys, s)
    ensures Read(Store(run[i].sys.db), k, s) == Read(Store(run[j].sys.db), k, s)
  {
    hide *;
    CommitRefinesStore(run, i, j);
    SnapshotsAreStable(StoreRun(run), StoreIndex(run, i), StoreIndex(run, j), k, s);
  }

  /** And the manifest replays to the current version at every point. */
  lemma CommitsKeepManifest(run: seq<Commit>, i: nat)
    requires CommitRun(run) && i < |run|
    ensures AddedOnce(Additions(run[i].sys.manifest))
    ensures run[i].sys.db.levels == Running(EMPTY_VERSION, run[i].sys.manifest)
  {
    hide *;
    CommitRefinesStore(run, i, i);
    ManifestAlwaysReplays(StoreRun(run), StoreIndex(run, i));
  }

  // ----- Reads -----

  lemma {:induction false} AfterConcat(a: seq<Op>, b: seq<Op>, k: Key, before: Option<string>)
    ensures AfterOps(a + b, k, before) == AfterOps(b, k, AfterOps(a, k, before))
    decreases |b|
  {
    if b == [] {
      assert a + b == a;
    } else {
      var n := |b| - 1;
      assert (a + b)[..|a| + n] == a + b[..n];
      assert (a + b)[|a| + n] == b[n];
      AfterConcat(a, b[..n], k, before);
    }
  }

  /** Reads above every sequence number in use all see the same. */
  lemma ReadAbove(E: set<Entry>, k: Key, last: nat, s: nat)
    requires UniqueSeqs(E) && last <= s && forall e :: e in E ==> e.Seq() <= last
    ensures Read(E, k, s) == Read(E, k, last)
  {
    hide Read;
    var n := NewestExists(E, k, last);
    if n.Some? {
      assert NewestAt(E, k, s, n.value);
      ReadIsNewest(E, k, last, n.value);
      ReadIsNewest(E, k, s, n.value);
    } else {
      ReadIsNothing(E, k, last);
      ReadIsNothing(E, k, s);
    }
  }

  ghost predicate Bounded(E: set<Entry>, last: nat) {
    UniqueSeqs(E) && forall e :: e in E ==> e.Seq() <= last
  }

  /** The entries of a batch, written above everything stored, act as its operations in order. */
  lemma {:induction false} BatchActs(E: set<Entry>, ops: seq<Op>, last: nat, n: nat)
    requires Bounded(E, last) && n <= |ops|
    ensures Bounded(E + EntriesOf(ops[..n], last + 1), last + n)
    ensures forall k :: Read(E + EntriesOf(ops[..n], last + 1), k, last + n) == AfterOps(ops[..n], k, Read(E, k, last))
    ensures forall k, s: nat :: s <= last ==> Read(E + EntriesOf(ops[..n], last + 1), k, s) == Read(E, k, s)
    decreases n
  {
    hide Read, EntriesOf, AfterOps;
    if n == 0 {
      NoOps(E, last);
      assert E + {} == E;
    } else {
      BatchActs(E, ops, last, n - 1);
      var before := E + EntriesOf(ops[..n - 1], last + 1);
      var e := EntryOf(ops[n - 1], last + n);
      OneMoreOp(E, before, ops, n - 1, last);
      assert before + {e} == E + EntriesOf(ops[..n], last + 1);
    }
  }

  /** Replaying the successful groups in order gives what a read of their entries gives. */
  lemma {:induction false} GroupsAct(groups: seq<Group>)
    requires Chained(groups)
    ensures NextNumber(groups) >= 1 && Bounded(GroupEntries(groups), NextNumber(groups) - 1)
    ensures forall k :: Read(GroupEntries(groups), k, NextNumber(groups) - 1) == AfterOps(GroupOps(groups), k, None)
  {
    hide Read, EntriesOf, AfterOps;
    if groups == [] {
      EmptyReads();
    } else {
      var n := |groups| - 1;
      var g, init := groups[n], groups[..n];
      ChainedFront(groups);
      GroupsAct(init);
      var E, last := GroupEntries(init), NextNumber(init) - 1;
      forall k
        ensures Read(GroupEntries(groups), k, NextNumber(groups) - 1) == AfterOps(GroupOps(groups), k, None)
      {
        if g.ok {
          BatchActs(E, g.ops, last, |g.ops|);
          assert g.ops[..|g.ops|] == g.ops;
          AfterConcat(GroupOps(init), g.ops, k, None);
        } else {
          ReadAbove(E, k, last, NextNumber(groups) - 1);
          assert E + {} == E && GroupOps(init) + [] == GroupOps(init);
        }
      }
      if g.ok {
        BatchActs(E, g.ops, last, |g.ops|);
        assert g.ops[..|g.ops|] == g.ops;
      }
    }
  }

  lemma EmptyReads()
    ensures forall k, s :: Read({}, k, s) == None
    ensures forall k :: AfterOps([], k, None) == None
  {
    forall k, s: nat
      ensures Read({}, k, s) == None
    {
      ReadIsNothing({}, k, s);
    }
  }

  lemma ChainedFront(groups: seq<Group>)
    requires groups != [] && Chained(groups)
    ensures Chained(groups[..|groups| - 1]) && groups[|groups| - 1].first == NextNumber(groups[..|groups| - 1])
  {
    hide NextNumber;
    assert forall i :: 0 <= i < |groups| - 1 ==> groups[..|groups| - 1][..i] == groups[..i];
  }

  lemma EntriesAreAbove(ops: seq<Op>, first: nat)
    ensures forall e :: e in EntriesOf(ops, first) ==> first <= e.Seq() < first + |ops|
  {
  }

  /** The entries below the end of some first groups are those groups' entries. */
  lemma {:induction false} PrefixEntries(groups: seq<Group>, j: nat)
    requires Chained(groups) && j <= |groups|
    ensures Chained(groups[..j]) && NextNumber(groups[..j]) <= NextNumber(groups)
    ensures GroupEntries(groups[..j]) <= GroupEntries(groups)
    ensures forall e :: e in GroupEntries(groups) && e.Seq() < NextNumber(groups[..j]) ==> e in GroupEntries(groups[..j])
  {
    hide EntriesOf;
    if j == |groups| {
      assert groups[..j] == groups;
    } else {
      var n := |groups| - 1;
      ChainedFront(groups);
      PrefixEntries(groups[..n], j);
      assert groups[..n][..j] == groups[..j];
      EntriesAreAbove(groups[n].ops, groups[n].first);
    }
  }

  /** Sequence numbers are never reused: the entries of two groups have different ones. */
  lemma NumbersNeverReused(groups: seq<Group>, i: nat, j: nat)
    requires Chained(groups) && i < j < |groups|
    ensures groups[i].first + |groups[i].ops| <= groups[j].first
  {
    hide GroupEntries, Chained, NextNumber;
    PrefixEntries(groups, j);
    PrefixEntries(groups[..j], i + 1);
    assert groups[..j][..i + 1] == groups[..i + 1];
    StartsAfter(groups, j);
    EndsBefore(groups[..i + 1]);
  }

  lemma StartsAfter(groups: seq<Group>, j: nat)
    requires Chained(groups) && j < |groups|
    ensures groups[j].first == NextNumber(groups[..j])
  {
    hide NextNumber;
  }

  lemma EndsBefore(groups: seq<Group>)
    requires groups != []
    ensures NextNumber(groups) == groups[|groups| - 1].first + |groups[|groups| - 1].ops|
  {
  }

  /** A read at the end of some first groups replays exactly those groups. */
  lemma ReadAtBoundary(c: Commit, s: nat, j: nat, k: Key)
    requires NumberInv(c) && UniqueSeqs(c.sys.history) && j <= |c.groups| && s + 1 == NextNumber(c.groups[..j])
    ensures Read(c.sys.history, k, s) == AfterOps(GroupOps(c.groups[..j]), k, None)
  {
    hide Read, EntriesOf, GroupEntries, AfterOps, Chained, NextNumber;
    PrefixEntries(c.groups, j);
    GroupsAct(c.groups[..j]);
    PartialIsAbove(c);
    ReadSame(c.sys.history, GroupEntries(c.groups[..j]), k, s);
  }

  lemma PartialIsAbove(c: Commit)
    ensures forall e :: e in Partial(c) ==> e.Seq() > c.sys.db.lastSequence
  {
  }

  /** Atomicity and order: a read at any live snapshot sees exactly the batches that were acknowledged up
      to some point of the queue, each as a whole, applied in queue order. */
  lemma ReadsSeeWholeBatches(run: seq<Commit>, i: nat, s: nat)
    requires CommitRun(run) && i < |run| && Readable(run[i].sys, s)
    ensures |run[i].outcomes| <= |run[i].requests|
    ensures exists n :: 0 <= n <= |run[i].outcomes| && SeesUpTo(run[i], s, n)
  {
    hide CommitRun, CommitInv, SeesUpTo;
    CommitRunKeepsInv(run, i);
    SeesWholeBatches(run[i], s);
  }

  lemma SeesWholeBatches(c: Commit, s: nat)
    requires CommitInv(c) && Readable(c.sys, s)
    ensures |c.outcomes| <= |c.requests|
    ensures exists n :: 0 <= n <= |c.outcomes| && SeesUpTo(c, s, n)
  {
    hide CommitInv, SeesUpTo, AtBoundary;
    BoundaryOf(c, s);
    QueueFacts(c);
    var j := BoundaryIndex(c.groups, s);
    SeesGroups(c, s, j, EndOf(c.groups[..j]));
  }

  /** A reader of the present sees every acknowledged batch. */
  lemma PresentSeesAcknowledged(run: seq<Commit>, i: nat)
    requires CommitRun(run) && i < |run|
    ensures |run[i].outcomes| <= |run[i].requests|
    ensures SeesUpTo(run[i], run[i].sys.db.lastSequence, |run[i].outcomes|)
  {
    hide CommitRun, CommitInv, SeesUpTo;
    CommitRunKeepsInv(run, i);
    PresentSeesAll(run[i]);
  }

  lemma PresentSeesAll(c: Commit)
    requires CommitInv(c)
    ensures |c.outcomes| <= |c.requests|
    ensures SeesUpTo(c, c.sys.db.lastSequence, |c.outcomes|)
  {
    hide CommitInv;
    QueueFacts(c);
    assert c.groups[..|c.groups|] == c.groups && c.outcomes[..|c.outcomes|] == c.outcomes;
    SeesGroups(c, c.sys.db.lastSequence, |c.groups|, |c.outcomes|);
  }

  ghost predicate SeesUpTo(c: Commit, s: nat, n: nat)
    requires n <= |c.outcomes| <= |c.requests|
  {
    forall k :: Read(Store(c.sys.db), k, s) == AfterOps(Acknowledged(c.requests, c.outcomes[..n]), k, None)
  }

  lemma SeesGroups(c: Commit, s: nat, j: nat, n: nat)
    requires CommitInv(c) && Readable(c.sys, s) && j <= |c.groups| && s + 1 == NextNumber(c.groups[..j])
    requires n <= |c.outcomes| <= |c.requests|
    requires GroupOps(c.groups[..j]) == Acknowledged(c.requests, c.outcomes[..n])
    ensures SeesUpTo(c, s, n)
  {
    hide Inv, Read, NumberInv, LogInv, QueueInv, ReplayInv, BoundaryInv, GroupOps, Acknowledged, AfterOps, NextNumber;
    HistoryIsUnique(c.sys);
    forall k
      ensures Read(Store(c.sys.db), k, s) == AfterOps(Acknowledged(c.requests, c.outcomes[..n]), k, None)
    {
      ReadableIsExact(c.sys, k, s);
      ReadAtBoundary(c, s, j, k);
    }
  }

  lemma BoundaryOf(c: Commit, s: nat)
    requires CommitInv(c) && Readable(c.sys, s)
    ensures AtBoundary(s, c.groups)
  {
    hide Inv, LogInv, QueueInv, ReplayInv, NextNumber, GroupEntries, Chained, Partial, AtBoundary;
    if s == c.sys.db.lastSequence {
      assert c.groups[..|c.groups|] == c.groups;
      EndIsBoundary(s, c.groups);
    } else {
      var i :| 0 <= i < |c.sys.db.snapshots| && c.sys.db.snapshots[i] == s;
    }
  }

  lemma BoundaryIndex(groups: seq<Group>, s: nat) returns (j: nat)
    requires AtBoundary(s, groups)
    ensures j <= |groups| && s + 1 == NextNumber(groups[..j])
  {
    j :| 0 <= j <= |groups| && s + 1 == NextNumber(groups[..j]);
  }

  lemma EndIsBoundary(s: nat, groups: seq<Group>)
    requires s + 1 == NextNumber(groups)
    ensures AtBoundary(s, groups)
  {
    hide NextNumber;
    assert groups[..|groups|] == groups;
  }

  lemma QueueFacts(c: Commit)
    requires CommitInv(c)
    ensures |c.outcomes| <= |c.requests|
    ensures c.sys.db.lastSequence + 1 == NextNumber(c.groups)
    ensures GroupOps(c.groups) == Acknowledged(c.requests, c.outcomes)
    ensures forall i :: 0 <= i <= |c.groups| ==>
              && EndOf(c.groups[..i]) <= |c.outcomes|
              && GroupOps(c.groups[..i]) == Acknowledged(c.requests, c.outcomes[..EndOf(c.groups[..i])])
  {
    hide Inv, LogInv, BoundaryInv, NextNumber, GroupEntries, Chained, Partial, GroupOps, Acknowledged, Served;
  }

  // ----- Writers -----

  lemma StepKeepsOutcomes(a: Commit, b: Commit)
    requires CommitSteps(a, b)
    ensures a.outcomes <= b.outcomes && a.requests <= b.requests && a.groups <= b.groups && a.log <= b.log
  {
    hide Next;
    var step :| CommitNext(a, b, step);
  }

  /** What writers were told is final: along a run, requests, outcomes, groups and log records only join at
      the end. */
  lemma {:induction false} OutcomesAreFinal(run: seq<Commit>, i: nat, j: nat)
    requires CommitRun(run) && i <= j < |run|
    ensures run[i].outcomes <= run[j].outcomes && run[i].requests <= run[j].requests
    ensures run[i].groups <= run[j].groups && run[i].log <= run[j].log
    decreases j
  {
    hide CommitNext;
    if i < j {
      OutcomesAreFinal(run, i, j - 1);
      assert CommitSteps(run[j - 1], run[j - 1 + 1]);
      StepKeepsOutcomes(run[j - 1], run[j]);
    }
  }

  function LogOps(log: seq<Record>): seq<Op> {
    if log == [] then [] else LogOps(log[..|log| - 1]) + log[|log| - 1].ops
  }

  lemma {:induction false} LoggedGroups(groups: seq<Group>)
    ensures LogOps(LogOf(groups)) == GroupOps(groups)
  {
    if groups != [] {
      var n := |groups| - 1;
      LoggedGroups(groups[..n]);
      var before, g := LogOf(groups[..n]), groups[n];
      if g.ok {
        assert (before + [Record(g.first, g.ops)])[..|before|] == before;
      } else {
        assert before + [] == before;
      }
    }
  }

  /** Durability order: the log starts with every acknowledged operation, in queue order, and holds at most
      one more group. Between groups it holds exactly the acknowledged operations unless a sync has failed
      under a group that has any. */
  lemma AcknowledgedIsLogged(run: seq<Commit>, i: nat)
    requires CommitRun(run) && i < |run|
    ensures |run[i].outcomes| <= |run[i].requests|
    ensures exists extra :: LogOps(run[i].log) == Acknowledged(run[i].requests, run[i].outcomes) + extra
    ensures run[i].leader.None? && run[i].poisoned ==> run[i].groups != []
    ensures run[i].leader.None? ==>
              (LogOps(run[i].log) == Acknowledged(run[i].requests, run[i].outcomes) <==>
               !run[i].poisoned || run[i].groups[|run[i].groups| - 1].ops == [])
  {
    hide CommitRun, CommitInv, LogOps, Acknowledged;
    var c := run[i];
    CommitRunKeepsInv(run, i);
    QueueFacts(c);
    LoggedGroups(c.groups);
    LogFacts(c);
    if c.log == LogOf(c.groups) {
      assert LogOps(c.log) == Acknowledged(c.requests, c.outcomes) + [];
    } else {
      LastRecord(LogOf(c.groups), c.log);
      assert LogOps(c.log) == Acknowledged(c.requests, c.outcomes) + c.log[|LogOf(c.groups)|].ops;
      if c.leader.None? {
        assert |LogOps(c.log)| == |Acknowledged(c.requests, c.outcomes)| + |c.groups[|c.groups| - 1].ops|;
      }
    }
  }

  lemma LogFacts(c: Commit)
    requires CommitInv(c)
    ensures LogOf(c.groups) <= c.log && |c.log| <= |LogOf(c.groups)| + 1
    ensures c.leader.None? && !c.poisoned ==> c.log == LogOf(c.groups)
    ensures c.leader.None? && c.poisoned ==>
              c.groups != [] && c.log == LogOf(c.groups) + [Unsure(c)] && Unsure(c).ops == c.groups[|c.groups| - 1].ops
  {
    hide Inv, NumberInv, QueueInv, ReplayInv, BoundaryInv, LogOf;
  }

  lemma LastRecord(before: seq<Record>, log: seq<Record>)
    requires before <= log && |log| == |before| + 1
    ensures LogOps(log) == LogOps(before) + log[|before|].ops
  {
    assert log[..|before|] == before;
  }

  // ----- A failed sync -----

  const WRITE := Request(Some([Put(1, "v")]), 20, true)

  const START := Commit(Sys(Db([], None, EMPTY_VERSION, 0, 0, [], 4, None), {}, 0, FIRST_EDITS), [], [], [], None, [], false)
  const QUEUED := START.(requests := [WRITE])
  const LEADING := QUEUED.(leader := Some(Leader(1, [Put(1, "v")], Unwritten)))
  const UNSYNCED := LEADING.(leader := Some(Leader(1, [Put(1, "v")], LogResult.Unsynced)), poisoned := true,
                             log := [Record(1, [Put(1, "v")])])
  const TOLD := UNSYNCED.(sys := START.sys.(db := START.sys.db.(lastSequence := 1)), leader := None,
                          outcomes := [false], groups := [Group(1, 0, 1, [Put(1, "v")], false)])

  /** A run that ends with a log that holds more than was acknowledged: one sync write, whose record was
      appended and whose sync failed. */
  lemma FailedSyncRun()
    ensures CommitRun([START, QUEUED, LEADING, UNSYNCED, TOLD])
    ensures Acknowledged(TOLD.requests, TOLD.outcomes) == [] && LogOps(TOLD.log) == [Put(1, "v")]
  {
    assert [false][..0] == [] && TOLD.log[..0] == [];
    FailedSyncStarts();
    FailedSyncEnds();
    hide CommitSteps, CommitInit;
    var run := [START, QUEUED, LEADING, UNSYNCED, TOLD];
    assert run[0] == START && run[1] == QUEUED && run[2] == LEADING && run[3] == UNSYNCED && run[4] == TOLD;
  }

  lemma FailedSyncStarts()
    ensures CommitInit(START) && CommitSteps(START, QUEUED) && CommitSteps(QUEUED, LEADING)
  {
    hide IsGroup, Batches;
    QueueOfOne();
    assert CommitNext(START, QUEUED, Enqueue(WRITE));
    assert CommitNext(QUEUED, LEADING, Lead(1));
  }

  lemma FailedSyncEnds()
    ensures CommitSteps(LEADING, UNSYNCED) && CommitSteps(UNSYNCED, TOLD)
  {
    hide IsGroup, Batches;
    QueueOfOne();
    assert CommitNext(LEADING, UNSYNCED, AppendLog(LogResult.Unsynced));
    assert Repeat(false, 1) == [false];
    assert CommitNext(UNSYNCED, TOLD, Finish);
  }

  lemma QueueOfOne()
    ensures Queue(QUEUED) == [WRITE] && IsGroup([WRITE], 1) && Batches([WRITE][..1]) == [Put(1, "v")]
  {
    assert [WRITE][..1] == [WRITE];
    FrontOfQueue([WRITE]);
  }
}
