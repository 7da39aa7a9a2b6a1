/** Group commit (db/db_impl.cc: Write, BuildBatchGroup) on top of the running store: writers queue up,
    the front one logs and applies a group while others enqueue, read, take snapshots and do background
    work. Every read sees exactly a prefix of the acknowledged batches, in queue order. */
module GroupCommit {
  import opened InternalKeys
  import opened Operations
  import opened StateMachine
  import opened Safety

  /** A queued writer. The batch is missing when a compaction only wants a memtable switch; `bytes` is
      the size of the batch's representation. */
  datatype Request = Request(batch: Option<seq<Op>>, bytes: nat, sync: bool)

  /** A finished group: the requests it served, the sequence number of its first operation, and whether
      its writers were told it succeeded. */
  datatype Group = Group(first: nat, from: nat, to: nat, ops: seq<Op>, ok: bool)

  datatype LogResult = Unwritten | Failed | Unsynced | Logged

  /** The group at work: it serves the queue up to `to`. */
  datatype Leader = Leader(to: nat, ops: seq<Op>, result: LogResult)

  datatype Record = Record(first: nat, ops: seq<Op>)

  /** The requests ever made, in queue order; those popped so far have an outcome. `poisoned` is the
      background error that a failed sync leaves. */
  datatype Commit = Commit(sys: Sys, requests: seq<Request>, outcomes: seq<bool>, groups: seq<Group>,
                           leader: Option<Leader>, log: seq<Record>, poisoned: bool)

  function BatchOf(r: Request): seq<Op> {
    if r.batch.Some? then r.batch.value else []
  }

  /** The operations of some requests, in order. */
  function Batches(q: seq<Request>): seq<Op> {
    if q == [] then [] else Batches(q[..|q| - 1]) + BatchOf(q[|q| - 1])
  }

  function TotalBytes(q: seq<Request>): nat {
    if q == [] then 0
    else TotalBytes(q[..|q| - 1]) + if q[|q| - 1].batch.Some? then q[|q| - 1].bytes else 0
  }

  // ----- BuildBatchGroup -----

  const ONE_MEGABYTE := 0x10_0000
  const SMALL := 0x2_0000

  function MaxSize(first: Request): nat {
    if first.bytes <= SMALL then first.bytes + SMALL else ONE_MEGABYTE
  }

  /** A request that must not join the group of the requests before it. */
  predicate StaysOut(q: seq<Request>, i: nat)
    requires i < |q|
  {
    || (q[i].sync && !q[0].sync)
    || (q[i].batch.Some? && TotalBytes(q[..i + 1]) > MaxSize(q[0]))
  }

  /** The group is everything from the front up to the first request that stays out. */
  ghost predicate IsGroup(q: seq<Request>, n: nat) {
    && 1 <= n <= |q|
    && (forall i :: 1 <= i < n ==> !StaysOut(q, i))
    && (n < |q| ==> StaysOut(q, n))
  }

  lemma OnlyOneGroup(q: seq<Request>, n: nat, m: nat)
    requires IsGroup(q, n) && IsGroup(q, m)
    ensures n == m
  {
    hide StaysOut;
  }

  lemma FrontOfQueue(q: seq<Request>)
    requires q != [] && q[0].batch.Some?
    ensures TotalBytes(q[..1]) == q[0].bytes && Batches(q[..1]) == q[0].batch.value
  {
    assert q[..1][..0] == [];
  }

  lemma NextInQueue(q: seq<Request>, i: nat)
    requires i < |q|
    ensures TotalBytes(q[..i + 1]) == TotalBytes(q[..i]) + if q[i].batch.Some? then q[i].bytes else 0
    ensures Batches(q[..i + 1]) == Batches(q[..i]) + if q[i].batch.Some? then q[i].batch.value else []
    ensures StaysOut(q, i) <==>
              (q[i].sync && !q[0].sync) || (q[i].batch.Some? && TotalBytes(q[..i + 1]) > MaxSize(q[0]))
  {
    assert q[..i + 1][..i] == q[..i];
  }

  /** DBImpl::BuildBatchGroup: how many writers the group has, and the merged batch. */
  method BuildBatchGroup(q: seq<Request>) returns (count: nat, ops: seq<Op>)
    requires q != [] && q[0].batch.Some?
    ensures IsGroup(q, count) && ops == Batches(q[..count])
    ensures forall i :: 0 <= i < count && q[i].sync ==> q[0].sync
    // A small write waits for at most 128 KB of others, and no group grows beyond 1 MB.
    ensures q[0].bytes <= 131072 ==> TotalBytes(q[..count]) <= q[0].bytes + 131072
    ensures q[0].bytes > 131072 && count > 1 ==> TotalBytes(q[..count]) <= 1048576 || TotalBytes(q[..count]) == q[0].bytes
    ensures count < |q| && (q[count].sync ==> q[0].sync) ==>
              && q[count].batch.Some?
              && TotalBytes(q[..count]) + q[count].bytes
                 > if q[0].bytes <= 131072 then q[0].bytes + 131072 else 1048576
  {
    hide TotalBytes, Batches, StaysOut;
    var size := q[0].bytes;
    var maxSize := ONE_MEGABYTE;
    if size <= SMALL {
      maxSize := size + SMALL;
    }
    ops := q[0].batch.value;
    count := 1;
    FrontOfQueue(q);
    while count < |q|
      invariant 1 <= count <= |q| && size == TotalBytes(q[..count]) && ops == Batches(q[..count])
      invariant forall i :: 1 <= i < count ==> !StaysOut(q, i)
      invariant forall i :: 0 <= i < count && q[i].sync ==> q[0].sync
      invariant size == q[0].bytes || size <= maxSize
    {
      var w := q[count];
      NextInQueue(q, count);
      if w.sync && !q[0].sync {
        break;
      }
      if w.batch.Some? {
        size := size + w.bytes;
        if size > maxSize {
          break;
        }
        ops := ops + w.batch.value;
      } else {
        assert ops + [] == ops;
      }
      count := count + 1;
    }
  }

  // ----- Steps -----

  datatype CommitStep =
    | Enqueue(r: Request)
    | Lead(n: nat)              // the front writer has room and builds its group
    | Alone(ok: bool)           // the front writer finishes alone: no room, or nothing to write
    | AppendLog(result: LogResult)
    | InsertNext
    | Finish                    // publish, pop the group, tell its writers
    | Other(step: Step)         // readers and background work; a switch of memtables by the front writer

  function Queue(c: Commit): seq<Request>
    requires |c.outcomes| <= |c.requests|
  {
    c.requests[|c.outcomes|..]
  }

  function Repeat(b: bool, n: nat): (r: seq<bool>)
    ensures |r| == n && forall i :: 0 <= i < n ==> r[i] == b
  {
    seq(n, _ => b)
  }

  ghost predicate CommitNext(a: Commit, b: Commit, step: CommitStep) {
    match step
    case Enqueue(r) =>
      b == a.(requests := a.requests + [r])
    case Lead(n) =>
      && a.leader.None? && !a.poisoned && |a.outcomes| < |a.requests|
      && Queue(a)[0].batch.Some? && IsGroup(Queue(a), n)
      && b == a.(leader := Some(Leader(|a.outcomes| + n, Batches(Queue(a)[..n]), Unwritten)))
    case Alone(ok) =>
      && a.leader.None? && |a.outcomes| < |a.requests|
      && (ok ==> Queue(a)[0].batch.None?)
      && b == a.(outcomes := a.outcomes + [ok])
    case AppendLog(result) =>
      && a.leader.Some? && a.leader.value.result.Unwritten? && !result.Unwritten?
      && (result.Unsynced? ==> |a.outcomes| < |a.requests| && Queue(a)[0].sync)
      && a.sys.db.lastSequence + |a.leader.value.ops| + 1 < MAX_SEQUENCE
      && b == a.(leader := Some(a.leader.value.(result := result)),
                 poisoned := result.Unsynced?,
                 log := a.log + if result.Failed? then []
                                else [Record(a.sys.db.lastSequence + 1, a.leader.value.ops)])
    case InsertNext =>
      && a.leader.Some? && a.leader.value.result.Logged? && a.sys.db.inserted < |a.leader.value.ops|
      && Next(a.sys, b.sys, Insert(EntryOf(a.leader.value.ops[a.sys.db.inserted],
                                           a.sys.db.lastSequence + a.sys.db.inserted + 1)))
      && b == a.(sys := b.sys)
    case Finish =>
      && a.leader.Some? && !a.leader.value.result.Unwritten? && |a.outcomes| <= a.leader.value.to
      && var l := a.leader.value;
         var ok := l.result.Logged?;
         && (ok ==> a.sys.db.inserted == |l.ops|)
         && Next(a.sys, b.sys, Publish(|l.ops|))
         && b == a.(sys := b.sys, leader := None,
                    outcomes := a.outcomes + Repeat(ok, l.to - |a.outcomes|),
                    groups := a.groups + [Group(a.sys.db.lastSequence + 1, |a.outcomes|, l.to, l.ops, ok)])
    case Other(step) =>
      && !step.Insert? && !step.Publish? && (step.Rotate? ==> a.leader.None? && !a.poisoned)
      && Next(a.sys, b.sys, step) && b == a.(sys := b.sys)
  }

  ghost predicate CommitInit(c: Commit) {
    Init(c.sys) && c == Commit(c.sys, [], [], [], None, [], false)
  }

  // ----- What the invariant says -----

  function NextNumber(groups: seq<Group>): nat {
    if groups == [] then 1 else groups[|groups| - 1].first + |groups[|groups| - 1].ops|
  }

  function EndOf(groups: seq<Group>): nat {
    if groups == [] then 0 else groups[|groups| - 1].to
  }

  /** Sequence numbers are consecutive from group to group, so none is used twice. */
  ghost predicate Chained(groups: seq<Group>) {
    forall i :: 0 <= i < |groups| ==> groups[i].first == NextNumber(groups[..i])
  }

  /** The entries that the successful groups wrote. */
  ghost function GroupEntries(groups: seq<Group>): set<Entry> {
    if groups == [] then {}
    else
      var g := groups[|groups| - 1];
      GroupEntries(groups[..|groups| - 1]) + if g.ok then EntriesOf(g.ops, g.first) else {}
  }

  function GroupOps(groups: seq<Group>): seq<Op> {
    if groups == [] then []
    else
      var g := groups[|groups| - 1];
      GroupOps(groups[..|groups| - 1]) + if g.ok then g.ops else []
  }

  function LogOf(groups: seq<Group>): seq<Record> {
    if groups == [] then []
    else
      var g := groups[|groups| - 1];
      LogOf(groups[..|groups| - 1]) + if g.ok then [Record(g.first, g.ops)] else []
  }

  /** The operations of the requests that were acknowledged, among those with the given outcomes. */
  function Acknowledged(requests: seq<Request>, outcomes: seq<bool>): seq<Op>
    requires |outcomes| <= |requests|
    decreases |outcomes|
  {
    if outcomes == [] then []
    else
      var n := |outcomes| - 1;
      Acknowledged(requests, outcomes[..n]) + if outcomes[n] then BatchOf(requests[n]) else []
  }

  /** A group serves whole requests in queue order; it serves no sync writer unless its leader is one. */
  ghost predicate Serves(requests: seq<Request>, from: nat, to: nat, ops: seq<Op>) {
    && from < to <= |requests| && ops == Batches(requests[from..to])
    && forall r :: from <= r < to && requests[r].sync ==> requests[from].sync
  }

  ghost predicate QueueInv(requests: seq<Request>, outcomes: seq<bool>, groups: seq<Group>, leader: Option<Leader>) {
    && |outcomes| <= |requests| && EndOf(groups) <= |outcomes|
    && (leader.Some? ==> Serves(requests, |outcomes|, leader.value.to, leader.value.ops))
    && (forall i :: 0 <= i < |groups| ==>
          EndOf(groups[..i]) <= groups[i].from && Served(requests, outcomes, groups[i]))
  }

  /** All the writers of a finished group were told the same. */
  ghost predicate Served(requests: seq<Request>, outcomes: seq<bool>, g: Group) {
    && Serves(requests, g.from, g.to, g.ops) && g.to <= |outcomes|
    && forall r :: g.from <= r < g.to ==> outcomes[r] == g.ok
  }

  ghost predicate ReplayInv(requests: seq<Request>, outcomes: seq<bool>, groups: seq<Group>)
    requires |outcomes| <= |requests|
  {
    && GroupOps(groups) == Acknowledged(requests, outcomes)
    && forall i :: 0 <= i <= |groups| ==>
         && EndOf(groups[..i]) <= |outcomes|
         && GroupOps(groups[..i]) == Acknowledged(requests, outcomes[..EndOf(groups[..i])])
  }

  /** Every snapshot is the end of a group. */
  ghost predicate BoundaryInv(snapshots: seq<nat>, groups: seq<Group>) {
    forall i :: 0 <= i < |snapshots| ==> AtBoundary(snapshots[i], groups)
  }

  ghost predicate AtBoundary(s: nat, groups: seq<Group>) {
    exists j :: 0 <= j <= |groups| && s + 1 == NextNumber(groups[..j])
  }

  ghost function Partial(c: Commit): set<Entry> {
    if c.leader.Some? && c.leader.value.result.Logged? && c.sys.db.inserted <= |c.leader.value.ops| then
      EntriesOf(c.leader.value.ops[..c.sys.db.inserted], c.sys.db.lastSequence + 1)
    else {}
  }

  ghost predicate NumberInv(c: Commit) {
    && Chained(c.groups) && c.sys.db.lastSequence + 1 == NextNumber(c.groups)
    && c.sys.history == GroupEntries(c.groups) + Partial(c)
    && c.sys.db.inserted <= (if c.leader.Some? && c.leader.value.result.Logged? then |c.leader.value.ops| else 0)
  }

  /** The log holds the successful groups in order, then at most the group at work or the one whose sync
      failed. */
  ghost predicate LogInv(c: Commit) {
    && LogOf(c.groups) <= c.log && |c.log| <= |LogOf(c.groups)| + 1
    && (c.leader.Some? && c.leader.value.result.Logged? ==>
          !c.poisoned && c.log == LogOf(c.groups) + [Record(c.sys.db.lastSequence + 1, c.leader.value.ops)])
    && (c.leader.Some? && (c.leader.value.result.Unwritten? || c.leader.value.result.Failed?) ==> !c.poisoned)
    && (!c.poisoned && !(c.leader.Some? && c.leader.value.result.Logged?) ==> c.log == LogOf(c.groups))
    && (c.poisoned ==> c.log == LogOf(c.groups) + [Unsure(c)])
    && (forall i :: 0 <= i < |c.log| ==> c.log[i].first + |c.log[i].ops| < MAX_SEQUENCE)
    && (c.poisoned && c.leader.Some? ==> c.leader.value.result.Unsynced?)
    && (c.poisoned && c.leader.None? ==> c.groups != [] && !c.groups[|c.groups| - 1].ok)
  }

  /** The record whose sync failed: that of the group at work, or of the last one. */
  function Unsure(c: Commit): Record {
    if c.leader.Some? then Record(c.sys.db.lastSequence + 1, c.leader.value.ops)
    else if c.groups != [] then Record(c.groups[|c.groups| - 1].first, c.groups[|c.groups| - 1].ops)
    else Record(0, [])
  }

  ghost predicate CommitInv(c: Commit) {
    && Inv(c.sys) && NumberInv(c) && LogInv(c)
    && QueueInv(c.requests, c.outcomes, c.groups, c.leader)
    && ReplayInv(c.requests, c.outcomes, c.groups)
    && BoundaryInv(c.sys.db.snapshots, c.groups)
  }

  // ----- Every step keeps it -----

  lemma CommitStarts(c: Commit)
    requires CommitInit(c)
    ensures CommitInv(c)
  {
    InitSatisfiesInv(c.sys);
    hide Inv;
  }

  lemma {:induction false} AcknowledgedStays(requests: seq<Request>, r: Request, outcomes: seq<bool>)
    requires |outcomes| <= |requests|
    ensures Acknowledged(requests + [r], outcomes) == Acknowledged(requests, outcomes)
    decreases |outcomes|
  {
    if outcomes != [] {
      AcknowledgedStays(requests, r, outcomes[..|outcomes| - 1]);
    }
  }

  lemma EnqueueKeeps(a: Commit, b: Commit, r: Request)
    requires CommitInv(a) && CommitNext(a, b, Enqueue(r))
    ensures CommitInv(b)
  {
    hide Inv, GroupOps, Acknowledged, Batches, NumberInv, LogInv, BoundaryInv;
    forall o: seq<bool> | |o| <= |a.requests|
      ensures Acknowledged(b.requests, o) == Acknowledged(a.requests, o)
    {
      AcknowledgedStays(a.requests, r, o);
    }
    EnqueueServes(a, b, r);
    assert NumberInv(b) by { SameNumbers(a, b); }
    assert LogInv(b) by { SameLog(a, b); }
  }

  lemma EnqueueServes(a: Commit, b: Commit, r: Request)
    requires QueueInv(a.requests, a.outcomes, a.groups, a.leader) && CommitNext(a, b, Enqueue(r))
    ensures QueueInv(b.requests, b.outcomes, b.groups, b.leader)
  {
    hide Serves;
    forall from, to, ops | Serves(a.requests, from, to, ops)
      ensures Serves(b.requests, from, to, ops)
    {
      ServesMore(a.requests, r, from, to, ops);
    }
  }

  lemma ServesMore(requests: seq<Request>, r: Request, from: nat, to: nat, ops: seq<Op>)
    requires Serves(requests, from, to, ops)
    ensures Serves(requests + [r], from, to, ops)
  {
    hide Batches;
    assert (requests + [r])[from..to] == requests[from..to];
    assert forall i :: from <= i < to ==> (requests + [r])[i] == requests[i];
  }

  lemma SameNumbers(a: Commit, b: Commit)
    requires NumberInv(a) && b.groups == a.groups && b.leader == a.leader
    requires b.sys.db.lastSequence == a.sys.db.lastSequence && b.sys.db.inserted == a.sys.db.inserted
    requires b.sys.history == a.sys.history
    ensures NumberInv(b)
  {
    hide Chained, GroupEntries, EntriesOf;
  }

  lemma SameLog(a: Commit, b: Commit)
    requires LogInv(a) && b.groups == a.groups && b.leader == a.leader && b.log == a.log && b.poisoned == a.poisoned
    requires b.sys.db.lastSequence == a.sys.db.lastSequence
    ensures LogInv(b)
  {
    hide LogOf;
  }

  lemma LeadKeeps(a: Commit, b: Commit, n: nat)
    requires CommitInv(a) && CommitNext(a, b, Lead(n))
    ensures CommitInv(b)
  {
    hide Inv, GroupOps, Acknowledged, Batches, Chained, GroupEntries, EntriesOf, LogOf, BoundaryInv, ReplayInv;
    var q, at := Queue(a), |a.outcomes|;
    assert q[..n] == a.requests[at..at + n];
    forall r | at <= r < at + n && a.requests[r].sync
      ensures a.requests[at].sync
    {
      assert q[r - at] == a.requests[r] && q[0] == a.requests[at];
      assert r > at ==> !StaysOut(q, r - at);
    }
  }

  lemma AloneKeeps(a: Commit, b: Commit, ok: bool)
    requires CommitInv(a) && CommitNext(a, b, Alone(ok))
    ensures CommitInv(b)
  {
    hide Inv, GroupOps, Batches, NumberInv, LogInv, BoundaryInv, Acknowledged, Served;
    var n := |a.outcomes|;
    assert Queue(a)[0] == a.requests[n];
    AcknowledgeOne(a.requests, a.outcomes, ok);
    forall g | Served(a.requests, a.outcomes, g)
      ensures Served(b.requests, b.outcomes, g)
    {
      StillServed(a.requests, a.outcomes, b.outcomes, g);
    }
    assert forall m :: 0 <= m <= n ==> b.outcomes[..m] == a.outcomes[..m];
    assert NumberInv(b) by { SameNumbers(a, b); }
    assert LogInv(b) by { SameLog(a, b); }
  }

  lemma AppendKeeps(a: Commit, b: Commit, result: LogResult)
    requires CommitInv(a) && CommitNext(a, b, AppendLog(result))
    ensures CommitInv(b)
  {
    hide Inv, GroupOps, Acknowledged, Batches, Chained, GroupEntries, LogOf, BoundaryInv, ReplayInv, Served, Serves;
    assert EntriesOf(a.leader.value.ops[..0], a.sys.db.lastSequence + 1) == {};
  }

  lemma InsertKeeps(a: Commit, b: Commit)
    requires CommitInv(a) && CommitNext(a, b, InsertNext)
    ensures CommitInv(b)
  {
    hide Inv, GroupOps, Acknowledged, Batches, Chained, GroupEntries, LogOf, BoundaryInv, ReplayInv, QueueInv,
         InsertSorted, EntriesOf;
    StepKeepsInv(a.sys, b.sys, Insert(EntryOf(a.leader.value.ops[a.sys.db.inserted],
                                              a.sys.db.lastSequence + a.sys.db.inserted + 1)));
    EntriesOfOneMore(a.leader.value.ops, a.sys.db.inserted, a.sys.db.lastSequence + 1);
  }

  lemma AcknowledgeOne(requests: seq<Request>, outcomes: seq<bool>, ok: bool)
    requires |outcomes| < |requests|
    ensures Acknowledged(requests, outcomes + [ok])
         == Acknowledged(requests, outcomes) + if ok then BatchOf(requests[|outcomes|]) else []
  {
    assert (outcomes + [ok])[..|outcomes|] == outcomes;
  }

  lemma NoBatches(requests: seq<Request>, at: nat)
    requires at <= |requests|
    ensures Batches(requests[at..at]) == []
  {
  }

  lemma BatchesOneMore(requests: seq<Request>, at: nat, n: nat)
    requires at + n < |requests|
    ensures Batches(requests[at..at + n + 1]) == Batches(requests[at..at + n]) + BatchOf(requests[at + n])
  {
    assert requests[at..at + n + 1][..n] == requests[at..at + n];
  }

  lemma Reassociate(a: seq<Op>, b: seq<Op>, c: seq<Op>)
    ensures (a + b) + c == a + (b + c)
  {
  }

  lemma {:induction false} AcknowledgeGroup(requests: seq<Request>, outcomes: seq<bool>, ok: bool, n: nat)
    requires |outcomes| + n <= |requests|
    ensures Acknowledged(requests, outcomes + Repeat(ok, n))
         == Acknowledged(requests, outcomes) + if ok then Batches(requests[|outcomes|..|outcomes| + n]) else []
    decreases n
  {
    hide Acknowledged, BatchOf, Batches;
    if n == 0 {
      assert outcomes + Repeat(ok, 0) == outcomes;
      NoBatches(requests, |outcomes|);
    } else {
      var before := outcomes + Repeat(ok, n - 1);
      AcknowledgeGroup(requests, outcomes, ok, n - 1);
      assert outcomes + Repeat(ok, n) == before + [ok];
      AcknowledgeOne(requests, before, ok);
      BatchesOneMore(requests, |outcomes|, n - 1);
      if ok {
        Reassociate(Acknowledged(requests, outcomes), Batches(requests[|outcomes|..|outcomes| + n - 1]),
                    BatchOf(requests[|outcomes| + n - 1]));
      }
    }
  }

  lemma FinishKeeps(a: Commit, b: Commit)
    requires CommitInv(a) && CommitNext(a, b, Finish)
    ensures CommitInv(b)
  {
    hide Inv, GroupOps, Acknowledged, Batches, Chained, GroupEntries, LogOf, BoundaryInv, ReplayInv, QueueInv, EntriesOf,
         NumberInv, LogInv;
    StepKeepsInv(a.sys, b.sys, Publish(|a.leader.value.ops|));
    FinishNumbers(a, b);
    FinishQueue(a, b);
    FinishReplay(a, b);
    FinishLog(a, b);
    MoreBoundaries(a.sys.db.snapshots, a.groups, b.groups[|a.groups|]);
  }

  lemma MoreBoundaries(snapshots: seq<nat>, groups: seq<Group>, g: Group)
    requires BoundaryInv(snapshots, groups)
    ensures BoundaryInv(snapshots, groups + [g])
  {
    hide NextNumber;
    forall i | 0 <= i < |snapshots|
      ensures AtBoundary(snapshots[i], groups + [g])
    {
      assert AtBoundary(snapshots[i], groups);
      var j :| 0 <= j <= |groups| && snapshots[i] + 1 == NextNumber(groups[..j]);
      assert (groups + [g])[..j] == groups[..j];
    }
  }

  lemma FinishNumbers(a: Commit, b: Commit)
    requires CommitInv(a) && CommitNext(a, b, Finish)
    ensures NumberInv(b)
  {
    hide Inv, GroupOps, Acknowledged, Batches, LogInv, BoundaryInv, ReplayInv, QueueInv, EntriesOf, Next, Chained,
         GroupEntries, Serves;
    var l := a.leader.value;
    PublishFacts(a.sys, b.sys, |l.ops|);
    ChainedOneMore(a.groups, b.groups[|a.groups|]);
    assert l.ops[..|l.ops|] == l.ops;
  }

  lemma PublishFacts(a: Sys, b: Sys, count: nat)
    requires Next(a, b, Publish(count))
    ensures b.history == a.history && b.db.inserted == 0 && b.db.lastSequence == a.db.lastSequence + count
    ensures b.db.snapshots == a.db.snapshots
  {
  }

  lemma ChainedOneMore(groups: seq<Group>, g: Group)
    requires Chained(groups) && g.first == NextNumber(groups)
    ensures Chained(groups + [g])
    ensures GroupEntries(groups + [g]) == GroupEntries(groups) + if g.ok then EntriesOf(g.ops, g.first) else {}
  {
    hide NextNumber, EntriesOf;
    assert (groups + [g])[..|groups|] == groups;
    assert forall i :: 0 <= i < |groups| ==> (groups + [g])[..i] == groups[..i];
  }

  lemma FinishQueue(a: Commit, b: Commit)
    requires CommitInv(a) && CommitNext(a, b, Finish)
    ensures QueueInv(b.requests, b.outcomes, b.groups, b.leader)
  {
    hide Inv, LogInv, BoundaryInv, ReplayInv, NumberInv, Serves, Served, Next;
    var n := |a.groups|;
    LeaderServes(a);
    LeaderServed(a.requests, a.outcomes, b.groups[n]);
    assert b.groups[..n] == a.groups;
    forall i | 0 <= i < n
      ensures b.groups[..i] == a.groups[..i] && b.groups[i] == a.groups[i]
      ensures Served(b.requests, b.outcomes, b.groups[i])
    {
      StillServed(a.requests, a.outcomes, b.outcomes, a.groups[i]);
    }
  }

  lemma LeaderServed(requests: seq<Request>, outcomes: seq<bool>, g: Group)
    requires Serves(requests, |outcomes|, g.to, g.ops) && g.from == |outcomes|
    ensures g.from < g.to <= |requests| && Served(requests, outcomes + Repeat(g.ok, g.to - |outcomes|), g)
  {
    hide Batches;
    var more := outcomes + Repeat(g.ok, g.to - |outcomes|);
    assert forall r :: g.from <= r < g.to ==> more[r] == Repeat(g.ok, g.to - |outcomes|)[r - |outcomes|];
  }

  lemma StillServed(requests: seq<Request>, outcomes: seq<bool>, more: seq<bool>, g: Group)
    requires Served(requests, outcomes, g) && outcomes <= more
    ensures Served(requests, more, g)
  {
    hide Serves;
  }

  lemma FinishReplay(a: Commit, b: Commit)
    requires CommitInv(a) && CommitNext(a, b, Finish)
    ensures |b.outcomes| <= |b.requests| && ReplayInv(b.requests, b.outcomes, b.groups)
  {
    hide Inv, Acknowledged, Batches, LogInv, BoundaryInv, NumberInv, GroupOps, Next;
    var l, n := a.leader.value, |a.outcomes|;
    LeaderServes(a);
    AcknowledgeGroup(a.requests, a.outcomes, l.result.Logged?, l.to - n);
    hide QueueInv;
    ReplayOneMore(a.requests, a.outcomes, l.result.Logged?, l.to - n, a.groups, b.groups[|a.groups|]);
  }

  lemma LeaderServes(a: Commit)
    requires CommitInv(a) && a.leader.Some?
    ensures Serves(a.requests, |a.outcomes|, a.leader.value.to, a.leader.value.ops)
  {
    hide Inv, LogInv, BoundaryInv, NumberInv, ReplayInv, Serves;
  }

  lemma ReplayOneMore(requests: seq<Request>, outcomes: seq<bool>, ok: bool, n: nat, groups: seq<Group>, g: Group)
    requires |outcomes| + n <= |requests| && ReplayInv(requests, outcomes, groups)
    requires g.ok == ok && g.to == |outcomes| + n
    requires Acknowledged(requests, outcomes + Repeat(ok, n))
          == Acknowledged(requests, outcomes) + if ok then g.ops else []
    ensures ReplayInv(requests, outcomes + Repeat(ok, n), groups + [g])
  {
    hide Acknowledged, GroupOps, Repeat;
    var groups', outcomes' := groups + [g], outcomes + Repeat(ok, n);
    GroupOpsOneMore(groups, g);
    assert groups'[..|groups'|] == groups' && outcomes'[..|outcomes'|] == outcomes';
    forall i | 0 <= i <= |groups|
      ensures EndOf(groups'[..i]) <= |outcomes'|
      ensures GroupOps(groups'[..i]) == Acknowledged(requests, outcomes'[..EndOf(groups'[..i])])
    {
      assert groups'[..i] == groups[..i];
      assert outcomes'[..EndOf(groups[..i])] == outcomes[..EndOf(groups[..i])];
    }
  }

  lemma GroupOpsOneMore(groups: seq<Group>, g: Group)
    ensures GroupOps(groups + [g]) == GroupOps(groups) + if g.ok then g.ops else []
  {
    assert (groups + [g])[..|groups|] == groups;
  }

  lemma FinishLog(a: Commit, b: Commit)
    requires CommitInv(a) && CommitNext(a, b, Finish)
    ensures LogInv(b)
  {
    hide Inv, GroupOps, Acknowledged, Batches, BoundaryInv, ReplayInv, NumberInv, EntriesOf, QueueInv;
    assert b.groups[..|a.groups|] == a.groups;
  }

  /** Background work and readers change neither numbers nor history; a snapshot is taken at the end of
      the last group. */
  lemma OtherKeeps(a: Commit, b: Commit, step: Step)
    requires CommitInv(a) && CommitNext(a, b, Other(step))
    ensures CommitInv(b)
  {
    hide Inv, Next, GroupOps, Acknowledged, Batches, LogInv, BoundaryInv, ReplayInv, NumberInv, EntriesOf, QueueInv;
    StepKeepsInv(a.sys, b.sys, step);
    OtherStepFacts(a.sys, b.sys, step);
    SameNumbers(a, b);
    SameLog(a, b);
    OtherBoundaries(a, b);
  }

  lemma OtherStepFacts(a: Sys, b: Sys, step: Step)
    requires Next(a, b, step) && !step.Insert? && !step.Publish?
    ensures b.history == a.history && b.db.lastSequence == a.db.lastSequence && b.db.inserted == a.db.inserted
    ensures forall s :: s in b.db.snapshots ==> s in a.db.snapshots || s == a.db.lastSequence
  {
  }

  lemma OtherBoundaries(a: Commit, b: Commit)
    requires BoundaryInv(a.sys.db.snapshots, a.groups) && NumberInv(a) && b.groups == a.groups
    requires forall s :: s in b.sys.db.snapshots ==> s in a.sys.db.snapshots || s == a.sys.db.lastSequence
    ensures BoundaryInv(b.sys.db.snapshots, b.groups)
  {
    hide NextNumber, GroupEntries, Chained, Partial;
    forall i | 0 <= i < |b.sys.db.snapshots|
      ensures AtBoundary(b.sys.db.snapshots[i], b.groups)
    {
      var s := b.sys.db.snapshots[i];
      assert s in b.sys.db.snapshots;
      if s in a.sys.db.snapshots {
        var j :| 0 <= j < |a.sys.db.snapshots| && a.sys.db.snapshots[j] == s;
      } else {
        assert a.groups[..|a.groups|] == a.groups;
      }
    }
  }

  lemma CommitStepKeeps(a: Commit, b: Commit, step: CommitStep)
    requires CommitInv(a) && CommitNext(a, b, step)
    ensures CommitInv(b)
  {
    hide CommitInv, CommitNext;
    match step
    case Enqueue(r) => EnqueueKeeps(a, b, r);
    case Lead(n) => LeadKeeps(a, b, n);
    case Alone(ok) => AloneKeeps(a, b, ok);
    case AppendLog(result) => AppendKeeps(a, b, result);
    case InsertNext => InsertKeeps(a, b);
    case Finish => FinishKeeps(a, b);
    case Other(s) => OtherKeeps(a, b, s);
  }
}
