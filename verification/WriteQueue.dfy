/** The queue of writers as an object (db/db_impl.cc: Write). Each method is what one writer does between
    two points at which it may wait or release the mutex. */
module WriteQueues {
  import opened InternalKeys
  import opened Operations
  import opened StateMachine
  import opened Database
  import opened GroupCommit

  class WriteQueue {
    const db: DBImpl
    var writers: seq<Request>       // writers_: the deque, front first
    var outcomes: seq<bool>         // what finished writers were told, in the order they were popped
    var leader: Option<Leader>
    var log: seq<Record>
    var poisoned: bool              // bg_error_
    ghost var finished: seq<Request>
    ghost var groups: seq<Group>

    ghost function State(): Commit
      reads this, db
    {
      Commit(db.State(), finished + writers, outcomes, groups, leader, log, poisoned)
    }

    ghost predicate Valid()
      reads this, db
    {
      db.Valid() && CommitInv(State()) && |finished| == |outcomes|
    }

    constructor (db: DBImpl)
      requires db.Valid() && Init(db.State())
      ensures Valid() && this.db == db && CommitInit(State())
    {
      this.db := db;
      writers, outcomes, leader, log, poisoned, finished, groups := [], [], None, [], false, [], [];
      new;
      CommitStarts(State());
    }

    method Enqueue(r: Request)
      requires Valid()
      modifies this`writers
      ensures Valid() && CommitNext(old(State()), State(), CommitStep.Enqueue(r))
    {
      hide CommitInv, DBImpl.Valid;
      ghost var a := State();
      writers := writers + [r];
      assert finished + writers == a.requests + [r];
      CommitStepKeeps(a, State(), CommitStep.Enqueue(r));
    }

    /** The front writer, once MakeRoomForWrite has answered: it leads a group, or finishes alone because
        there is no room or nothing to write. */
    method TakeTurn(room: bool)
      requires Valid() && leader.None? && writers != [] && (room ==> !poisoned)
      modifies this`leader, this`writers, this`outcomes, this`finished
      ensures Valid()
      ensures room && old(writers)[0].batch.Some? ==>
                writers == old(writers) && exists n :: CommitNext(old(State()), State(), Lead(n))
      ensures !room || old(writers)[0].batch.None? ==> CommitNext(old(State()), State(), Alone(room))
    {
      hide CommitInv, DBImpl.Valid, IsGroup, Batches;
      ghost var a := State();
      assert Queue(a) == writers;
      if room && writers[0].batch.Some? {
        var n, ops := BuildBatchGroup(writers);
        leader := Some(Leader(|outcomes| + n, ops, Unwritten));
        assert CommitNext(a, State(), Lead(n));
        CommitStepKeeps(a, State(), Lead(n));
      } else {
        PopFront(room);
        CommitStepKeeps(a, State(), Alone(room));
      }
    }

    /** Pop the front writer and tell it the status. */
    method PopFront(status: bool)
      requires writers != []
      modifies this`writers, this`outcomes, this`finished
      ensures writers == old(writers)[1..] && outcomes == old(outcomes) + [status]
      ensures finished == old(finished) + [old(writers)[0]]
      ensures finished + writers == old(finished + writers)
    {
      finished := finished + [writers[0]];
      writers := writers[1..];
      outcomes := outcomes + [status];
    }

    /** The leader appends the group to the log and, if it must, syncs. */
    method AppendToLog(result: LogResult)
      requires Valid() && leader.Some? && leader.value.result.Unwritten? && !result.Unwritten?
      requires result.Unsynced? ==> writers != [] && writers[0].sync
      requires db.lastSequence + |leader.value.ops| + 1 < MAX_SEQUENCE
      modifies this`leader, this`log, this`poisoned
      ensures Valid() && CommitNext(old(State()), State(), AppendLog(result))
    {
      hide CommitInv, DBImpl.Valid;
      ghost var a := State();
      assert Queue(a) == writers;
      if !result.Failed? {
        log := log + [Record(db.lastSequence + 1, leader.value.ops)];
      } else {
        assert log + [] == log;
      }
      poisoned := result.Unsynced?;
      leader := Some(leader.value.(result := result));
      CommitStepKeeps(a, State(), AppendLog(result));
    }

    /** The leader inserts the next operation of its group into the memtable. */
    method InsertNextOp()
      requires Valid() && leader.Some? && leader.value.result.Logged? && db.inserted < |leader.value.ops|
      requires db.lastSequence + db.inserted + 1 < MAX_SEQUENCE
      modifies db
      ensures Valid() && CommitNext(old(State()), State(), InsertNext)
    {
      hide CommitInv, DBImpl.Valid, Next;
      ghost var a := State();
      db.InsertOne(leader.value.ops[db.inserted]);
      CommitStepKeeps(a, State(), InsertNext);
    }

    /** The leader publishes its sequence numbers and pops its whole group, giving each writer the status. */
    method FinishGroup()
      requires Valid() && leader.Some? && !leader.value.result.Unwritten?
      requires leader.value.result.Logged? ==> db.inserted == |leader.value.ops|
      requires db.inserted <= |leader.value.ops| && db.lastSequence + |leader.value.ops| < MAX_SEQUENCE
      modifies this, db
      ensures Valid() && CommitNext(old(State()), State(), Finish)
    {
      hide CommitInv, DBImpl.Valid, Next, Repeat;
      ghost var a := State();
      LeaderBounds(a);
      ghost var l := leader.value;
      var last := leader.value.to;
      var status := leader.value.result.Logged?;
      db.Publish(|leader.value.ops|);
      NothingRepeated(status);
      while |outcomes| < last
        invariant db.Valid() && Next(a.sys, db.State(), Publish(|l.ops|)) && last <= |a.requests|
        invariant finished + writers == a.requests && |finished| == |outcomes| && |a.outcomes| <= |outcomes| <= last
        invariant outcomes == a.outcomes + Repeat(status, |outcomes| - |a.outcomes|)
        invariant leader == a.leader && log == a.log && poisoned == a.poisoned && groups == a.groups
      {
        RepeatOneMore(status, |outcomes| - |a.outcomes|);
        PopFront(status);
      }
      leader := None;
      groups := groups + [Group(a.sys.db.lastSequence + 1, |a.outcomes|, l.to, l.ops, status)];
      CommitStepKeeps(a, State(), Finish);
    }
  }

  lemma LeaderBounds(c: Commit)
    requires CommitInv(c) && c.leader.Some?
    ensures |c.outcomes| < c.leader.value.to <= |c.requests|
  {
    LeaderServes(c);
  }

  lemma NothingRepeated(b: bool)
    ensures Repeat(b, 0) == []
  {
  }

  lemma RepeatOneMore(b: bool, n: nat)
    ensures Repeat(b, n + 1) == Repeat(b, n) + [b]
  {
  }
}
