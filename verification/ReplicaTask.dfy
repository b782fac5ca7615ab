/** The replicator and its injector as the objects the source keeps, with its loops over the
frame stream, the snapshot requests and the handshake attempts. Every method does the step of
the same name. */
module ReplicaTask {
  import opened WalLog
  import opened Replica

  class SqliteInjector {
    var db: Image
    var wal: seq<Frame>
    var isTxn: bool
    var buffer: seq<Frame>
    var biggest: nat
    const capacity: nat

    constructor (db: Image, capacity: nat)
      ensures View() == Injector(db, [], false, [], 0, capacity)
    {
      this.db, wal, isTxn, buffer, biggest := db, [], false, [], 0;
      this.capacity := capacity;
    }

    ghost function View(): Injector
      reads this
    {
      Injector(db, wal, isTxn, buffer, biggest, capacity)
    }

    method Rollback()
      modifies this
      ensures View() == RollbackInjector(old(View()))
    {
      buffer, wal, isTxn := [], [], false;
    }

    method FlushBuffer(o: InjectOutcome) returns (res: Injected)
      modifies this
      ensures (View(), res) == Flush(old(View()), o)
    {
      if o != Works {
        if o.CommitsThenFails? && buffer != [] && IsCommit(buffer[|buffer| - 1]) {
          db := WriteAll(db, wal + buffer);
        }
        biggest := 0;
        Rollback();
        return Failed;
      }
      if buffer == [] {
        return Buffered;
      }
      var back := buffer[|buffer| - 1];
      biggest := Max(biggest, Max(buffer[0].no, back.no));
      wal, buffer := wal + buffer, [];
      if IsCommit(back) {
        db, wal, isTxn := WriteAll(db, wal), [], false;
        res := Committed(biggest);
        biggest := 0;
      } else {
        isTxn := true;
        res := Buffered;
      }
    }

    method Inject(f: Frame, o: InjectOutcome) returns (res: Injected)
      modifies this
      ensures (View(), res) == InjectFrame(old(View()), f, o)
    {
      if o.Undecodable? {
        return Failed;
      }
      buffer := buffer + [f];
      if IsCommit(f) || |buffer| >= capacity {
        res := FlushBuffer(o);
      } else {
        res := Buffered;
      }
    }
  }

  class Task {
    var client: Client
    const injector: SqliteInjector
    var state: State
    var synced: nat

    constructor (capacity: nat)
      ensures View() == Fresh(capacity) && fresh(injector)
    {
      client, state, synced := Client(0, 0, 0), Handshaking, 0;
      injector := new SqliteInjector(map[], capacity);
    }

    ghost function View(): Replicator
      reads this, injector
    {
      Replicator(client, injector.View(), state, synced)
    }

    method Rollback()
      modifies this`client, injector
      ensures View() == RollbackAll(old(View()))
    {
      client := RollbackClient(client);
      injector.Rollback();
    }

    method InjectOne(it: Item) returns (ret: Ret)
      modifies this, injector
      ensures (View(), ret) == InjectItem(old(View()), it)
    {
      if it.Broken? {
        return Err(it.e);
      }
      synced := synced + 1;
      client := client.(cursor := Max(client.cursor, it.f.no + 1));
      var res := injector.Inject(it.f, it.inject);
      match res
      case Buffered => ret := Ok;
      case Failed => ret := Err(Other);
      case Committed(no) =>
        if it.ack != NotRecorded {
          client := client.(recorded := no + 1);
        }
        if it.ack == Recorded {
          client := client.(stored := no + 1);
        }
        ret := if it.ack == Recorded then Ok else Err(Other);
    }

    /** flush. */
    method FlushInjector(o: InjectOutcome, ack: Ack) returns (ret: Ret)
      modifies this, injector
      ensures (View(), ret) == FlushNow(old(View()), o, ack)
    {
      var res := injector.FlushBuffer(o);
      match res
      case Buffered => ret := Ok;
      case Failed => ret := Err(Other);
      case Committed(no) =>
        if ack != NotRecorded {
          client := client.(recorded := no + 1);
        }
        if ack == Recorded {
          client := client.(stored := no + 1);
        }
        ret := if ack == Recorded then Ok else Err(Other);
    }

    /** The loop of try_replicate, and of load_snapshot once the snapshot is there. */
    method Consume(o: Opened) returns (ret: Ret)
      modifies this, injector
      ensures (View(), ret) == ReadStream(old(View()), o)
    {
      if o.Refused? {
        return Err(o.e);
      }
      client := client.(cursor := o.start);
      ghost var r := View();
      var k := 0;
      ret := Ok;
      while k < |o.items| && ret.Ok?
        invariant 0 <= k <= |o.items|
        invariant InjectAll(r, o.items) == if ret.Err? then (View(), ret) else InjectAll(View(), o.items[k..])
        decreases |o.items| - k, ret.Ok?
      {
        ret := InjectOne(o.items[k]);
        assert o.items[k..][1..] == o.items[k + 1..];
        k := k + 1;
      }
    }

    method Snapshot(tries: SnapshotTries) returns (ret: Ret)
      modifies this, injector
      ensures (View(), ret) == LoadSnapshot(old(View()), tries)
    {
      ghost var r := View();
      Rollback();
      var k := 0;
      while tries[k] == Refused(SnapshotPending)
        invariant 0 <= k < |tries| && View() == RollbackAll(r)
        invariant tries[k..] != [] && LoadSnapshot(r, tries) == LoadSnapshot(r, tries[k..])
        decreases |tries| - k
      {
        assert tries[k..][1..] == tries[k + 1..];
        k := k + 1;
        SameSnapshot(r, tries[k..]);
      }
      ret := Consume(tries[k]);
    }

    method Handshake(answers: seq<Ret>, retries: nat) returns (ret: Ret)
      modifies this`state
      ensures ret == PerformHandshake(answers, retries)
      ensures state == if ret.Ok? then Streaming else old(state)
    {
      var k := 0;
      while k < retries && k < |answers| && answers[k] == Err(ClientError)
        invariant 0 <= k <= retries && k <= |answers|
        invariant PerformHandshake(answers, retries) == PerformHandshake(answers[k..], retries - k)
      {
        assert answers[k..][1..] == answers[k + 1..];
        k := k + 1;
      }
      ret := if k < retries && k < |answers| then answers[k] else Err(Timeout);
      if ret.Ok? {
        state := Streaming;
      }
    }

    /** try_replicate_step. */
    method TryStep(a: Answers) returns (ret: Ret)
      requires state != Exit
      modifies this, injector
      ensures (View(), ret) == Step(old(View()), a)
    {
      var before := state;
      match before {
        case Handshaking => ret := Handshake(a.handshake, a.retries);
        case Streaming => ret := Consume(a.frames);
        case Snapshotting => ret := Snapshot(a.snapshot);
      }
      if ret.Err? {
        Rollback();
      }
      match ret {
        case Ok => state := if before == Streaming then Exit else Streaming;
        case Err(NoHandshake) =>
          if before == Handshaking {
            ret := Err(Fatal);
          } else {
            state, ret := Handshaking, Ok;
          }
        case Err(NeedSnapshot) => state, ret := Snapshotting, Ok;
        case Err(_) => state := Handshaking;
      }
    }

    /** replicate. */
    method Run(answers: seq<Answers>) returns (p: Progress)
      requires state != Exit
      modifies this, injector
      ensures (View(), p) == Replicate(old(View()), answers)
    {
      ghost var r := View();
      var k := 0;
      while k < |answers|
        invariant 0 <= k <= |answers| && state != Exit
        invariant Replicate(r, answers) == Replicate(View(), answers[k..])
      {
        var ret := TryStep(answers[k]);
        if ret.Err? {
          return Returned(ret);
        }
        if state == Exit {
          state := Streaming;
          return Returned(Ok);
        }
        assert answers[k..][1..] == answers[k + 1..];
        k := k + 1;
      }
      p := Running;
    }
  }

  /** Rolling back twice is rolling back once. */
  lemma {:induction false} SameSnapshot(r: Replicator, tries: SnapshotTries)
    ensures LoadSnapshot(RollbackAll(r), tries) == LoadSnapshot(r, tries)
    decreases |tries|
  {
    assert RollbackAll(RollbackAll(r)) == RollbackAll(r);
  }
}
