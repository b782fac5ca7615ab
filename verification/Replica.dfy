/** A replica that downloads frames from its primary and injects them at transaction
boundaries, against a client and a database that may fail at any point.

Positions in the primary's log are counted from 0; the client's recorded index `n` is kept as
the number of frames `n + 1` it covers, and 0 stands for no index. */
module Replica {
  import opened WalLog

  // ----- The injector -----

  /** `wal` holds the frames already written to the open transaction of the database's log. */
  datatype Injector = Injector(
    db: Image, wal: seq<Frame>, isTxn: bool, buffer: seq<Frame>, biggest: nat, capacity: nat)

  datatype InjectOutcome =
    | Works
    | Undecodable        // the frame is rejected before it is buffered
    | Fails              // the flush fails and nothing of it is kept
    | CommitsThenFails   // the frames reach the log, but the flush still returns an error

  datatype Injected = Buffered | Committed(no: nat) | Failed

  function Max(a: nat, b: nat): nat { if a < b then b else a }

  function RollbackInjector(i: Injector): Injector {
    i.(buffer := [], wal := [], isTxn := false)
  }

  function Flush(i: Injector, o: InjectOutcome): (Injector, Injected) {
    if o != Works then
      var db := if o.CommitsThenFails? && i.buffer != [] && IsCommit(i.buffer[|i.buffer| - 1])
                then WriteAll(i.db, i.wal + i.buffer) else i.db;
      (RollbackInjector(i).(db := db, biggest := 0), Failed)
    else if i.buffer == [] then (i, Buffered)
    else
      var back := i.buffer[|i.buffer| - 1];
      var seen := Max(i.biggest, Max(i.buffer[0].no, back.no));
      if IsCommit(back) then
        (i.(db := WriteAll(i.db, i.wal + i.buffer), wal := [], isTxn := false, buffer := [], biggest := 0),
         Committed(seen))
      else
        (i.(wal := i.wal + i.buffer, isTxn := true, buffer := [], biggest := seen), Buffered)
  }

  function InjectFrame(i: Injector, f: Frame, o: InjectOutcome): (Injector, Injected) {
    if o.Undecodable? then (i, Failed)
    else
      var j := i.(buffer := i.buffer + [f]);
      if IsCommit(f) || |j.buffer| >= j.capacity then Flush(j, o) else (j, Buffered)
  }

  predicate Clean(i: Injector) {
    i.buffer == [] && i.wal == [] && !i.isTxn
  }

  // ----- The replicator -----

  datatype Error = NoHandshake | NeedSnapshot | SnapshotPending | ClientError | Timeout | Fatal | Other

  datatype Ret = Ok | Err(e: Error)

  /** Recording an index may fail before or after it has taken effect. */
  datatype Ack = Recorded | RecordedWithError | NotRecorded

  /** The index in use, the index that has reached the meta file, and the stream position: the
      furthest frame received since the stream was opened. */
  datatype Client = Client(recorded: nat, stored: nat, cursor: nat)

  datatype Item = Got(f: Frame, inject: InjectOutcome, ack: Ack) | Broken(e: Error)

  datatype Opened = Stream(start: nat, items: seq<Item>) | Refused(e: Error)

  datatype State = Handshaking | Streaming | Snapshotting | Exit

  datatype Replicator = Replicator(client: Client, injector: Injector, state: State, synced: nat)

  /** Nothing is on its way into the database. */
  predicate Idle(r: Replicator) {
    r.injector.wal + r.injector.buffer == []
  }

  function RollbackClient(c: Client): Client {
    c.(cursor := c.recorded)
  }

  function RollbackAll(r: Replicator): Replicator {
    r.(client := RollbackClient(r.client), injector := RollbackInjector(r.injector))
  }

  function InjectItem(r: Replicator, it: Item): (Replicator, Ret) {
    match it
    case Broken(e) => (r, Err(e))
    case Got(f, o, ack) =>
      var (i, res) := InjectFrame(r.injector, f, o);
      var s := r.(injector := i, synced := r.synced + 1, client := r.client.(cursor := Max(r.client.cursor, f.no + 1)));
      match res
      case Buffered => (s, Ok)
      case Failed => (s, Err(Other))
      case Committed(no) =>
        match ack
        case NotRecorded => (s, Err(Other))
        case RecordedWithError => (s.(client := s.client.(recorded := no + 1)), Err(Other))
        case Recorded => (s.(client := s.client.(recorded := no + 1, stored := no + 1)), Ok)
  }

  /** Inject until the stream ends or something fails. */
  function InjectAll(r: Replicator, items: seq<Item>): (Replicator, Ret)
    decreases items
  {
    if items == [] then (r, Ok)
    else
      var (s, ret) := InjectItem(r, items[0]);
      if ret.Err? then (s, ret) else InjectAll(s, items[1..])
  }

  function ReadStream(r: Replicator, o: Opened): (Replicator, Ret) {
    match o
    case Refused(e) => (r, Err(e))
    case Stream(start, items) => InjectAll(r.(client := r.client.(cursor := start)), items)
  }

  /** The answers to the snapshot requests of one step: the last one ends the waiting. */
  type SnapshotTries = t: seq<Opened> | t != [] && t[|t| - 1] != Refused(SnapshotPending)
    witness [Refused(Other)]

  /** Pending answers are waited out. */
  function LoadSnapshot(r: Replicator, tries: SnapshotTries): (Replicator, Ret)
    decreases |tries|
  {
    var s := RollbackAll(r);
    if tries[0] == Refused(SnapshotPending) then LoadSnapshot(s, tries[1..]) else ReadStream(s, tries[0])
  }

  /** Client errors are retried up to the limit; any other error ends the handshake. Attempts
      without a listed answer are client errors. */
  function PerformHandshake(answers: seq<Ret>, retries: nat): Ret
    decreases retries
  {
    if retries == 0 || answers == [] then Err(Timeout)
    else if answers[0] == Err(ClientError) then PerformHandshake(answers[1..], retries - 1)
    else answers[0]
  }

  /** Everything the outside may answer during one step. */
  datatype Answers = Answers(handshake: seq<Ret>, retries: nat, frames: Opened, snapshot: SnapshotTries)

  function Attempt(r: Replicator, a: Answers): (Replicator, Ret)
    requires r.state != Exit
  {
    match r.state
    case Handshaking =>
      var ret := PerformHandshake(a.handshake, a.retries);
      (if ret.Ok? then r.(state := Streaming) else r, ret)
    case Streaming => ReadStream(r, a.frames)
    case Snapshotting => LoadSnapshot(r, a.snapshot)
  }

  /** try_replicate_step; stepping a replicator that has exited is unreachable in the source. */
  function Step(r: Replicator, a: Answers): (Replicator, Ret)
    requires r.state != Exit
  {
    var (s, ret) := Attempt(r, a);
    var t := if ret.Err? then RollbackAll(s) else s;
    match ret
    case Ok => (t.(state := if r.state == Streaming then Exit else Streaming), Ok)
    case Err(NoHandshake) =>
      if r.state == Handshaking then (t, Err(Fatal)) else (t.(state := Handshaking), Ok)
    case Err(NeedSnapshot) => (t.(state := Snapshotting), Ok)
    case Err(e) => (t.(state := Handshaking), Err(e))
  }

  /** flush: what is buffered goes to the database outside any step. If that fails the frames are
      gone, and nobody tells the client. */
  function FlushNow(r: Replicator, o: InjectOutcome, ack: Ack): (Replicator, Ret) {
    var (i, res) := Flush(r.injector, o);
    var s := r.(injector := i);
    match res
    case Buffered => (s, Ok)
    case Failed => (s, Err(Other))
    case Committed(no) =>
      match ack
      case NotRecorded => (s, Err(Other))
      case RecordedWithError => (s.(client := s.client.(recorded := no + 1)), Err(Other))
      case Recorded => (s.(client := s.client.(recorded := no + 1, stored := no + 1)), Ok)
  }

  datatype Progress = Running | Returned(ret: Ret)

  /** replicate: step until an error is returned or the log has been read to its end. */
  function Replicate(r: Replicator, answers: seq<Answers>): (Replicator, Progress)
    requires r.state != Exit
    decreases answers
  {
    if answers == [] then (r, Running)
    else
      var (s, ret) := Step(r, answers[0]);
      if ret.Err? then (s, Returned(ret))
      else if s.state == Exit then (s.(state := Streaming), Returned(Ok))
      else Replicate(s, answers[1..])
  }

  // ----- Failures leave nothing open, and nobody steps after the exit -----

  /** Whenever the attempt fails, whatever the step returns, the injector has no open
      transaction and no buffered frame, and the client is back at its recorded index. */
  lemma FailedStepIsClean(r: Replicator, a: Answers)
    requires r.state != Exit
    ensures Attempt(r, a).1.Err? ==>
      && Clean(Step(r, a).0.injector)
      && Step(r, a).0.client.cursor == Step(r, a).0.client.recorded
      && Step(r, a).0.state in {Handshaking, Snapshotting}
  {
    if r.state == Handshaking {
      assert Attempt(r, a).0.state == (if Attempt(r, a).1.Ok? then Streaming else Handshaking);
    }
  }

  /** The exit state is left again before anybody can step it. */
  lemma {:induction false} NeverStepsAfterExit(r: Replicator, answers: seq<Answers>)
    requires r.state != Exit
    ensures Replicate(r, answers).0.state != Exit
    ensures Replicate(r, answers).1.Returned? && Replicate(r, answers).1.ret.Err? ==> Clean(Replicate(r, answers).0.injector)
    decreases answers
  {
    if answers != [] {
      FailedStepIsClean(r, answers[0]);
      var (s, ret) := Step(r, answers[0]);
      if ret.Ok? && s.state != Exit {
        NeverStepsAfterExit(s, answers[1..]);
      }
    }
  }

  // ----- What a step returns -----

  /** A step as a call sees it. Reading the log to its end is what makes a call return; a handshake
      and a snapshot are followed by reading the log, and the two errors the protocol knows by what
      they ask for. Any other error is returned, and the next call shakes hands again. */
  lemma StepReturns(r: Replicator, a: Answers)
    requires r.state != Exit
    ensures
      var ret, (t, p) := Attempt(r, a).1, Replicate(r, [a]);
      && (ret.Ok? ==> t.state == Streaming && p == if r.state == Streaming then Returned(Ok) else Running)
      && (ret == Err(NeedSnapshot) ==> t.state == Snapshotting && p == Running)
      && (ret == Err(NoHandshake) ==>
            t.state == Handshaking && p == if r.state == Handshaking then Returned(Err(Fatal)) else Running)
      && (ret.Err? && ret.e !in {NeedSnapshot, NoHandshake} ==> t.state == Handshaking && p == Returned(ret))
  {
    assert [a][1..] == [];
    if r.state == Handshaking {
      assert Attempt(r, a).0.state == (if Attempt(r, a).1.Ok? then Streaming else Handshaking);
    }
  }

  /** A call is its first step, and the rest of the call if that goes on. */
  lemma CallGoesOn(r: Replicator, a: Answers, rest: seq<Answers>)
    requires r.state != Exit
    ensures Replicate(r, [a]).0.state != Exit
    ensures
      var (t, p) := Replicate(r, [a]);
      Replicate(r, [a] + rest) == if p.Running? then Replicate(t, rest) else (t, p)
  {
    NeverStepsAfterExit(r, [a]);
    assert [a][1..] == [] && ([a] + rest)[1..] == rest;
    hide Step;
  }

  /** A handshake takes the first answer that is not a client error, if it comes within the limit. */
  lemma {:induction false} HandshakeExactly(answers: seq<Ret>, retries: nat)
    ensures forall k | 0 <= k < retries && k < |answers| && answers[k] != Err(ClientError) &&
                       (forall j | 0 <= j < k :: answers[j] == Err(ClientError)) ::
      PerformHandshake(answers, retries) == answers[k]
    ensures (forall k | 0 <= k < retries && k < |answers| :: answers[k] == Err(ClientError)) ==>
      PerformHandshake(answers, retries) == Err(Timeout)
    decreases retries
  {
    if retries > 0 && answers != [] && answers[0] == Err(ClientError) {
      HandshakeExactly(answers[1..], retries - 1);
      forall k | 0 < k < |answers| ensures answers[k] == answers[1..][k - 1] {}
      forall k | 0 <= k < retries && k < |answers| && answers[k] != Err(ClientError) &&
                 (forall j | 0 <= j < k :: answers[j] == Err(ClientError))
        ensures PerformHandshake(answers, retries) == answers[k]
      {
        assert forall j | 0 <= j < k - 1 :: answers[1..][j] == answers[j + 1];
      }
    }
  }

  /** The buffer is emptied by a frame exactly if the frame ends a transaction or makes it full, so
      it never is full for long. */
  lemma BufferIsBounded(i: Injector, f: Frame)
    requires |i.buffer| < Max(i.capacity, 1)
    ensures
      var j := InjectFrame(i, f, Works).0;
      && j.capacity == i.capacity && |j.buffer| < Max(i.capacity, 1)
      && (j.buffer == [] <==> IsCommit(f) || |i.buffer| + 1 >= i.capacity)
  {
    hide WriteAll;
  }

  /** The injector knows whether it has frames in an open transaction of the database. */
  lemma OpenExactly(i: Injector, f: Frame, o: InjectOutcome)
    requires i.isTxn <==> i.wal != []
    ensures InjectFrame(i, f, o).0.isTxn <==> InjectFrame(i, f, o).0.wal != []
    ensures RollbackInjector(i).isTxn <==> RollbackInjector(i).wal != []
  {
    hide WriteAll;
  }

  /** Every frame received is counted. */
  lemma {:induction false} SyncedCounts(r: Replicator, items: seq<Item>)
    ensures InjectAll(r, items).1.Ok? ==> InjectAll(r, items).0.synced == r.synced + |items|
    decreases items
  {
    if items != [] {
      SyncedCounts(InjectItem(r, items[0]).0, items[1..]);
    }
  }

  // ----- Following the primary's log -----

  ghost predicate IsLog(log: seq<Frame>) {
    forall k | 0 <= k < |log| :: log[k].no == k
  }

  /** A frame that belongs to the transaction after position r, and does not end it. */
  ghost predicate FromOpenTxn(log: seq<Frame>, r: nat, f: Frame) {
    exists k :: r <= k < |log| && log[k] == f && NoCommit(log, r, k + 1)
  }

  /** The database is at the recorded index or one transaction ahead of it. */
  ghost predicate AtOrOneAhead(log: seq<Frame>, r: nat, b: nat) {
    && r <= b && Boundary(log, r) && Boundary(log, b)
    && (b == r || NoCommit(log, r, b - 1))
  }

  /** The frames not yet committed are leftovers of the transaction after the recorded index,
      followed by its frames up to the client's position. */
  ghost predicate Pending(log: seq<Frame>, r: nat, c: nat, rest: seq<Frame>, frames: seq<Frame>) {
    && r <= c <= |log| && NoCommit(log, r, c)
    && frames == rest + log[r..c]
    && forall f | f in rest :: FromOpenTxn(log, r, f)
  }

  /** What holds of the replica whether or not it is inside a transaction: the database is at a
      boundary, and no index is ahead of it. */
  ghost predicate Kept(log: seq<Frame>, r: Replicator, b: nat) {
    && IsLog(log)
    && Boundary(log, b) && Boundary(log, r.client.recorded) && r.client.recorded <= b
    && Boundary(log, r.client.stored) && r.client.stored <= r.client.recorded
    && r.injector.db == ImageAt(log, b)
    && (r.injector.biggest == 0 || r.injector.biggest < |log|)
  }

  /** No frame number is left over that is beyond the transaction after the recorded index. */
  ghost predicate Within(log: seq<Frame>, r: Replicator) {
    r.injector.biggest == 0 || NoCommit(log, r.client.recorded, r.injector.biggest + 1)
  }

  /** The replica can go on with the frame after its recorded index. */
  ghost predicate Near(log: seq<Frame>, r: Replicator, b: nat) {
    AtOrOneAhead(log, r.client.recorded, b) && Within(log, r)
  }

  ghost predicate Follows(log: seq<Frame>, r: Replicator, b: nat, rest: seq<Frame>) {
    && Kept(log, r, b) && Near(log, r, b)
    && Pending(log, r.client.recorded, r.client.cursor, rest, r.injector.wal + r.injector.buffer)
  }

  /** What is left over from the transaction is written again by the whole transaction. */
  lemma LeftoversRewritten(log: seq<Frame>, r: nat, c: nat, rest: seq<Frame>, frames: seq<Frame>)
    requires Pending(log, r, c, rest, frames) && c < |log| && IsCommit(log[c])
    ensures frames + [log[c]] == rest + log[r..c + 1]
    ensures forall k | 0 <= k < |rest| :: Writes(log[r..c + 1], rest[k].page)
  {
    var txn := log[r..c + 1];
    forall k | 0 <= k < |rest| ensures Writes(txn, rest[k].page) {
      assert rest[k] in rest;
      var m :| r <= m < |log| && log[m] == rest[k] && NoCommit(log, r, m + 1);
      assert txn[m - r] == log[m];
    }
  }

  /** Committing the pending frames leads to the end of their transaction, from the image
      before it and from the image after it: applying the last transaction again is harmless. */
  lemma CommitReachesBoundary(log: seq<Frame>, r: nat, b: nat, c: nat, rest: seq<Frame>, frames: seq<Frame>)
    requires AtOrOneAhead(log, r, b) && Pending(log, r, c, rest, frames)
    requires c < |log| && IsCommit(log[c])
    ensures b in {r, c + 1}
    ensures WriteAll(ImageAt(log, b), frames + [log[c]]) == ImageAt(log, c + 1)
  {
    hide WriteAll;
    var txn := log[r..c + 1];
    assert b != r ==> b == c + 1;
    LeftoversRewritten(log, r, c, rest, frames);
    hide Pending;
    WriteAllConcat(ImageAt(log, b), rest, txn);
    Overwritten(ImageAt(log, b), rest, txn);
    assert log[..c + 1] == log[..r] + txn;
    WriteAllConcat(map[], log[..r], txn);
    if b != r {
      forall k | 0 <= k < |txn| ensures Writes(txn, txn[k].page) {}
      Overwritten(ImageAt(log, r), txn, txn);
    }
  }

  /** The front of the buffer is from the same transaction as the frame that is added to it. */
  lemma FrontIsNoLater(log: seq<Frame>, r: nat, c: nat, rest: seq<Frame>, wal: seq<Frame>, buffer: seq<Frame>)
    requires IsLog(log) && Pending(log, r, c, rest, wal + buffer) && c < |log| && buffer != []
    ensures FromOpenTxn(log, r, buffer[0])
    ensures IsCommit(log[c]) ==> buffer[0].no < c
    ensures buffer[0].no < |log| && NoCommit(log, r, buffer[0].no + 1)
  {
    var frames := wal + buffer;
    assert buffer[0] == frames[|wal|];
    if |wal| < |rest| {
      assert frames[|wal|] == rest[|wal|];
      assert buffer[0] in rest;
    } else {
      assert frames[|wal|] == log[r..c][|wal| - |rest|];
      assert buffer[0] == log[r + |wal| - |rest|];
    }
  }

  lemma CommitFlushes(i: Injector, f: Frame)
    requires IsCommit(f)
    ensures
      var front := if i.buffer == [] then f else i.buffer[0];
      var (j, res) := InjectFrame(i, f, Works);
      && res == Committed(Max(i.biggest, Max(front.no, f.no)))
      && j.db == WriteAll(i.db, i.wal + i.buffer + [f]) && Clean(j) && j.biggest == 0
  {
    hide WriteAll;
    var buffer := i.buffer + [f];
    assert buffer[|buffer| - 1] == f;
    assert i.wal + buffer == i.wal + i.buffer + [f];
  }

  lemma InjectCommits(log: seq<Frame>, r: Replicator, b: nat, rest: seq<Frame>)
    requires Follows(log, r, b, rest) && r.client.cursor < |log| && IsCommit(log[r.client.cursor])
    ensures var c := r.client.cursor;
      var (i, res) := InjectFrame(r.injector, log[c], Works);
      res == Committed(c) && i.db == ImageAt(log, c + 1) && Clean(i) && i.biggest == 0
  {
    assert r.client.recorded <= r.client.cursor;
    hide WriteAll;
    hide Pending;
    hide InjectFrame;
    var c := r.client.cursor;
    if r.injector.buffer != [] {
      FrontIsNoLater(log, r.client.recorded, c, rest, r.injector.wal, r.injector.buffer);
    }
    CommitReachesBoundary(log, r.client.recorded, b, c, rest, r.injector.wal + r.injector.buffer);
    CommitFlushes(r.injector, log[c]);
  }

  /** A frame that does not end a transaction waits in the buffer, goes to the log of the database with
      what was buffered before, or is lost with it. */
  lemma Buffers(i: Injector, f: Frame, o: InjectOutcome)
    requires !IsCommit(f) && !o.Undecodable?
    ensures
      var front := if i.buffer == [] then f else i.buffer[0];
      var (j, res) := InjectFrame(i, f, o);
      && j.db == i.db && (res == Buffered || (res == Failed && j.biggest == 0))
      && (o.Works? ==> res == Buffered)
      && (res == Buffered ==>
            && j.wal + j.buffer == i.wal + i.buffer + [f]
            && ((j.wal == i.wal && j.biggest == i.biggest) || j.biggest == Max(i.biggest, Max(front.no, f.no))))
  {
    hide WriteAll;
    var buffer := i.buffer + [f];
    assert buffer[|buffer| - 1] == f;
    assert i.wal + buffer == i.wal + i.buffer + [f];
    assert i.wal + buffer + [] == i.wal + buffer;
  }

  lemma InjectBuffers(log: seq<Frame>, r: Replicator, b: nat, rest: seq<Frame>)
    requires Follows(log, r, b, rest) && r.client.cursor < |log| && !IsCommit(log[r.client.cursor])
    ensures var c := r.client.cursor;
      var (i, res) := InjectFrame(r.injector, log[c], Works);
      res == Buffered && Follows(log, r.(injector := i, client := r.client.(cursor := c + 1)), b, rest)
  {
    assert NoCommit(log, r.client.recorded, r.client.cursor + 1);
    hide Pending;
    hide ImageAt;
    hide InjectFrame;
    var c := r.client.cursor;
    if r.injector.buffer != [] {
      FrontIsNoLater(log, r.client.recorded, c, rest, r.injector.wal, r.injector.buffer);
    }
    Buffers(r.injector, log[c], Works);
    PendingGrows(log, r.client.recorded, c, rest, r.injector.wal + r.injector.buffer);
  }

  lemma PendingGrows(log: seq<Frame>, r: nat, c: nat, rest: seq<Frame>, frames: seq<Frame>)
    requires Pending(log, r, c, rest, frames) && c < |log| && !IsCommit(log[c])
    ensures Pending(log, r, c + 1, rest, frames + [log[c]])
  {
    assert log[r..c + 1] == log[r..c] + [log[c]];
  }

  lemma InjectFails(log: seq<Frame>, r: Replicator, b: nat, rest: seq<Frame>, o: InjectOutcome) returns (d: nat)
    requires Follows(log, r, b, rest) && r.client.cursor < |log|
    requires InjectFrame(r.injector, log[r.client.cursor], o).1.Failed?
    ensures Kept(log, r.(injector := InjectFrame(r.injector, log[r.client.cursor], o).0), d)
    ensures Near(log, r.(injector := InjectFrame(r.injector, log[r.client.cursor], o).0), d)
  {
    hide WriteAll;
    var c := r.client.cursor;
    d := b;
    if o.CommitsThenFails? && IsCommit(log[c]) {
      d := c + 1;
      CommitReachesBoundary(log, r.client.recorded, b, c, rest, r.injector.wal + r.injector.buffer);
      assert r.injector.wal + (r.injector.buffer + [log[c]]) == (r.injector.wal + r.injector.buffer) + [log[c]];
    }
  }

  /** The items of a stream are the log, in order, until it ends or breaks. */
  ghost predicate InOrder(log: seq<Frame>, start: nat, items: seq<Item>) {
    forall k | 0 <= k < |items| && items[k].Got? :: start + k < |log| && items[k].f == log[start + k]
  }

  lemma KeptAtTheEnd(log: seq<Frame>, r: Replicator, b: nat, s: Replicator, n: nat)
    requires Kept(log, r, b) && Boundary(log, n) && r.client.recorded < n
    requires s.injector.db == ImageAt(log, n) && s.injector.biggest == 0
    requires s.client.recorded in {r.client.recorded, n} && s.client.stored in {r.client.stored, s.client.recorded}
    ensures Kept(log, s, n)
  {
  }

  lemma InStepAtTheEnd(log: seq<Frame>, r: Replicator, n: nat)
    requires Kept(log, r, n) && r.client.recorded == n == r.client.cursor && Clean(r.injector) && r.injector.biggest == 0
    ensures Follows(log, r, n, [])
  {
    hide IsLog;
    hide ImageAt;
    assert log[n..n] == [];
  }

  /** What the client makes of a commit. */
  lemma CommitItem(r: Replicator, it: Item, no: nat)
    requires it.Got? && InjectFrame(r.injector, it.f, it.inject).1 == Committed(no)
    ensures var (s, ret) := InjectItem(r, it);
      && s.injector == InjectFrame(r.injector, it.f, it.inject).0 && s.client.cursor == Max(r.client.cursor, it.f.no + 1)
      && s.client.recorded == (if it.ack.NotRecorded? then r.client.recorded else no + 1)
      && s.client.stored == (if it.ack.Recorded? then no + 1 else r.client.stored)
      && ret.Ok? == it.ack.Recorded?
  {
    hide InjectFrame;
  }

  /** The state after the commit of a transaction of the log. */
  lemma CommitFollows(log: seq<Frame>, r: Replicator, b: nat, rest: seq<Frame>, it: Item)
    requires Follows(log, r, b, rest) && r.client.cursor < |log| && IsCommit(log[r.client.cursor])
    requires it.Got? && it.f == log[r.client.cursor]
    requires InjectFrame(r.injector, it.f, it.inject) == InjectFrame(r.injector, it.f, Works)
    ensures var (s, ret) := InjectItem(r, it);
      var d := r.client.cursor + 1;
      && Kept(log, s, d) && Near(log, s, d) && AtOrOneAhead(log, r.client.recorded, d)
      && (ret.Ok? ==> Follows(log, s, d, []) && s.client.cursor == d)
  {
    InjectCommits(log, r, b, rest);
    var c := r.client.cursor;
    assert r.client.recorded <= c && NoCommit(log, r.client.recorded, c);
    hide InjectFrame;
    hide Pending;
    CommitItem(r, it, c);
    hide InjectItem;
    var (s, ret) := InjectItem(r, it);
    KeptAtTheEnd(log, r, b, s, c + 1);
    if ret.Ok? {
      InStepAtTheEnd(log, s, c + 1);
    }
  }

  lemma ItemFollows(log: seq<Frame>, r: Replicator, b: nat, rest: seq<Frame>, it: Item)
    returns (d: nat, rest': seq<Frame>)
    requires Follows(log, r, b, rest)
    requires it.Got? ==> r.client.cursor < |log| && it.f == log[r.client.cursor]
    ensures var (s, ret) := InjectItem(r, it);
      && Kept(log, s, d) && Near(log, s, d)
      && (ret.Ok? ==> Follows(log, s, d, rest') && s.client.cursor == r.client.cursor + 1)
    ensures AtOrOneAhead(log, r.client.recorded, d)
  {
    d, rest' := b, rest;
    if it.Got? {
      var c := r.client.cursor;
      if InjectFrame(r.injector, log[c], it.inject).1.Failed? {
        d := InjectFails(log, r, b, rest, it.inject);
      } else {
        WorkedOrUntouched(r.injector, log[c], it.inject);
        if IsCommit(log[c]) {
          CommitFollows(log, r, b, rest, it);
          d, rest' := c + 1, [];
        } else {
          InjectBuffers(log, r, b, rest);
        }
      }
    }
  }

  lemma {:induction false} StreamFollows(log: seq<Frame>, r: Replicator, b: nat, rest: seq<Frame>, items: seq<Item>)
    returns (d: nat, rest': seq<Frame>)
    requires Follows(log, r, b, rest) && InOrder(log, r.client.cursor, items)
    ensures var (s, ret) := InjectAll(r, items);
      Kept(log, s, d) && Near(log, s, d) && (ret.Ok? ==> Follows(log, s, d, rest'))
    decreases items
  {
    hide Pending;
    hide WriteAll;
    hide InjectItem;
    d, rest' := b, rest;
    if items != [] {
      assert items[0].Got? ==> items[0].f == log[r.client.cursor + 0];
      d, rest' := ItemFollows(log, r, b, rest, items[0]);
      var (s, ret) := InjectItem(r, items[0]);
      if ret.Ok? {
        assert forall k | 0 <= k < |items[1..]| :: items[1..][k] == items[k + 1];
        d, rest' := StreamFollows(log, s, d, rest', items[1..]);
      }
    }
  }

  /** A frame that is only buffered does not depend on how a flush would have gone. */
  lemma WorkedOrUntouched(i: Injector, f: Frame, o: InjectOutcome)
    ensures !InjectFrame(i, f, o).1.Failed? ==> InjectFrame(i, f, o) == InjectFrame(i, f, Works)
  {
  }

  lemma RolledBackKeeps(log: seq<Frame>, r: Replicator, b: nat)
    requires Kept(log, r, b)
    ensures Kept(log, RollbackAll(r), b) && Idle(RollbackAll(r))
  {
  }

  /** With any frame number left over, the commit of the frame at the client's position records the
      index after it if and only if the number left over is no larger. */
  lemma LeftoverExactly(log: seq<Frame>, r: Replicator, b: nat, rest: seq<Frame>, ack: Ack)
    requires Kept(log, r, b) && r.client.cursor < |log| && IsCommit(log[r.client.cursor]) && !ack.NotRecorded?
    requires Pending(log, r.client.recorded, r.client.cursor, rest, r.injector.wal + r.injector.buffer)
    ensures InjectItem(r, Got(log[r.client.cursor], Works, ack)).0.client.recorded == r.client.cursor + 1 <==>
            r.injector.biggest <= r.client.cursor
  {
    var c := r.client.cursor;
    hide InjectFrame;
    if r.injector.buffer != [] {
      FrontIsNoLater(log, r.client.recorded, c, rest, r.injector.wal, r.injector.buffer);
    }
    CommitFlushes(r.injector, log[c]);
  }

  // ----- Snapshots -----

  /** The last write to its page before position n. */
  ghost predicate LastWrite(log: seq<Frame>, n: nat, j: nat) {
    j < n <= |log| && forall k | j < k < n :: log[k].page != log[j].page
  }

  /** The last version of every page written from lo up to n, newest first, with the size on the last
      frame. */
  ghost predicate SnapshotOf(log: seq<Frame>, lo: nat, n: nat, snap: seq<Frame>) {
    && IsLog(log) && lo < n <= |log| && Boundary(log, n) && snap != []
    && (forall k | 0 <= k < |snap| ::
          && lo <= snap[k].no && LastWrite(log, n, snap[k].no)
          && snap[k].page == log[snap[k].no].page && snap[k].data == log[snap[k].no].data)
    && (forall i, k | 0 <= i < k < |snap| :: snap[i].no > snap[k].no)
    && (forall j: nat | lo <= j && LastWrite(log, n, j) :: exists k :: 0 <= k < |snap| && snap[k].no == j)
    && (forall k | 0 <= k < |snap| :: IsCommit(snap[k]) <==> k == |snap| - 1)
  }

  lemma {:induction false} LastWriteWins(x: Image, frames: seq<Frame>, j: nat)
    requires j < |frames| && forall k | j < k < |frames| :: frames[k].page != frames[j].page
    ensures frames[j].page in WriteAll(x, frames) && WriteAll(x, frames)[frames[j].page] == frames[j].data
  {
    var last := |frames| - 1;
    if j < last {
      LastWriteWins(x, frames[..last], j);
    }
  }

  lemma {:induction false} SomeLastWrite(log: seq<Frame>, n: nat, k: nat) returns (j: nat)
    requires k < n <= |log|
    ensures k <= j && LastWrite(log, n, j) && log[j].page == log[k].page
    decreases n - k
  {
    j := k;
    if m :| k < m < n && log[m].page == log[k].page {
      j := SomeLastWrite(log, n, m);
    }
  }

  lemma SnapshotPage(log: seq<Frame>, lo: nat, n: nat, snap: seq<Frame>, x: Image, k: nat)
    requires SnapshotOf(log, lo, n, snap) && lo <= k < n
    ensures var p := log[k].page;
      p in WriteAll(x, snap) && p in ImageAt(log, n) && WriteAll(x, snap)[p] == ImageAt(log, n)[p]
  {
    hide WriteAll;
    var j := SomeLastWrite(log, n, k);
    LastWriteWins(map[], log[..n], j);
    var m :| 0 <= m < |snap| && snap[m].no == j;
    forall i | m < i < |snap| ensures snap[i].page != log[k].page {
      assert LastWrite(log, n, snap[i].no) && snap[i].no < j;
    }
    LastWriteWins(x, snap, m);
  }

  /** A snapshot takes the database to the image at its end, from any earlier position that is not
      before its start. */
  lemma SnapshotReaches(log: seq<Frame>, lo: nat, n: nat, snap: seq<Frame>, b: nat)
    requires SnapshotOf(log, lo, n, snap) && lo <= b <= n
    ensures WriteAll(ImageAt(log, b), snap) == ImageAt(log, n)
  {
    hide WriteAll;
    var x := ImageAt(log, b);
    forall p: PageNo
      ensures (p in WriteAll(x, snap)) == (p in ImageAt(log, n))
      ensures p in ImageAt(log, n) ==> WriteAll(x, snap)[p] == ImageAt(log, n)[p]
    {
      if k :| lo <= k < n && log[k].page == p {
        SnapshotPage(log, lo, n, snap, x, k);
      } else {
        SnapshotElsewhere(log, lo, n, snap, b, p);
      }
    }
  }

  /** A page not written since the start of the snapshot is as it was. */
  lemma SnapshotElsewhere(log: seq<Frame>, lo: nat, n: nat, snap: seq<Frame>, b: nat, p: PageNo)
    requires SnapshotOf(log, lo, n, snap) && lo <= b <= n && forall k | lo <= k < n :: log[k].page != p
    ensures (p in WriteAll(ImageAt(log, b), snap)) == (p in ImageAt(log, n))
    ensures p in ImageAt(log, n) ==> WriteAll(ImageAt(log, b), snap)[p] == ImageAt(log, n)[p]
  {
    hide WriteAll;
    forall k | 0 <= k < |snap| ensures snap[k].page != p {
      assert LastWrite(log, n, snap[k].no);
    }
    UntouchedPage(ImageAt(log, b), snap, p);
    assert log[..n] == log[..b] + log[b..n];
    WriteAllConcat(map[], log[..b], log[b..n]);
    UntouchedPage(ImageAt(log, b), log[b..n], p);
  }

  lemma SnapshotStartsAtItsEnd(log: seq<Frame>, lo: nat, n: nat, snap: seq<Frame>)
    requires SnapshotOf(log, lo, n, snap)
    ensures snap[0].no == n - 1 && forall k | 0 <= k < |snap| :: snap[k].no < n
  {
    assert LastWrite(log, n, n - 1);
    var k :| 0 <= k < |snap| && snap[k].no == n - 1;
    assert LastWrite(log, n, snap[0].no);
    forall k | 0 <= k < |snap| ensures snap[k].no < n {
      assert LastWrite(log, n, snap[k].no);
    }
  }

  /** A snapshot stream gives the frames in order and all of them, unless it breaks. */
  ghost predicate Delivers(snap: seq<Frame>, from: nat, items: seq<Item>) {
    && (forall k | 0 <= k < |items| && items[k].Got? :: from + k < |snap| && items[k].f == snap[from + k])
    && (from + |items| == |snap| || exists k :: 0 <= k < |items| && items[k].Broken?)
  }

  /** The database takes the snapshot, but the client does not hear of it. */
  predicate LosesIndex(it: Item) {
    it.Got? && (it.inject.CommitsThenFails? || it.ack.NotRecorded?)
  }

  ghost predicate EndIsHeard(items: seq<Item>) {
    forall k | 0 <= k < |items| && items[k].Got? && IsCommit(items[k].f) :: !LosesIndex(items[k])
  }

  /** The stream is a snapshot of the log from the client's index on. */
  ghost predicate OffersSnapshot(log: seq<Frame>, recorded: nat, o: Opened) {
    o.Stream? ==> exists snap :: SnapshotOf(log, recorded, o.start, snap) && Delivers(snap, 0, o.items)
  }

  /** After the first k frames of a snapshot. */
  ghost predicate Loading(log: seq<Frame>, n: nat, snap: seq<Frame>, r: Replicator, b: nat, k: nat) {
    && SnapshotOf(log, r.client.recorded, n, snap) && r.client.cursor == n
    && Kept(log, r, b) && b <= n
    && k < |snap| && r.injector.wal + r.injector.buffer == snap[..k]
    && r.injector.biggest < n && (r.injector.wal != [] ==> r.injector.biggest == n - 1)
  }

  /** The front of the buffer is the first frame of the snapshot, unless that has left the buffer. */
  lemma SnapshotFront(log: seq<Frame>, lo: nat, n: nat, snap: seq<Frame>, i: Injector, k: nat)
    requires SnapshotOf(log, lo, n, snap) && k < |snap| && i.wal + i.buffer == snap[..k]
    ensures i.wal + i.buffer + [snap[k]] == snap[..k + 1]
    ensures var front := if i.buffer == [] then snap[k] else i.buffer[0];
      front.no < n && snap[k].no < n && (i.wal == [] ==> front.no == n - 1)
  {
    SnapshotStartsAtItsEnd(log, lo, n, snap);
    hide SnapshotOf;
    assert i.wal == [] ==> i.buffer == snap[..k];
    assert i.buffer != [] ==> i.buffer[0] == (i.wal + i.buffer)[|i.wal|] == snap[|i.wal|];
  }

  lemma LoadingFrame(log: seq<Frame>, n: nat, snap: seq<Frame>, r: Replicator, b: nat, k: nat, o: InjectOutcome)
    requires Loading(log, n, snap, r, b, k) && k < |snap| - 1 && !o.Undecodable?
    ensures var (i, res) := InjectFrame(r.injector, snap[k], o);
      && (res == Buffered ==> Loading(log, n, snap, r.(injector := i), b, k + 1))
      && (res != Buffered ==> res == Failed && Kept(log, r.(injector := i), b))
  {
    SnapshotFront(log, r.client.recorded, n, snap, r.injector, k);
    LoadingCommits(log, r.client.recorded, n, snap, k);
    Buffers(r.injector, snap[k], o);
    assert n <= |log|;
    hide SnapshotOf;
    hide InjectFrame;
    hide ImageAt;
  }

  lemma LoadingCommits(log: seq<Frame>, lo: nat, n: nat, snap: seq<Frame>, k: nat)
    requires SnapshotOf(log, lo, n, snap) && k < |snap|
    ensures IsCommit(snap[k]) <==> k == |snap| - 1
  {
  }

  lemma LoadingLast(log: seq<Frame>, n: nat, snap: seq<Frame>, r: Replicator, b: nat, k: nat)
    requires Loading(log, n, snap, r, b, k) && k == |snap| - 1
    ensures WriteAll(r.injector.db, r.injector.wal + r.injector.buffer + [snap[k]]) == ImageAt(log, n)
    ensures var (i, res) := InjectFrame(r.injector, snap[k], Works);
      res == Committed(n - 1) && i.db == ImageAt(log, n) && Clean(i) && i.biggest == 0
  {
    hide SnapshotOf;
    hide WriteAll;
    hide InjectFrame;
    hide ImageAt;
    var lo := r.client.recorded;
    LoadingCommits(log, lo, n, snap, k);
    SnapshotReaches(log, lo, n, snap, b);
    SnapshotFront(log, lo, n, snap, r.injector, k);
    assert snap[..k + 1] == snap;
    CommitFlushes(r.injector, snap[k]);
  }

  /** The commit at the end, when the flush returns an error all the same. */
  lemma LoadingLastFails(log: seq<Frame>, n: nat, snap: seq<Frame>, r: Replicator, b: nat, k: nat, o: InjectOutcome)
    returns (d: nat)
    requires Loading(log, n, snap, r, b, k) && k == |snap| - 1 && (o.Fails? || o.CommitsThenFails?)
    ensures d == if o.CommitsThenFails? then n else b
    ensures var (i, res) := InjectFrame(r.injector, snap[k], o);
      res == Failed && i.biggest == 0 && Kept(log, r.(injector := i), d)
  {
    LoadingCommits(log, r.client.recorded, n, snap, k);
    LoadingLast(log, n, snap, r, b, k);
    assert Boundary(log, n);
    d := if o.CommitsThenFails? then n else b;
    CommitFails(r.injector, snap[k], o);
    hide SnapshotOf;
    hide WriteAll;
    hide InjectFrame;
  }

  lemma CommitFails(i: Injector, f: Frame, o: InjectOutcome)
    requires IsCommit(f) && (o.Fails? || o.CommitsThenFails?)
    ensures var (j, res) := InjectFrame(i, f, o);
      && res == Failed && j.biggest == 0
      && j.db == if o.CommitsThenFails? then WriteAll(i.db, i.wal + i.buffer + [f]) else i.db
  {
    hide WriteAll;
    var buffer := i.buffer + [f];
    assert buffer[|buffer| - 1] == f;
    assert i.wal + buffer == i.wal + i.buffer + [f];
  }

  lemma LoadingEnds(log: seq<Frame>, n: nat, snap: seq<Frame>, r: Replicator, b: nat, k: nat, it: Item)
    requires Loading(log, n, snap, r, b, k) && k == |snap| - 1 && it.Got? && it.f == snap[k] && it.inject.Works?
    ensures var (s, ret) := InjectItem(r, it);
      && Kept(log, s, n) && (ret.Ok? ==> Follows(log, s, n, [])) && s.injector.biggest == 0
      && s.client.recorded == (if it.ack.NotRecorded? then r.client.recorded else n)
      && s.client.stored == (if it.ack.Recorded? then n else r.client.stored)
  {
    SnapshotStartsAtItsEnd(log, r.client.recorded, n, snap);
    assert Boundary(log, n) && r.client.recorded < n && Kept(log, r, b);
    assert Max(r.client.cursor, snap[k].no + 1) == n;
    hide *;
    LoadingLast(log, n, snap, r, b, k);
    CommitItem(r, it, n - 1);
    var s := InjectItem(r, it).0;
    KeptAtTheEnd(log, r, b, s, n);
    if s.client.recorded == n {
      InStepAtTheEnd(log, s, n);
    }
  }

  /** One item of a snapshot. The database is within one transaction of the index afterwards if it was
      before, unless the end of a snapshot further on is lost. */
  lemma LoadingItem(log: seq<Frame>, n: nat, snap: seq<Frame>, r: Replicator, b: nat, k: nat, it: Item, tight: bool)
    returns (d: nat)
    requires Loading(log, n, snap, r, b, k) && (it.Got? ==> it.f == snap[k])
    requires tight ==> AtOrOneAhead(log, r.client.recorded, b)
    requires tight && k == |snap| - 1 && LosesIndex(it) ==> AtOrOneAhead(log, r.client.recorded, n)
    ensures var (s, ret) := InjectItem(r, it);
      && Kept(log, s, d) && (tight ==> AtOrOneAhead(log, s.client.recorded, d))
      && (s.client.recorded == r.client.recorded || s.injector.biggest == 0)
      && (ret.Ok? ==> if k + 1 < |snap| then d == b && Loading(log, n, snap, s, b, k + 1) && s.client.recorded == r.client.recorded
                      else d == n && Follows(log, s, n, []))
  {
    d := b;
    if it.Got? && !it.inject.Undecodable? {
      SnapshotStartsAtItsEnd(log, r.client.recorded, n, snap);
      if k < |snap| - 1 {
        LoadingFrame(log, n, snap, r, b, k, it.inject);
      } else if it.inject.Works? {
        LoadingLast(log, n, snap, r, b, k);
        d := n;
        LoadingEnds(log, n, snap, r, b, k, it);
      } else {
        d := LoadingLastFails(log, n, snap, r, b, k, it.inject);
      }
      hide InjectFrame;
    }
  }

  lemma DeliversRest(snap: seq<Frame>, from: nat, items: seq<Item>)
    requires Delivers(snap, from, items) && items != [] && items[0].Got?
    ensures Delivers(snap, from + 1, items[1..]) && (EndIsHeard(items) ==> EndIsHeard(items[1..]))
  {
    forall k | 0 <= k < |items| - 1 ensures items[1..][k] == items[k + 1] {}
    if k :| 0 <= k < |items| && items[k].Broken? {
      assert items[1..][k - 1].Broken?;
    }
  }

  lemma {:induction false} SnapshotRest(log: seq<Frame>, n: nat, snap: seq<Frame>, r: Replicator, b: nat, k: nat, items: seq<Item>, tight: bool)
    returns (d: nat)
    requires Loading(log, n, snap, r, b, k) && Delivers(snap, k, items)
    requires tight ==> AtOrOneAhead(log, r.client.recorded, b)
    requires tight ==> AtOrOneAhead(log, r.client.recorded, n) || EndIsHeard(items)
    ensures var (s, ret) := InjectAll(r, items);
      && Kept(log, s, d) && (tight ==> AtOrOneAhead(log, s.client.recorded, d))
      && (s.client.recorded == r.client.recorded || s.injector.biggest == 0)
      && (ret.Ok? ==> Follows(log, s, d, []))
    decreases items
  {
    assert items != [] && (items[0].Got? ==> items[0].f == snap[k + 0]);
    LoadingCommits(log, r.client.recorded, n, snap, k);
    d := LoadingItem(log, n, snap, r, b, k, items[0], tight);
    var (s, ret) := InjectItem(r, items[0]);
    hide Loading;
    hide InjectItem;
    hide Kept;
    hide AtOrOneAhead;
    if ret.Ok? {
      assert items[0].Got? by { BrokenFails(r, items[0]); }
      DeliversRest(snap, k, items);
      if k + 1 < |snap| {
        d := SnapshotRest(log, n, snap, s, b, k + 1, items[1..], tight);
      } else if items[1..] != [] {
        assert items[1..][0].Broken?;
        BrokenFails(s, items[1..][0]);
      }
    }
  }

  lemma BrokenFails(r: Replicator, it: Item)
    ensures it.Broken? ==> InjectItem(r, it).0 == r && InjectItem(r, it).1.Err?
  {
  }

  // ----- What has to be known about the past -----

  /** What cannot be taken for granted: that no frame number of a broken snapshot is left over, and
      that the database is within one transaction of the recorded index. */
  datatype Doubt = Doubt(number: bool, place: bool)

  const NO_DOUBT := Doubt(false, false)

  ghost predicate Trusted(log: seq<Frame>, r: Replicator, b: nat, h: Doubt) {
    && (!h.place ==> AtOrOneAhead(log, r.client.recorded, b))
    && (!h.number ==> Within(log, r))
  }

  /** Where there is doubt, a snapshot has to end beyond the frame number left over, and not before
      the database. */
  ghost predicate IsNewer(log: seq<Frame>, recorded: nat, i: Injector, h: Doubt, n: nat) {
    && (h.number ==> i.biggest < n)
    && (h.place ==> exists x :: recorded <= x <= n && Boundary(log, x) && i.db == ImageAt(log, x))
  }

  ghost predicate FaithfulSnapshot(log: seq<Frame>, recorded: nat, i: Injector, h: Doubt, o: Opened) {
    OffersSnapshot(log, recorded, o) && (o.Stream? ==> IsNewer(log, recorded, i, h, o.start))
  }

  /** The answer that ends the waiting. */
  function Answer(tries: SnapshotTries): Opened
    decreases |tries|
  {
    if tries[0] == Refused(SnapshotPending) then Answer(tries[1..]) else tries[0]
  }

  /** After a snapshot: a whole one leaves no doubt. One that fails may leave a frame number, and a
      database whose place is lost to the client. */
  ghost function SnapshotDoubt(log: seq<Frame>, r: Replicator, o: Opened, h: Doubt): Doubt {
    var (s, ret) := ReadStream(r, o);
    if ret.Ok? then NO_DOUBT
    else if o.Refused? then h
    else
      Doubt(s.injector.biggest != 0 && (h.number || s.injector.biggest != r.injector.biggest),
            h.place || !(AtOrOneAhead(log, r.client.recorded, o.start) || EndIsHeard(o.items)))
  }

  /** Without doubt every snapshot is new enough. */
  lemma SnapshotIsNewer(log: seq<Frame>, r: Replicator, b: nat, n: nat, h: Doubt) returns (d: nat)
    requires Kept(log, r, b) && Trusted(log, r, b, h) && IsNewer(log, r.client.recorded, r.injector, h, n)
    requires r.client.recorded < n <= |log| && Boundary(log, n)
    ensures r.injector.biggest < n && Kept(log, r, d) && Trusted(log, r, d, h) && d <= n
  {
    d := b;
    assert IsCommit(log[n - 1]);
    if h.place {
      d :| r.client.recorded <= d <= n && Boundary(log, d) && r.injector.db == ImageAt(log, d);
    }
  }

  lemma SnapshotStream(log: seq<Frame>, r: Replicator, b: nat, o: Opened, h: Doubt) returns (d: nat)
    requires Kept(log, r, b) && Idle(r) && Trusted(log, r, b, h)
    requires FaithfulSnapshot(log, r.client.recorded, r.injector, h, o)
    ensures var (s, ret) := ReadStream(r, o);
      && Kept(log, s, d) && Trusted(log, s, d, SnapshotDoubt(log, r, o, h))
      && (ret.Ok? ==> Follows(log, s, d, []))
  {
    d := b;
    if o.Stream? {
      var snap :| SnapshotOf(log, r.client.recorded, o.start, snap) && Delivers(snap, 0, o.items);
      d := SnapshotIsNewer(log, r, b, o.start, h);
      var q := r.(client := r.client.(cursor := o.start));
      assert q.injector.wal + q.injector.buffer == snap[..0];
      assert Loading(log, o.start, snap, q, d, 0);
      var tight := !h.place && (AtOrOneAhead(log, r.client.recorded, o.start) || EndIsHeard(o.items));
      d := SnapshotRest(log, o.start, snap, q, d, 0, o.items, tight);
    }
  }

  lemma {:induction false} SnapshotFollows(log: seq<Frame>, r: Replicator, b: nat, tries: SnapshotTries, h: Doubt) returns (d: nat)
    requires Kept(log, r, b) && Trusted(log, r, b, h)
    requires forall k | 0 <= k < |tries| :: FaithfulSnapshot(log, r.client.recorded, r.injector, h, tries[k])
    ensures var (s, ret) := LoadSnapshot(r, tries);
      && Kept(log, s, d) && Trusted(log, s, d, SnapshotDoubt(log, RollbackAll(r), Answer(tries), h))
      && (ret.Ok? ==> Follows(log, s, d, []))
    decreases |tries|
  {
    RolledBackKeeps(log, r, b);
    hide FaithfulSnapshot;
    if tries[0] == Refused(SnapshotPending) {
      var q := RollbackAll(r);
      assert RollbackAll(q) == q;
      forall k | 0 <= k < |tries[1..]|
        ensures tries[1..][k] == tries[k + 1] && FaithfulSnapshot(log, q.client.recorded, q.injector, h, tries[1..][k])
      {
        SameFaith(log, r, h, tries[k + 1]);
      }
      hide SnapshotDoubt;
      d := SnapshotFollows(log, q, b, tries[1..], h);
    } else {
      SameFaith(log, r, h, tries[0]);
      hide SnapshotDoubt;
      d := SnapshotStream(log, RollbackAll(r), b, tries[0], h);
    }
  }

  lemma SameFaith(log: seq<Frame>, r: Replicator, h: Doubt, o: Opened)
    requires FaithfulSnapshot(log, r.client.recorded, r.injector, h, o)
    ensures FaithfulSnapshot(log, r.client.recorded, RollbackAll(r).injector, h, o)
  {
  }

  /** The commit of a snapshot whose index does not reach the meta file, or not even the client, takes
      the database to the snapshot's end and leaves the stored index where it was. So the database is
      at the stored index or one transaction after it if and only if the log has no commit in
      between. */
  lemma LostSnapshotExactly(log: seq<Frame>, n: nat, snap: seq<Frame>, r: Replicator, b: nat, k: nat, it: Item)
    requires Loading(log, n, snap, r, b, k) && k == |snap| - 1 && it.Got? && it.f == snap[k]
    requires it.inject.CommitsThenFails? || (it.inject.Works? && !it.ack.Recorded?)
    ensures var s := InjectItem(r, it).0;
      && s.injector.db == ImageAt(log, n) && s.client.stored == r.client.stored
      && (AtOrOneAhead(log, s.client.stored, n) <==> r.client.stored == n || NoCommit(log, r.client.stored, n - 1))
  {
    assert Boundary(log, n);
    if it.inject.Works? {
      LoadingEnds(log, n, snap, r, b, k, it);
    } else {
      var d := LoadingLastFails(log, n, snap, r, b, k, it.inject);
    }
  }

  // ----- Whole runs -----

  /** The database is at the recorded index or one transaction after it, and no frame number is left
      over from beyond. */
  ghost predicate Ready(log: seq<Frame>, r: Replicator) {
    exists b :: Near(log, r, b) && r.injector.db == ImageAt(log, b)
  }

  /** The client streams the log from where it is, or again from its recorded index; from the latter
      when nothing of the log is on its way, because a flush has lost it or it was rolled back. What
      it loads is a snapshot of the log since that index. */
  ghost predicate Offers(log: seq<Frame>, r: Replicator, a: Answers) {
    && (a.frames.Stream? ==>
          && a.frames.start in {r.client.cursor, r.client.recorded}
          && (Idle(r) ==> a.frames.start == r.client.recorded)
          && InOrder(log, a.frames.start, a.frames.items))
    && forall k | 0 <= k < |a.snapshot| :: OffersSnapshot(log, r.client.recorded, a.snapshot[k])
  }

  /** Where the past leaves a doubt, the replica has to be fit for what it receives. */
  ghost predicate Faithful(log: seq<Frame>, r: Replicator, a: Answers, h: Doubt) {
    && Offers(log, r, a)
    && (a.frames.Stream? && Idle(r) ==> (h.number ==> Within(log, r)) && (h.place ==> Ready(log, r)))
    && forall k | 0 <= k < |a.snapshot| && a.snapshot[k].Stream? ::
         IsNewer(log, r.client.recorded, r.injector, h, a.snapshot[k].start)
  }

  /** The doubt after a step. */
  ghost function Learned(log: seq<Frame>, r: Replicator, a: Answers, h: Doubt): Doubt {
    match r.state
    case Streaming => if a.frames.Stream? then NO_DOUBT else h
    case Snapshotting => SnapshotDoubt(log, RollbackAll(r), Answer(a.snapshot), h)
    case _ => h
  }

  /** On the log: in step with the client, or with nothing on its way. */
  ghost predicate OnLog(log: seq<Frame>, r: Replicator, b: nat, rest: seq<Frame>, h: Doubt) {
    && (Follows(log, r, b, rest) || (Kept(log, r, b) && Idle(r)))
    && Trusted(log, r, b, h)
  }

  lemma RestartedStream(log: seq<Frame>, r: Replicator, b: nat, rest: seq<Frame>)
    requires Follows(log, r, b, rest)
    ensures Follows(log, r.(client := r.client.(cursor := r.client.recorded)), b,
                    rest + log[r.client.recorded..r.client.cursor])
  {
    var lo, hi := r.client.recorded, r.client.cursor;
    assert rest + log[lo..hi] + log[lo..lo] == rest + log[lo..hi];
    forall f | f in rest + log[lo..hi] ensures FromOpenTxn(log, lo, f) {
      if f !in rest {
        var k :| 0 <= k < hi - lo && log[lo..hi][k] == f;
        assert log[lo + k] == f && NoCommit(log, lo, lo + k + 1);
      }
    }
  }

  lemma StreamStarts(log: seq<Frame>, r: Replicator, b: nat, rest: seq<Frame>, a: Answers, h: Doubt)
    returns (d: nat, rest': seq<Frame>)
    requires OnLog(log, r, b, rest, h) && a.frames.Stream? && Faithful(log, r, a, h)
    ensures Follows(log, r.(client := r.client.(cursor := a.frames.start)), d, rest')
  {
    d, rest' := b, rest;
    if Idle(r) {
      rest' := [];
      if h.place {
        d :| Near(log, r, d) && r.injector.db == ImageAt(log, d);
      }
    } else if a.frames.start != r.client.cursor {
      RestartedStream(log, r, b, rest);
      rest' := rest + log[r.client.recorded..r.client.cursor];
    }
  }

  lemma AttemptFollows(log: seq<Frame>, r: Replicator, b: nat, rest: seq<Frame>, a: Answers, h: Doubt)
    returns (d: nat, rest': seq<Frame>)
    requires OnLog(log, r, b, rest, h) && r.state != Exit && Faithful(log, r, a, h)
    ensures var (s, ret) := Attempt(r, a);
      && Kept(log, s, d) && Trusted(log, s, d, Learned(log, r, a, h))
      && (ret.Ok? ==> OnLog(log, s, d, rest', Learned(log, r, a, h)))
  {
    d, rest' := b, rest;
    match r.state {
      case Handshaking =>
      case Snapshotting =>
        d := SnapshotFollows(log, r, b, a.snapshot, h);
        rest' := [];
        hide SnapshotDoubt;
        hide LoadSnapshot;
      case Streaming =>
        if a.frames.Stream? {
          d, rest' := StreamStarts(log, r, b, rest, a, h);
          hide Pending;
          d, rest' := StreamFollows(log, r.(client := r.client.(cursor := a.frames.start)), d, rest', a.frames.items);
        }
    }
  }

  lemma StepFollows(log: seq<Frame>, r: Replicator, b: nat, rest: seq<Frame>, a: Answers, h: Doubt)
    returns (d: nat, rest': seq<Frame>)
    requires OnLog(log, r, b, rest, h) && r.state != Exit && Faithful(log, r, a, h)
    ensures OnLog(log, Step(r, a).0, d, rest', Learned(log, r, a, h))
  {
    d, rest' := AttemptFollows(log, r, b, rest, a, h);
    var (s, ret) := Attempt(r, a);
    StepRollsBack(r, a);
    hide Attempt;
    hide Step;
    hide Follows;
    hide Learned;
    if ret.Err? {
      RolledBackKeeps(log, s, d);
      rest' := [];
    }
    var t := if ret.Err? then RollbackAll(s) else s;
    assert OnLog(log, t, d, rest', Learned(log, r, a, h));
    OnLogInAnyState(log, t, Step(r, a).0, d, rest', Learned(log, r, a, h));
  }

  lemma StepRollsBack(r: Replicator, a: Answers)
    requires r.state != Exit
    ensures var (s, ret) := Attempt(r, a);
      var t := if ret.Err? then RollbackAll(s) else s;
      Step(r, a).0.client == t.client && Step(r, a).0.injector == t.injector
  {
    hide Attempt;
  }

  lemma OnLogInAnyState(log: seq<Frame>, r: Replicator, s: Replicator, b: nat, rest: seq<Frame>, h: Doubt)
    requires OnLog(log, r, b, rest, h) && s.client == r.client && s.injector == r.injector
    ensures OnLog(log, s, b, rest, h)
  {
  }

  /** Every frame not yet committed is from the open transaction, and none ends it. */
  lemma PendingFrame(log: seq<Frame>, r: nat, c: nat, rest: seq<Frame>, frames: seq<Frame>, k: nat)
    requires IsLog(log) && Pending(log, r, c, rest, frames) && k < |frames|
    ensures !IsCommit(frames[k]) && frames[k].no < |log| && NoCommit(log, r, frames[k].no + 1)
  {
    if k < |rest| {
      assert frames[k] == rest[k] && rest[k] in rest;
    } else {
      assert frames[k] == log[r..c][k - |rest|] == log[r + (k - |rest|)];
    }
  }

  lemma FlushKeeps(log: seq<Frame>, r: Replicator, b: nat, rest: seq<Frame>, o: InjectOutcome, ack: Ack)
    requires Follows(log, r, b, rest)
    ensures var s := FlushNow(r, o, ack).0;
      && s.client == r.client && s.injector.db == r.injector.db && Kept(log, s, b) && Near(log, s, b)
      && s.injector.wal + s.injector.buffer == if o.Works? then r.injector.wal + r.injector.buffer else []
  {
    var wal, buffer := r.injector.wal, r.injector.buffer;
    if buffer != [] {
      var n := |wal| + |buffer| - 1;
      assert (wal + buffer)[|wal|] == buffer[0] && (wal + buffer)[n] == buffer[|buffer| - 1];
      PendingFrame(log, r.client.recorded, r.client.cursor, rest, wal + buffer, |wal|);
      PendingFrame(log, r.client.recorded, r.client.cursor, rest, wal + buffer, n);
    }
  }

  /** A flush keeps the replica in step with its client if and only if it works, or the client
      has received nothing since its recorded index. */
  lemma FlushFollowsExactly(log: seq<Frame>, r: Replicator, b: nat, rest: seq<Frame>, o: InjectOutcome, ack: Ack)
    requires Follows(log, r, b, rest)
    ensures (exists d, rest' :: Follows(log, FlushNow(r, o, ack).0, d, rest')) <==>
            o.Works? || r.client.cursor == r.client.recorded
  {
    FlushKeeps(log, r, b, rest, o, ack);
    var s := FlushNow(r, o, ack).0;
    if o.Works? {
      assert Follows(log, s, b, rest);
    } else if r.client.cursor == r.client.recorded {
      assert Follows(log, s, b, []);
    }
  }

  lemma FlushFollows(log: seq<Frame>, r: Replicator, b: nat, rest: seq<Frame>, o: InjectOutcome, ack: Ack, h: Doubt)
    returns (rest': seq<Frame>)
    requires OnLog(log, r, b, rest, h)
    ensures OnLog(log, FlushNow(r, o, ack).0, b, rest', h)
  {
    rest' := if o.Works? then rest else [];
    if !Idle(r) {
      FlushKeeps(log, r, b, rest, o, ack);
    }
  }

  /** The database is at the index in the meta file, or one transaction after it. */
  ghost predicate SavedEnough(log: seq<Frame>, r: Replicator) {
    exists b :: AtOrOneAhead(log, r.client.stored, b) && r.injector.db == ImageAt(log, b)
  }

  /** One commit of a log frame whose index does not reach the meta file, or not even the client, is
      harmless: the process may stop right after it. */
  lemma OneLostWrite(log: seq<Frame>, r: Replicator, b: nat, rest: seq<Frame>, it: Item)
    requires Follows(log, r, b, rest) && r.client.stored == r.client.recorded
    requires it.Got? ==> r.client.cursor < |log| && it.f == log[r.client.cursor]
    ensures SavedEnough(log, InjectItem(r, it).0)
  {
    var d, rest' := ItemFollows(log, r, b, rest, it);
    var s := InjectItem(r, it).0;
    assert s.client.stored in {r.client.recorded, s.client.recorded};
    assert AtOrOneAhead(log, s.client.stored, d);
  }

  datatype Event =
    | Call(answers: seq<Answers>)
    | ForceHandshake
    | FlushBuffer(o: InjectOutcome, ack: Ack)
    | Restart  // the process comes back with the stored index and the database on disk

  function Do(r: Replicator, e: Event): Replicator
    requires r.state != Exit
  {
    match e
    case Call(answers) => Replicate(r, answers).0
    case ForceHandshake => r.(state := Handshaking)
    case FlushBuffer(o, ack) => FlushNow(r, o, ack).0
    case Restart =>
      Replicator(Client(r.client.stored, r.client.stored, r.client.stored),
                 RollbackInjector(r.injector).(biggest := 0), Handshaking, 0)
  }

  /** The doubt after some steps of a call. */
  ghost function CallDoubt(log: seq<Frame>, r: Replicator, answers: seq<Answers>, h: Doubt): Doubt
    requires r.state != Exit
    decreases answers
  {
    if answers == [] then h
    else
      var (s, ret) := Step(r, answers[0]);
      var g := Learned(log, r, answers[0], h);
      if ret.Ok? && s.state != Exit then CallDoubt(log, s, answers[1..], g) else g
  }

  /** A restart forgets frame numbers, and the stored index may be further back than the recorded. */
  ghost function DoubtAfter(log: seq<Frame>, r: Replicator, e: Event, h: Doubt): Doubt
    requires r.state != Exit
  {
    match e
    case Call(answers) => CallDoubt(log, r, answers, h)
    case Restart => Doubt(false, !SavedEnough(log, r))
    case _ => h
  }

  ghost predicate FaithfulCall(log: seq<Frame>, r: Replicator, answers: seq<Answers>, h: Doubt)
    requires r.state != Exit
    decreases answers
  {
    answers == [] ||
    (Faithful(log, r, answers[0], h) &&
     var (s, ret) := Step(r, answers[0]);
     ret.Ok? && s.state != Exit ==> FaithfulCall(log, s, answers[1..], Learned(log, r, answers[0], h)))
  }

  ghost predicate FaithfulRun(log: seq<Frame>, r: Replicator, run: seq<Event>, h: Doubt)
    requires r.state != Exit
    decreases run
  {
    run == [] ||
    (&& (run[0].Call? ==> FaithfulCall(log, r, run[0].answers, h))
     && (ExitIsLeft(r, run[0]); FaithfulRun(log, Do(r, run[0]), run[1..], DoubtAfter(log, r, run[0], h))))
  }

  ghost function RunDoubt(log: seq<Frame>, r: Replicator, run: seq<Event>, h: Doubt): Doubt
    requires r.state != Exit
    decreases run
  {
    if run == [] then h
    else
      ExitIsLeft(r, run[0]);
      RunDoubt(log, Do(r, run[0]), run[1..], DoubtAfter(log, r, run[0], h))
  }

  ghost function RunAll(r: Replicator, run: seq<Event>): Replicator
    requires r.state != Exit
    decreases run
  {
    if run == [] then r
    else
      ExitIsLeft(r, run[0]);
      RunAll(Do(r, run[0]), run[1..])
  }

  lemma ExitIsLeft(r: Replicator, e: Event)
    requires r.state != Exit
    ensures Do(r, e).state != Exit
  {
    if e.Call? {
      NeverStepsAfterExit(r, e.answers);
    }
  }

  lemma {:induction false} CallFollows(log: seq<Frame>, r: Replicator, b: nat, rest: seq<Frame>, answers: seq<Answers>, h: Doubt)
    returns (d: nat, rest': seq<Frame>)
    requires OnLog(log, r, b, rest, h) && r.state != Exit && FaithfulCall(log, r, answers, h)
    ensures OnLog(log, Replicate(r, answers).0, d, rest', CallDoubt(log, r, answers, h))
    decreases answers
  {
    d, rest' := b, rest;
    if answers != [] {
      d, rest' := StepFollows(log, r, b, rest, answers[0], h);
      hide Learned;
      hide Faithful;
      hide Step;
      hide OnLog;
      var (s, ret) := Step(r, answers[0]);
      OnLogInAnyState(log, s, s.(state := Streaming), d, rest', Learned(log, r, answers[0], h));
      if ret.Ok? && s.state != Exit {
        d, rest' := CallFollows(log, s, d, rest', answers[1..], Learned(log, r, answers[0], h));
      }
    }
  }

  lemma RestartFollows(log: seq<Frame>, r: Replicator, b: nat, rest: seq<Frame>, h: Doubt) returns (d: nat)
    requires OnLog(log, r, b, rest, h) && r.state != Exit
    ensures OnLog(log, Do(r, Restart), d, [], DoubtAfter(log, r, Restart, h))
  {
    d := b;
    if SavedEnough(log, r) {
      d :| AtOrOneAhead(log, r.client.stored, d) && r.injector.db == ImageAt(log, d);
    }
  }

  lemma {:induction false} RunFollows(log: seq<Frame>, r: Replicator, b: nat, rest: seq<Frame>, run: seq<Event>, h: Doubt)
    returns (d: nat, rest': seq<Frame>)
    requires OnLog(log, r, b, rest, h) && r.state != Exit && FaithfulRun(log, r, run, h)
    ensures OnLog(log, RunAll(r, run), d, rest', RunDoubt(log, r, run, h))
    decreases run
  {
    d, rest' := b, rest;
    if run != [] {
      match run[0] {
        case Call(answers) => d, rest' := CallFollows(log, r, b, rest, answers, h);
        case ForceHandshake =>
        case FlushBuffer(o, ack) => rest' := FlushFollows(log, r, b, rest, o, ack, h);
        case Restart =>
          d := RestartFollows(log, r, b, rest, h);
          rest' := [];
      }
      ExitIsLeft(r, run[0]);
      hide OnLog;
      hide Do;
      hide DoubtAfter;
      d, rest' := RunFollows(log, Do(r, run[0]), d, rest', run[1..], DoubtAfter(log, r, run[0], h));
    }
  }

  function Fresh(capacity: nat): Replicator {
    Replicator(Client(0, 0, 0), Injector(map[], [], false, [], 0, capacity), Handshaking, 0)
  }

  /** After any number of calls, with failures of the client and of the database anywhere in them,
      after snapshots, flushes and restarts, the committed image is the primary's at a transaction
      boundary, and the recorded index is not ahead of it. It is at most one transaction behind,
      unless the end of a snapshot or an index that a restart needs has been lost since the last
      stream. */
  lemma ReplicaIsAtABoundary(log: seq<Frame>, capacity: nat, run: seq<Event>) returns (b: nat)
    requires IsLog(log) && FaithfulRun(log, Fresh(capacity), run, NO_DOUBT)
    ensures var r := RunAll(Fresh(capacity), run);
      && Boundary(log, r.client.recorded) && r.client.recorded <= b && Boundary(log, b)
      && r.injector.db == ImageAt(log, b)
      && (!RunDoubt(log, Fresh(capacity), run, NO_DOUBT).place ==> AtOrOneAhead(log, r.client.recorded, b))
  {
    var rest;
    assert log[0..0] == [] && log[..0] == [];
    b, rest := RunFollows(log, Fresh(capacity), 0, [], run, NO_DOUBT);
  }

  // ----- Runs that leave no doubt -----

  /** What the client offers is the log, and snapshots that are loaded to their end. */
  ghost predicate SoundCall(log: seq<Frame>, r: Replicator, answers: seq<Answers>)
    requires r.state != Exit
    decreases answers
  {
    answers == [] ||
    (&& Offers(log, r, answers[0])
     && (r.state == Snapshotting && Answer(answers[0].snapshot).Stream? ==> Attempt(r, answers[0]).1.Ok?)
     && var (s, ret) := Step(r, answers[0]);
        ret.Ok? && s.state != Exit ==> SoundCall(log, s, answers[1..]))
  }

  /** And a restart finds the database at the stored index or one transaction after it. */
  ghost predicate SoundRun(log: seq<Frame>, r: Replicator, run: seq<Event>)
    requires r.state != Exit
    decreases run
  {
    run == [] ||
    (&& (run[0].Call? ==> SoundCall(log, r, run[0].answers))
     && (run[0].Restart? ==> SavedEnough(log, r))
     && (ExitIsLeft(r, run[0]); SoundRun(log, Do(r, run[0]), run[1..])))
  }

  lemma {:induction false} AnswerEndsTheWaiting(r: Replicator, tries: SnapshotTries)
    ensures LoadSnapshot(r, tries) == ReadStream(RollbackAll(r), Answer(tries))
    decreases |tries|
  {
    hide ReadStream;
    if tries[0] == Refused(SnapshotPending) {
      assert RollbackAll(RollbackAll(r)) == RollbackAll(r);
      AnswerEndsTheWaiting(RollbackAll(r), tries[1..]);
    }
  }

  lemma {:induction false} SoundCallIsFaithful(log: seq<Frame>, r: Replicator, answers: seq<Answers>)
    requires r.state != Exit && SoundCall(log, r, answers)
    ensures FaithfulCall(log, r, answers, NO_DOUBT) && CallDoubt(log, r, answers, NO_DOUBT) == NO_DOUBT
    decreases answers
  {
    if answers != [] {
      if r.state == Snapshotting {
        AnswerEndsTheWaiting(r, answers[0].snapshot);
      }
      assert Learned(log, r, answers[0], NO_DOUBT) == NO_DOUBT;
      assert Faithful(log, r, answers[0], NO_DOUBT);
      hide Learned;
      hide Faithful;
      hide Offers;
      hide Attempt;
      hide Step;
      var (s, ret) := Step(r, answers[0]);
      if ret.Ok? && s.state != Exit {
        SoundCallIsFaithful(log, s, answers[1..]);
      }
    }
  }

  lemma {:induction false} SoundRunIsFaithful(log: seq<Frame>, r: Replicator, run: seq<Event>)
    requires r.state != Exit && SoundRun(log, r, run)
    ensures FaithfulRun(log, r, run, NO_DOUBT) && RunDoubt(log, r, run, NO_DOUBT) == NO_DOUBT
    decreases run
  {
    if run != [] {
      if run[0].Call? {
        SoundCallIsFaithful(log, r, run[0].answers);
      }
      assert DoubtAfter(log, r, run[0], NO_DOUBT) == NO_DOUBT;
      ExitIsLeft(r, run[0]);
      hide Do;
      hide DoubtAfter;
      SoundRunIsFaithful(log, Do(r, run[0]), run[1..]);
    }
  }

  /** A client that streams the log from its position or its recorded index, failing anywhere, and
      loads snapshots to their end, always leaves the primary's image at the recorded index or one
      transaction after it. Nothing is asked of the replica. */
  lemma SoundRunIsAtABoundary(log: seq<Frame>, capacity: nat, run: seq<Event>) returns (b: nat)
    requires IsLog(log) && SoundRun(log, Fresh(capacity), run)
    ensures var r := RunAll(Fresh(capacity), run);
      AtOrOneAhead(log, r.client.recorded, b) && r.injector.db == ImageAt(log, b)
  {
    SoundRunIsFaithful(log, Fresh(capacity), run);
    b := ReplicaIsAtABoundary(log, capacity, run);
  }

  // ----- Progress -----

  lemma {:induction false} SmoothStream(r: Replicator, items: seq<Item>, log: seq<Frame>)
    requires IsLog(log) && InOrder(log, r.client.cursor, items)
    requires forall k | 0 <= k < |items| :: items[k].Got? && items[k].inject.Works? && items[k].ack.Recorded?
    ensures InjectAll(r, items).1.Ok? && InjectAll(r, items).0.client.cursor == r.client.cursor + |items|
    decreases items
  {
    if items != [] {
      assert items[0].f == log[r.client.cursor + 0];
      var (s, ret) := InjectItem(r, items[0]);
      forall k | 0 <= k < |items[1..]|
        ensures items[1..][k] == items[k + 1] && items[k + 1].f == log[s.client.cursor + k] {}
      SmoothStream(s, items[1..], log);
    }
  }

  /** A stream of the rest of the log in which nothing fails brings the replica, from any state
      the runs above can reach, to the last whole transaction, recorded as such. */
  lemma CatchesUp(log: seq<Frame>, r: Replicator, b: nat, rest: seq<Frame>, items: seq<Item>)
    requires Follows(log, r, b, rest) && InOrder(log, r.client.cursor, items)
    requires r.client.cursor + |items| == |log|
    requires forall k | 0 <= k < |items| :: items[k].Got? && items[k].inject.Works? && items[k].ack.Recorded?
    ensures var s := InjectAll(r, items).0;
      s.client.recorded == CommittedLen(log) && s.injector.db == ImageAt(log, CommittedLen(log))
  {
    var d, rest' := StreamFollows(log, r, b, rest, items);
    SmoothStream(r, items, log);
    OneLastBoundary(log, InjectAll(r, items).0.client.recorded);
  }

  function Reading(start: nat, items: seq<Item>): Answers {
    Answers([Ok], 1, Stream(start, items), [Refused(Other)])
  }

  /** A call in which nothing fails shakes hands, reads the log from the recorded index to its end,
      and returns with the last whole transaction recorded, from any state the sound runs reach. */
  lemma CallCatchesUp(log: seq<Frame>, r: Replicator, b: nat, rest: seq<Frame>, items: seq<Item>)
    requires OnLog(log, r, b, rest, NO_DOUBT) && r.state == Handshaking && InOrder(log, r.client.recorded, items)
    requires r.client.recorded + |items| == |log|
    requires forall k | 0 <= k < |items| :: items[k].Got? && items[k].inject.Works? && items[k].ack.Recorded?
    ensures
      var a := Reading(r.client.recorded, items);
      var (s, p) := Replicate(r, [a] + [a]);
      && p == Returned(Ok)
      && s.client.recorded == CommittedLen(log) && s.injector.db == ImageAt(log, CommittedLen(log))
  {
    var a, q := Reading(r.client.recorded, items), r.(state := Streaming);
    assert Step(r, a) == (q, Ok) by { assert PerformHandshake([Ok], 1) == Ok; }
    StepReturns(r, a);
    CallGoesOn(r, a, [a]);
    assert [a][1..] == [];
    assert Replicate(r, [a]).0 == q;
    assert Faithful(log, q, a, NO_DOUBT);
    OnLogInAnyState(log, r, q, b, rest, NO_DOUBT);
    var d, rest' := StreamStarts(log, q, b, rest, a, NO_DOUBT);
    var q' := q.(client := q.client.(cursor := r.client.recorded));
    hide OnLog;
    hide Follows;
    hide Faithful;
    SmoothStream(q', items, log);
    CatchesUp(log, q', d, rest', items);
    StepReturns(q, a);
    assert Attempt(q, a) == InjectAll(q', items);
  }

  lemma OneLastBoundary(log: seq<Frame>, n: nat)
    requires Boundary(log, n) && NoCommit(log, n, |log|)
    ensures n == CommittedLen(log)
    ensures forall b: nat | Boundary(log, b) :: b <= n
  {
    var m := CommittedLen(log);
  }

  // ----- The index a commit returns -----

  function Load(i: Injector, frames: seq<Frame>): Injector {
    if frames == [] then i else InjectFrame(Load(i, frames[..|frames| - 1]), frames[|frames| - 1], Works).0
  }

  lemma {:induction false} LoadSees(i: Injector, frames: seq<Frame>, m: nat)
    requires i.buffer == []
    requires forall k | 0 <= k < |frames| :: !IsCommit(frames[k]) && frames[k].no <= m
    ensures var j := Load(i, frames);
      && i.biggest <= j.biggest <= Max(i.biggest, m)
      && (j.buffer != [] ==> j.buffer[0].no <= m)
      && (if frames == [] then j == i
          else j.biggest >= frames[0].no || (j.buffer != [] && j.buffer[0] == frames[0]))
  {
    if frames != [] {
      LoadSees(i, frames[..|frames| - 1], m);
    }
  }

  /** For a transaction whose greatest frame number is at one of its ends (a log counts up, a
      snapshot counts down), the index the commit returns is that number, or the greatest
      number left over from earlier attempts if that is larger: rolling back the injector does
      not forget it. So the index is right exactly when the leftover is no larger. */
  lemma CommitIndex(i: Injector, txn: seq<Frame>, m: nat)
    requires i.buffer == [] && txn != []
    requires forall k | 0 <= k < |txn| - 1 :: !IsCommit(txn[k])
    requires IsCommit(txn[|txn| - 1])
    requires m == Max(txn[0].no, txn[|txn| - 1].no) && forall k | 0 <= k < |txn| :: txn[k].no <= m
    ensures var res := InjectFrame(Load(i, txn[..|txn| - 1]), txn[|txn| - 1], Works).1;
      && res == Committed(Max(i.biggest, m))
      && (res == Committed(m) <==> i.biggest <= m)
  {
    hide WriteAll;
    hide Load;
    LoadSees(i, txn[..|txn| - 1], m);
    assert txn[..|txn| - 1] != [] ==> txn[..|txn| - 1][0] == txn[0];
  }

  /** The leftover at work: frame 7 of an abandoned transaction makes the commit of frame 3
      report index 7. */
  lemma LeftoverIndex(img: Image, data: Data)
    ensures var i := Injector(img, [], false, [], 0, 1);
      var (j, r1) := InjectFrame(i, Frame(7, 1, 0, data), Works);
      r1 == Buffered && InjectFrame(RollbackInjector(j), Frame(3, 1, 1, data), Works).1 == Committed(7)
  {
  }
}
