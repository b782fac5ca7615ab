/** Runs that take a replica off its primary's log: what the conditions on the runs exclude. */
module ReplicaFailures {
  import opened WalLog
  import opened Replica

  /** A call that shakes hands and then reads a stream. */
  function Read(start: nat, items: seq<Item>): Event {
    Call([Answers([Ok], 1, Refused(Other), [Refused(Other)]), Answers([], 0, Stream(start, items), [Refused(Other)])])
  }

  /** Such a call, when the replicator has not shaken hands yet. */
  lemma ReadFrom(r: Replicator, start: nat, items: seq<Item>)
    requires r.state.Handshaking?
    ensures
      var (s, ret) := InjectAll(r.(client := r.client.(cursor := start), state := Streaming), items);
      && (ret.Ok? ==> Do(r, Read(start, items)) == s.(state := Streaming))
      && (ret == Err(Other) ==> Do(r, Read(start, items)) == RollbackAll(s).(state := Handshaking))
  {
    var answers := Read(start, items).answers;
    var q := r.(state := Streaming);
    assert PerformHandshake([Ok], 1) == Ok;
    assert Step(r, answers[0]) == (q, Ok);
    assert answers[1..] == [answers[1]] && [answers[1]][1..] == [];
    assert Attempt(q, answers[1]) == InjectAll(q.(client := q.client.(cursor := start)), items);
    KeepsState(q.(client := q.client.(cursor := start)), items);
    assert Replicate(r, answers) == Replicate(q, [answers[1]]);
  }

  lemma {:induction false} KeepsState(r: Replicator, items: seq<Item>)
    ensures InjectAll(r, items).0.state == r.state
    decreases items
  {
    if items != [] {
      KeepsState(InjectItem(r, items[0]).0, items[1..]);
    }
  }

  lemma OneItem(r: Replicator, it: Item)
    ensures InjectAll(r, [it]) == InjectItem(r, it)
  {
    assert [it][1..] == [];
  }

  lemma TwoItems(r: Replicator, a: Item, b: Item)
    requires InjectItem(r, a).1.Ok?
    ensures InjectAll(r, [a, b]) == InjectItem(InjectItem(r, a).0, b)
  {
    assert [a, b][1..] == [b];
    OneItem(InjectItem(r, a).0, b);
  }

  /** The frames of a transaction are received, a flush fails, and the stream goes on behind them:
      the index is recorded, and the page in the lost frame is missing. */
  lemma LostFrames(x: Data, y: Data)
    ensures
      var f, g := Frame(0, 1, 0, x), Frame(1, 2, 2, y);
      var run := [Read(0, [Got(f, Works, Recorded)]), FlushBuffer(Fails, Recorded), ForceHandshake,
                  Read(1, [Got(g, Works, Recorded)])];
      var r := RunAll(Fresh(10), run);
      && r.client.recorded == 2 && r.injector.db == map[2 := y]
      && forall b: nat | b <= 2 :: ImageAt([f, g], b) != map[2 := y]
  {
    var f, g := Frame(0, 1, 0, x), Frame(1, 2, 2, y);
    var a, b := Got(f, Works, Recorded), Got(g, Works, Recorded);
    ReadFrom(Fresh(10), 0, [a]);
    OneItem(Fresh(10).(state := Streaming), a);
    var r1 := Replicator(Client(0, 0, 1), Injector(map[], [], false, [f], 0, 10), Streaming, 1);
    assert Do(Fresh(10), Read(0, [a])) == r1;
    var r2 := Do(r1, FlushBuffer(Fails, Recorded));
    var r3 := Do(r2, ForceHandshake);
    assert r3 == Replicator(Client(0, 0, 1), Injector(map[], [], false, [], 0, 10), Handshaking, 1);
    ReadFrom(r3, 1, [b]);
    OneItem(r3.(state := Streaming), b);
    OneWrite(map[], g);
    Images(f, g);
    FourEvents(Fresh(10), Read(0, [a]), FlushBuffer(Fails, Recorded), ForceHandshake, Read(1, [b]));
    forall b: nat | b <= 2 ensures ImageAt([f, g], b) != map[2 := y] {
      var img: Image := map[2 := y];
      assert 1 !in img && 2 in img;
      assert b > 0 ==> 1 in ImageAt([f, g], b);
    }
  }

  lemma TwoEvents(r: Replicator, a: Event, b: Event)
    requires r.state != Exit
    ensures Do(r, a).state != Exit && RunAll(r, [a, b]) == Do(Do(r, a), b)
  {
    hide Do;
    ExitIsLeft(r, a);
    ExitIsLeft(Do(r, a), b);
    assert [a, b][1..] == [b] && [b][1..] == [];
    assert RunAll(Do(r, a), [b]) == Do(Do(r, a), b);
  }

  lemma ThreeEvents(r: Replicator, a: Event, b: Event, c: Event)
    requires r.state != Exit
    ensures Do(r, a).state != Exit && Do(Do(r, a), b).state != Exit && RunAll(r, [a, b, c]) == Do(Do(Do(r, a), b), c)
  {
    hide Do;
    ExitIsLeft(r, a);
    TwoEvents(Do(r, a), b, c);
    assert [a, b, c][1..] == [b, c];
  }

  lemma FourEvents(r: Replicator, a: Event, b: Event, c: Event, d: Event)
    requires r.state != Exit
    ensures Do(r, a).state != Exit && Do(Do(r, a), b).state != Exit && Do(Do(Do(r, a), b), c).state != Exit
    ensures RunAll(r, [a, b, c, d]) == Do(Do(Do(Do(r, a), b), c), d)
  {
    hide Do;
    ExitIsLeft(r, a);
    ThreeEvents(Do(r, a), b, c, d);
    assert [a, b, c, d][1..] == [b, c, d];
  }

  /** Two commits in a row whose indices do not reach the meta file, and a restart: the first
      transaction is applied again over the second. */
  lemma TwoLostWrites(x: Data, y: Data, z: Data)
    requires x != y
    ensures
      var f, g, h := Frame(0, 1, 1, x), Frame(1, 1, 0, y), Frame(2, 2, 2, z);
      var run := [Read(0, [Got(f, Works, RecordedWithError)]),
                  Read(1, [Got(g, Works, Recorded), Got(h, Works, RecordedWithError)]),
                  Restart, Read(0, [Got(f, Works, Recorded)])];
      var r := RunAll(Fresh(10), run);
      && r.client.recorded == 1 && r.injector.db == map[1 := x, 2 := z]
      && forall b: nat | b <= 3 :: ImageAt([f, g, h], b) != map[1 := x, 2 := z]
  {
    var f, g, h := Frame(0, 1, 1, x), Frame(1, 1, 0, y), Frame(2, 2, 2, z);
    var a, b, c, d := Got(f, Works, RecordedWithError), Got(g, Works, Recorded), Got(h, Works, RecordedWithError), Got(f, Works, Recorded);
    var r1 := AfterFirst(x);
    var r2 := AfterSecond(x, y, z);
    var r3 := Do(r2, Restart);
    assert r3 == Replicator(Client(0, 0, 0), Injector(map[1 := y, 2 := z], [], false, [], 0, 10), Handshaking, 0);
    ReadFrom(r3, 0, [d]);
    OneItem(r3.(state := Streaming), d);
    OneWrite(map[1 := y, 2 := z], f);
    FourEvents(Fresh(10), Read(0, [a]), Read(1, [b, c]), Restart, Read(0, [d]));
    MoreImages(f, g, h);
  }

  lemma AfterFirst(x: Data) returns (r: Replicator)
    ensures r == Replicator(Client(1, 0, 1), Injector(map[1 := x], [], false, [], 0, 10), Handshaking, 1)
    ensures Do(Fresh(10), Read(0, [Got(Frame(0, 1, 1, x), Works, RecordedWithError)])) == r
  {
    var f := Frame(0, 1, 1, x);
    var a := Got(f, Works, RecordedWithError);
    ReadFrom(Fresh(10), 0, [a]);
    OneItem(Fresh(10).(state := Streaming), a);
    OneWrite(map[], f);
    r := Replicator(Client(1, 0, 1), Injector(map[1 := x], [], false, [], 0, 10), Handshaking, 1);
  }

  lemma SecondBuffered(x: Data, g: Frame)
    requires g.no == 1 && g.size == 0
    ensures
      var q := Replicator(Client(1, 0, 1), Injector(map[1 := x], [], false, [], 0, 10), Streaming, 1);
      InjectItem(q, Got(g, Works, Recorded)) == (Replicator(Client(1, 0, 2), Injector(map[1 := x], [], false, [g], 0, 10), Streaming, 2), Ok)
  {
    assert [] + [g] == [g];
  }

  lemma SecondCommitted(x: Data, g: Frame, h: Frame)
    requires g.no == 1 && g.page == 1 && h.no == 2 && h.page == 2 && h.size == 2
    ensures
      var q := Replicator(Client(1, 0, 2), Injector(map[1 := x], [], false, [g], 0, 10), Streaming, 2);
      InjectItem(q, Got(h, Works, RecordedWithError)) ==
      (Replicator(Client(3, 0, 3), Injector(map[1 := g.data, 2 := h.data], [], false, [], 0, 10), Streaming, 3), Err(Other))
  {
    var i := Injector(map[1 := x], [], false, [g], 0, 10);
    CommitFlushes(i, h);
    assert [] + [g] + [h] == [g, h] && [g, h][..1] == [g];
    OneWrite(map[1 := x], g);
    var img: Image := map[1 := g.data, 2 := h.data];
    assert WriteAll(map[1 := x], [g, h]) == img;
  }

  lemma AfterSecond(x: Data, y: Data, z: Data) returns (r: Replicator)
    ensures r == Replicator(Client(3, 0, 3), Injector(map[1 := y, 2 := z], [], false, [], 0, 10), Handshaking, 3)
    ensures
      var q := Replicator(Client(1, 0, 1), Injector(map[1 := x], [], false, [], 0, 10), Handshaking, 1);
      Do(q, Read(1, [Got(Frame(1, 1, 0, y), Works, Recorded), Got(Frame(2, 2, 2, z), Works, RecordedWithError)])) == r
  {
    hide Do;
    hide InjectItem;
    hide WriteAll;
    var g, h := Frame(1, 1, 0, y), Frame(2, 2, 2, z);
    var q := Replicator(Client(1, 0, 1), Injector(map[1 := x], [], false, [], 0, 10), Handshaking, 1);
    var b, c := Got(g, Works, Recorded), Got(h, Works, RecordedWithError);
    ReadFrom(q, 1, [b, c]);
    SecondBuffered(x, g);
    SecondCommitted(x, g, h);
    TwoItems(q.(state := Streaming), b, c);
    r := Replicator(Client(3, 0, 3), Injector(map[1 := y, 2 := z], [], false, [], 0, 10), Handshaking, 3);
  }

  lemma MoreImages(f: Frame, g: Frame, h: Frame)
    requires f.page == 1 && g.page == 1 && h.page == 2 && f.data != g.data
    ensures forall b: nat | b <= 3 :: ImageAt([f, g, h], b) != map[1 := f.data, 2 := h.data]
  {
    var log := [f, g, h];
    assert log[..0] == [] && log[..1] == [f] && log[..2] == [f, g] && log[..3] == log;
    Images(f, g);
    assert [f, g][..2] == [f, g] && [f, g][..1] == [f] && [f, g][..0] == [];
    forall b: nat | b <= 3 ensures ImageAt(log, b) != map[1 := f.data, 2 := h.data] {
      assert b < 3 ==> 2 !in ImageAt(log, b);
      assert b == 3 ==> ImageAt(log, b)[1] == g.data;
    }
  }

  // ----- Snapshots -----

  /** A call that shakes hands, is told to take a snapshot, and reads it. */
  function ReadSnapshot(n: nat, items: seq<Item>): Event {
    Call([Answers([Ok], 1, Refused(Other), [Refused(Other)]), Answers([], 0, Refused(NeedSnapshot), [Refused(Other)]),
          Answers([], 0, Refused(Other), [Stream(n, items)])])
  }

  lemma ReadSnapshotFrom(r: Replicator, n: nat, items: seq<Item>)
    requires r.state.Handshaking? && r == RollbackAll(r)
    ensures
      var (s, ret) := InjectAll(r.(client := r.client.(cursor := n), state := Snapshotting), items);
      ret == Err(Other) ==> Do(r, ReadSnapshot(n, items)) == RollbackAll(s).(state := Handshaking)
  {
    var answers := ReadSnapshot(n, items).answers;
    var q, t := r.(state := Streaming), r.(state := Snapshotting);
    assert PerformHandshake([Ok], 1) == Ok;
    assert Step(r, answers[0]) == (q, Ok);
    assert Step(q, answers[1]) == (t, Ok);
    assert answers[1..] == [answers[1], answers[2]] && [answers[1], answers[2]][1..] == [answers[2]];
    assert Attempt(t, answers[2]) == InjectAll(t.(client := t.client.(cursor := n)), items);
    assert Replicate(t, [answers[2]]).0 == Step(t, answers[2]).0 || Step(t, answers[2]).1.Ok?;
    assert Replicate(q, [answers[1], answers[2]]) == Replicate(t, [answers[2]]);
    assert Replicate(r, answers) == Replicate(q, [answers[1], answers[2]]);
  }

  /** A snapshot breaks when its first frame has already left the buffer, and the client goes back to
      the log: its next commit records the number of that frame, and the index is ahead of the
      database. */
  lemma BrokenSnapshot(x: Data, y: Data, z: Data)
    ensures
      var log := [Frame(0, 1, 1, x), Frame(1, 2, 2, y), Frame(2, 3, 3, z)];
      var snap := [Frame(2, 3, 0, z), Frame(1, 2, 0, y), Frame(0, 1, 3, x)];
      var run := [ReadSnapshot(3, [Got(snap[0], Works, Recorded), Broken(Other)]), Read(0, [Got(log[0], Works, Recorded)])];
      var r := RunAll(Fresh(1), run);
      && SnapshotOf(log, 0, 3, snap)
      && r.client.recorded == 3 && r.injector.db == map[1 := x] && ImageAt(log, 3) != map[1 := x]
  {
    var f, g, h := Frame(0, 1, 1, x), Frame(1, 2, 2, y), Frame(2, 3, 3, z);
    var log, snap := [f, g, h], [Frame(2, 3, 0, z), Frame(1, 2, 0, y), Frame(0, 1, 3, x)];
    assert snap[0].no == 2 && snap[1].no == 1 && snap[2].no == 0;
    assert SnapshotOf(log, 0, 3, snap);
    assert log[..3] == log && 3 in ImageAt(log, 3);
    hide *;
    var r1 := AfterBroken(snap[0]);
    var r2 := AheadOf(r1, f);
    TwoEvents(Fresh(1), ReadSnapshot(3, [Got(snap[0], Works, Recorded), Broken(Other)]), Read(0, [Got(f, Works, Recorded)]));
  }

  lemma AheadOf(q: Replicator, f: Frame) returns (r: Replicator)
    requires q == Replicator(Client(0, 0, 0), Injector(map[], [], false, [], 2, 1), Handshaking, 1)
    requires f.no == 0 && f.size == 1
    ensures r == Do(q, Read(0, [Got(f, Works, Recorded)]))
    ensures r.client.recorded == 3 && r.injector.db == map[f.page := f.data]
  {
    var c := Got(f, Works, Recorded);
    r := Do(q, Read(0, [c]));
    ReadFrom(q, 0, [c]);
    OneItem(q.(state := Streaming), c);
    OneWrite(map[], f);
  }

  lemma AfterBroken(h: Frame) returns (r: Replicator)
    requires h.no == 2 && h.size == 0
    ensures r == Replicator(Client(0, 0, 0), Injector(map[], [], false, [], 2, 1), Handshaking, 1)
    ensures Do(Fresh(1), ReadSnapshot(3, [Got(h, Works, Recorded), Broken(Other)])) == r
  {
    var a, b := Got(h, Works, Recorded), Broken(Other);
    var q := Fresh(1).(client := Client(0, 0, 3), state := Snapshotting);
    assert [] + [h] == [h];
    assert InjectItem(q, a) == (Replicator(Client(0, 0, 3), Injector(map[], [h], true, [], 2, 1), Snapshotting, 1), Ok);
    TwoItems(q, a, b);
    ReadSnapshotFrom(Fresh(1), 3, [a, b]);
    r := Replicator(Client(0, 0, 0), Injector(map[], [], false, [], 2, 1), Handshaking, 1);
  }

  /** The commit of one snapshot whose index does not reach the meta file, and a restart: an old
      transaction is applied again over the snapshot. */
  lemma LostSnapshotIndex(x: Data, y: Data, z: Data)
    requires x != y
    ensures
      var log := [Frame(0, 1, 1, x), Frame(1, 1, 1, y), Frame(2, 2, 2, z)];
      var snap := [Frame(2, 2, 0, z), Frame(1, 1, 2, y)];
      var run := [ReadSnapshot(3, [Got(snap[0], Works, Recorded), Got(snap[1], Works, RecordedWithError)]), Restart,
                  Read(0, [Got(log[0], Works, Recorded)])];
      var r := RunAll(Fresh(10), run);
      && SnapshotOf(log, 0, 3, snap)
      && r.client.recorded == 1 && r.injector.db == map[1 := x, 2 := z]
      && forall b: nat | b <= 3 :: ImageAt(log, b) != map[1 := x, 2 := z]
  {
    var f, g, h := Frame(0, 1, 1, x), Frame(1, 1, 1, y), Frame(2, 2, 2, z);
    var log, snap := [f, g, h], [Frame(2, 2, 0, z), Frame(1, 1, 2, y)];
    var a, b, c := Got(snap[0], Works, Recorded), Got(snap[1], Works, RecordedWithError), Got(f, Works, Recorded);
    var r1 := AfterSnapshot(y, z);
    var r2 := Do(r1, Restart);
    assert r2 == Replicator(Client(0, 0, 0), Injector(map[1 := y, 2 := z], [], false, [], 0, 10), Handshaking, 0);
    ReadFrom(r2, 0, [c]);
    OneItem(r2.(state := Streaming), c);
    OneWrite(map[1 := y, 2 := z], f);
    ThreeEvents(Fresh(10), ReadSnapshot(3, [a, b]), Restart, Read(0, [c]));
    MoreImages(f, g, h);
  }

  lemma AfterSnapshot(y: Data, z: Data) returns (r: Replicator)
    ensures r == Replicator(Client(3, 0, 3), Injector(map[1 := y, 2 := z], [], false, [], 0, 10), Handshaking, 2)
    ensures Do(Fresh(10), ReadSnapshot(3, [Got(Frame(2, 2, 0, z), Works, Recorded), Got(Frame(1, 1, 2, y), Works, RecordedWithError)])) == r
  {
    var h, g := Frame(2, 2, 0, z), Frame(1, 1, 2, y);
    var a, b := Got(h, Works, Recorded), Got(g, Works, RecordedWithError);
    var q := Fresh(10).(client := Client(0, 0, 3), state := Snapshotting);
    var i := Injector(map[], [], false, [h], 0, 10);
    assert [] + [h] == [h];
    assert InjectItem(q, a) == (Replicator(Client(0, 0, 3), i, Snapshotting, 1), Ok);
    CommitFlushes(i, g);
    assert [] + [h] + [g] == [h, g] && [h, g][..1] == [h];
    OneWrite(map[], h);
    var img: Image := map[1 := y, 2 := z];
    assert WriteAll(map[], [h, g]) == img;
    TwoItems(q, a, b);
    ReadSnapshotFrom(Fresh(10), 3, [a, b]);
    r := Replicator(Client(3, 0, 3), Injector(map[1 := y, 2 := z], [], false, [], 0, 10), Handshaking, 2);
  }

  lemma OneWrite(x: Image, f: Frame)
    ensures WriteAll(x, [f]) == x[f.page := f.data]
  {
    assert [f][..0] == [];
  }

  lemma Images(f: Frame, g: Frame)
    ensures ImageAt([f, g], 0) == map[] && ImageAt([f, g], 1) == map[f.page := f.data]
    ensures ImageAt([f, g], 2) == map[f.page := f.data][g.page := g.data]
  {
    var log := [f, g];
    assert log[..0] == [] && log[..1] == [f] && log[..2] == log;
    OneWrite(map[], f);
  }
}
