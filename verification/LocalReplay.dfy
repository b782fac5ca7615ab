/** Replaying the frames of a local generation directory into a database file. The objects are
taken in name order; each transaction is collected in a page cache and written out when its last
frame arrives. */
module LocalReplay {
  import opened WalLog
  import opened PageFile
  import opened TransactionCache

  const SWAP_AFTER := 65536

  /** A file of the directory: one whose name is not a frame range, or a batch of frames. */
  datatype Object = Unparsed | Batch(first: nat, last: nat, time: nat, frames: seq<Frame>)

  /** What the file system does with the recovery file while one page is inserted. */
  datatype Io = Io(opens: bool, writes: nat, bytes: nat)

  /** The frames replayed: batches are taken while each starts where the one before ended. */
  function Received(objs: seq<Object>, last: nat): seq<Frame> {
    if objs == [] then []
    else match objs[0]
      case Unparsed => Received(objs[1..], last)
      case Batch(first, _, _, frames) =>
        if first != last + 1 then [] else frames + Received(objs[1..], last + |frames|)
  }

  ghost predicate AllPageFrames(ps: nat, objs: seq<Object>) {
    forall k | 0 <= k < |objs| && objs[k].Batch? :: PageFrames(ps, objs[k].frames)
  }

  /** Every batch holds the frames of one log that its first frame number says. */
  ghost predicate CutFrom(log: seq<Frame>, objs: seq<Object>) {
    forall k | 0 <= k < |objs| && objs[k].Batch? ::
      && 0 < objs[k].first && objs[k].first - 1 + |objs[k].frames| <= |log|
      && objs[k].frames == log[objs[k].first - 1..objs[k].first - 1 + |objs[k].frames|]
  }

  lemma CutFromFirst(log: seq<Frame>, objs: seq<Object>)
    requires CutFrom(log, objs) && objs != []
    ensures CutFrom(log, objs[1..])
    ensures objs[0].Batch? ==>
      && 0 < objs[0].first && objs[0].first - 1 + |objs[0].frames| <= |log|
      && objs[0].frames == log[objs[0].first - 1..objs[0].first - 1 + |objs[0].frames|]
  {
    forall k | 0 <= k < |objs| - 1 ensures objs[1..][k] == objs[k + 1] {}
  }

  lemma Regroup(a: seq<Frame>, b: seq<Frame>, c: seq<Frame>)
    ensures a + (b + c) == a + b + c && a + b <= a + (b + c)
  {
  }

  lemma Adjoin(log: seq<Frame>, last: nat, frames: seq<Frame>, more: seq<Frame>)
    requires last + |frames| + |more| <= |log|
    requires frames == log[last..last + |frames|] && more == log[last + |frames|..last + |frames| + |more|]
    ensures frames + more == log[last..last + |frames + more|]
  {
  }

  /** Batches cut from one log give back an unbroken stretch of it. */
  lemma {:induction false} ReceivesTheLog(log: seq<Frame>, objs: seq<Object>, last: nat)
    requires CutFrom(log, objs) && last <= |log|
    ensures last + |Received(objs, last)| <= |log|
    ensures Received(objs, last) == log[last..last + |Received(objs, last)|]
  {
    if objs != [] {
      CutFromFirst(log, objs);
      ReceivedNext(objs, 0, last);
      assert objs[0..] == objs;
      hide CutFrom;
      hide Received;
      var rest := objs[1..];
      if objs[0].Unparsed? {
        ReceivesTheLog(log, rest, last);
      } else if objs[0].first == last + 1 {
        var frames := objs[0].frames;
        ReceivesTheLog(log, rest, last + |frames|);
        Adjoin(log, last, frames, Received(rest, last + |frames|));
      }
    }
  }

  ghost predicate Covers(o: Object, no: nat) {
    o.Batch? && o.first <= no < o.first + |o.frames|
  }

  /** The objects of a log in name order: batches follow one another without overlap. */
  ghost predicate InOrder(objs: seq<Object>) {
    forall i, j | 0 <= i < j < |objs| && objs[i].Batch? && objs[j].Batch? ::
      objs[i].first + |objs[i].frames| <= objs[j].first
  }

  /** Nothing before the first missing frame is lost: the replay stops exactly at a frame that no
      object holds. */
  lemma {:induction false} StopsAtAGap(objs: seq<Object>, last: nat, k: nat)
    requires InOrder(objs) && k < |objs|
    requires forall i | 0 <= i < |objs| && objs[i].Batch? :: objs[i].frames != [] && last < objs[i].first
    ensures !Covers(objs[k], last + |Received(objs, last)| + 1)
  {
    var rest := objs[1..];
    assert InOrder(rest) by {
      forall i | 0 <= i < |rest| ensures rest[i] == objs[i + 1] {}
    }
    match objs[0]
    case Unparsed =>
      if k > 0 {
        StopsAtAGap(rest, last, k - 1);
      }
    case Batch(first, _, _, frames) =>
      if first == last + 1 {
        forall i | 0 <= i < |rest| && rest[i].Batch? ensures last + |frames| < rest[i].first {
          assert rest[i] == objs[i + 1];
        }
        if k > 0 {
          StopsAtAGap(rest, last + |frames|, k - 1);
        }
      }
  }

  // ----- The replay -----

  /** The database file holds the whole transactions of `taken`, and the cache the rest. */
  ghost predicate Replayed(db: File, ps: nat, taken: seq<Frame>, out: File, pending: Image) {
    && PageFrames(ps, taken)
    && out == WriteFrames(db, ps, taken[..CommittedLen(taken)])
    && pending == WriteAll(map[], taken[CommittedLen(taken)..])
  }

  ghost predicate CommittedAt(db: File, ps: nat, taken: seq<Frame>, out: File) {
    PageFrames(ps, taken) && out == WriteFrames(db, ps, taken[..CommittedLen(taken)])
  }

  lemma FileIsCommitted(db: File, ps: nat, taken: seq<Frame>, out: File, pending: Image)
    requires Replayed(db, ps, taken, out, pending)
    ensures CommittedAt(db, ps, taken, out)
  {
  }

  lemma NothingReplayed(db: File, ps: nat)
    ensures Replayed(db, ps, [], db, map[])
  {
  }

  lemma ReceivedNext(objs: seq<Object>, i: nat, last: nat)
    requires i <= |objs|
    ensures Received(objs[i..], last) ==
      if i == |objs| then []
      else if objs[i].Unparsed? then Received(objs[i + 1..], last)
      else if objs[i].first != last + 1 then []
      else objs[i].frames + Received(objs[i + 1..], last + |objs[i].frames|)
  {
    assert i < |objs| ==> objs[i..][1..] == objs[i + 1..];
  }

  lemma TakeFrame(db: File, ps: nat, taken: seq<Frame>, out: File, pending: Image, f: Frame)
    requires Replayed(db, ps, taken, out, pending) && !IsCommit(f) && f.page > 0 && |f.data| == ps
    ensures Replayed(db, ps, taken + [f], out, pending[f.page := f.data])
  {
    hide WriteFrames;
    var n, more := CommittedLen(taken), taken + [f];
    assert more[..|taken|] == taken;
    assert CommittedLen(more) == n;
    assert more[..n] == taken[..n];
    assert more[n..][..|taken| - n] == taken[n..];
  }

  lemma LastPage(frames: seq<Frame>, f: Frame)
    ensures WriteAll(map[], frames + [f]) == WriteAll(map[], frames)[f.page := f.data]
  {
    assert (frames + [f])[..|frames|] == frames;
  }

  lemma AllCommitted(taken: seq<Frame>, f: Frame)
    requires IsCommit(f)
    ensures CommittedLen(taken + [f]) == |taken| + 1
  {
  }

  lemma TakeCommit(db: File, ps: nat, taken: seq<Frame>, out: File, pending: Image, f: Frame, order: seq<PageNo>)
    requires Replayed(db, ps, taken, out, pending) && IsCommit(f) && f.page > 0 && |f.data| == ps
    requires Pages(ps, pending[f.page := f.data]) && Enumerates(order, pending.Keys + {f.page})
    ensures Replayed(db, ps, taken + [f], WriteInOrder(out, ps, pending[f.page := f.data], order), map[])
  {
    hide WriteFrames;
    hide WriteInOrder;
    hide WriteAll;
    hide CommittedLen;
    hide Enumerates;
    var n := CommittedLen(taken);
    var whole, tail := taken[..n], taken[n..] + [f];
    LastPage(taken[n..], f);
    assert WriteAll(map[], tail).Keys == pending.Keys + {f.page};
    LastWritesSuffice(out, ps, tail, order);
    WriteFramesConcat(db, ps, whole, tail);
    AllCommitted(taken, f);
    assert taken + [f] == whole + tail;
    assert (taken + [f])[..|taken| + 1] == taken + [f] && (taken + [f])[|taken| + 1..] == [];
    assert WriteAll(map[], []) == map[] by { NothingReplayed(db, ps); }
  }

  method ReplayFrame(db: File, ps: nat, ghost before: File, ghost taken: seq<Frame>, cache: TransactionPageCache, f: Frame, io: Io)
    returns (ok: bool, out: File, next: TransactionPageCache)
    requires cache.Valid() && cache.ps == ps && f.page > 0 && |f.data| == ps
    requires Replayed(before, ps, taken, db, cache.Contents())
    modifies cache
    ensures next == cache || fresh(next)
    ensures ok ==> next.Valid() && next.ps == ps && Replayed(before, ps, taken + [f], out, next.Contents())
    ensures !ok ==> io.bytes < ps && out == db
  {
    out, next := db, cache;
    ghost var pending := cache.Contents();
    ok := cache.Insert(f.page, f.data, io.opens, io.writes, io.bytes);
    if !ok {
      return;
    }
    if IsCommit(f) {
      ghost var order;
      out, order := cache.Flush(db);
      assert cache.Contents().Keys == pending.Keys + {f.page};
      TakeCommit(before, ps, taken, db, pending, f, order);
      next := new TransactionPageCache(SWAP_AFTER, ps);
    } else {
      TakeFrame(before, ps, taken, db, pending, f);
    }
  }

  method ReplayBatch(db: File, ps: nat, ghost before: File, ghost start: seq<Frame>, cache: TransactionPageCache, frames: seq<Frame>, no: nat, disk: nat -> Io)
    returns (ok: bool, out: File, last: nat, next: TransactionPageCache, ghost taken: seq<Frame>)
    requires cache.Valid() && cache.ps == ps && PageFrames(ps, frames) && no == |start|
    requires Replayed(before, ps, start, db, cache.Contents())
    modifies cache
    ensures next == cache || fresh(next)
    ensures last == |taken| && start <= taken <= start + frames && CommittedAt(before, ps, taken, out)
    ensures ok ==> taken == start + frames && next.Valid() && next.ps == ps && Replayed(before, ps, taken, out, next.Contents())
    ensures !ok ==> disk(last).bytes < ps
  {
    hide Replayed;
    ok, out, last, next, taken := true, db, no, cache, start;
    var k := 0;
    assert start + frames[..0] == start;
    while k < |frames|
      invariant 0 <= k <= |frames| && taken == start + frames[..k] && last == |taken| && ok
      invariant next == cache || fresh(next)
      invariant next.Valid() && next.ps == ps && Replayed(before, ps, taken, out, next.Contents())
    {
      FileIsCommitted(before, ps, taken, out, next.Contents());
      ok, out, next := ReplayFrame(out, ps, before, taken, next, frames[k], disk(last));
      if !ok {
        return;
      }
      assert frames[..k + 1] == frames[..k] + [frames[k]];
      taken, last, k := taken + [frames[k]], last + 1, k + 1;
    }
    assert frames[..k] == frames;
    FileIsCommitted(before, ps, taken, out, next.Contents());
  }

  /** Whatever the page cache does with its recovery file, the database file ends as if every
      frame of a whole transaction had been written to it directly, and nothing else. A failed
      recovery file stops the replay between two transactions. */
  method ApplyWal(objs: seq<Object>, db: File, ps: nat, disk: nat -> Io)
    returns (ok: bool, out: File, last: nat, ghost taken: seq<Frame>)
    requires AllPageFrames(ps, objs)
    ensures CommittedAt(db, ps, taken, out) && last == |taken|
    ensures taken <= Received(objs, 0) && (ok ==> taken == Received(objs, 0))
    ensures !ok ==> disk(last).bytes < ps
  {
    hide Replayed;
    hide CommittedAt;
    hide Received;
    ok, out, last, taken := true, db, 0, [];
    NothingReplayed(db, ps);
    var cache := new TransactionPageCache(SWAP_AFTER, ps);
    var i := 0;
    while i < |objs|
      invariant 0 <= i <= |objs| && last == |taken|
      invariant fresh(cache) && cache.Valid() && cache.ps == ps
      invariant Replayed(db, ps, taken, out, cache.Contents())
      invariant Received(objs, 0) == taken + Received(objs[i..], last)
    {
      FileIsCommitted(db, ps, taken, out, cache.Contents());
      ReceivedNext(objs, i, last);
      if objs[i].Batch? {
        if objs[i].first != last + 1 {
          return;
        }
        Regroup(taken, objs[i].frames, Received(objs[i + 1..], last + |objs[i].frames|));
        ok, out, last, cache, taken := ReplayBatch(out, ps, db, taken, cache, objs[i].frames, last, disk);
        if !ok {
          return;
        }
      }
      i := i + 1;
    }
    FileIsCommitted(db, ps, taken, out, cache.Contents());
    ReceivedNext(objs, i, last);
  }
}
