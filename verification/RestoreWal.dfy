/** Restoring the frames of a remote generation: its objects are listed page by page, and the
batches that continue one another are injected into the database. */
module RestoreWal {
  import opened Collections
  import opened WalLog
  import opened LocalReplay
  import opened Replica
  import ReplicaTask

  /** What a restore is limited to: the last frame, and the batches that are too recent. */
  datatype Limit = Limit(frame: Option<nat>, tooLate: nat -> bool)

  predicate Over(limit: Limit, o: Object)
    requires o.Batch?
  {
    limit.frame.Some? && o.last > limit.frame.value
  }

  datatype Scan = Scan(frames: seq<Frame>, done: bool)

  /** One page of the listing. A gap and the frame limit end the page; only the time limit ends
      the whole restore. */
  function ScanPage(objs: seq<Object>, last: nat, limit: Limit): Scan {
    if objs == [] then Scan([], false)
    else match objs[0]
      case Unparsed => ScanPage(objs[1..], last, limit)
      case Batch(first, _, time, frames) =>
        if first != last + 1 || Over(limit, objs[0]) then Scan([], false)
        else if limit.tooLate(time) then Scan([], true)
        else
          var rest := ScanPage(objs[1..], last + |frames|, limit);
          Scan(frames + rest.frames, rest.done)
  }

  /** All pages; an empty one ends the listing. */
  function ScanPages(pages: seq<seq<Object>>, last: nat, limit: Limit): seq<Frame> {
    if pages == [] || pages[0] == [] then []
    else
      var page := ScanPage(pages[0], last, limit);
      if page.done then page.frames
      else page.frames + ScanPages(pages[1..], last + |page.frames|, limit)
  }

  // ----- The pages of the listing make no difference -----

  predicate Refused(limit: Limit, o: Object) {
    o.Batch? && (Over(limit, o) || limit.tooLate(o.time))
  }

  /** The objects before the first refused one. */
  function Admitted(objs: seq<Object>, limit: Limit): seq<Object> {
    if objs == [] || Refused(limit, objs[0]) then [] else [objs[0]] + Admitted(objs[1..], limit)
  }

  /** A listing in name order of batches that hold what their names say. */
  ghost predicate Listing(objs: seq<Object>, last: nat) {
    && LocalReplay.InOrder(objs)
    && forall i | 0 <= i < |objs| && objs[i].Batch? ::
         objs[i].frames != [] && last < objs[i].first && objs[i].last == objs[i].first + |objs[i].frames| - 1
  }

  lemma ListingRest(objs: seq<Object>, last: nat)
    requires Listing(objs, last) && objs != []
    ensures Listing(objs[1..], if objs[0].Batch? then objs[0].last else last)
  {
    forall i | 0 <= i < |objs| - 1 ensures objs[1..][i] == objs[i + 1] {}
  }

  /** Past a gap every batch starts too late. */
  ghost predicate PastGap(objs: seq<Object>, last: nat) {
    forall i | 0 <= i < |objs| && objs[i].Batch? :: last + 1 < objs[i].first
  }

  lemma {:induction false} NothingPastAGap(pages: seq<seq<Object>>, last: nat, limit: Limit)
    requires PastGap(Flatten(pages), last)
    ensures ScanPages(pages, last, limit) == []
  {
    if pages != [] && pages[0] != [] {
      var all := Flatten(pages);
      forall i | 0 <= i < |pages[0]| ensures pages[0][i] == all[i] {}
      forall i | 0 <= i < |Flatten(pages[1..])| ensures Flatten(pages[1..])[i] == all[|pages[0]| + i] {}
      NoneInPage(pages[0], last, limit);
      if !ScanPage(pages[0], last, limit).done {
        NothingPastAGap(pages[1..], last, limit);
      }
    }
  }

  lemma {:induction false} NoneInPage(objs: seq<Object>, last: nat, limit: Limit)
    requires PastGap(objs, last)
    ensures ScanPage(objs, last, limit) == Scan([], false)
  {
    if objs != [] && objs[0].Unparsed? {
      forall i | 0 <= i < |objs| - 1 ensures objs[1..][i] == objs[i + 1] {}
      NoneInPage(objs[1..], last, limit);
    }
  }

  function PagesFrom(objs: seq<Object>, pages: seq<seq<Object>>, last: nat, limit: Limit): seq<Frame> {
    var page := ScanPage(objs, last, limit);
    if page.done then page.frames else page.frames + ScanPages(pages, last + |page.frames|, limit)
  }

  lemma PagesFromNext(objs: seq<Object>, pages: seq<seq<Object>>, last: nat, limit: Limit)
    requires objs != [] && !(objs[0].Batch? && (objs[0].first != last + 1 || Refused(limit, objs[0])))
    ensures PagesFrom(objs, pages, last, limit) ==
      if objs[0].Unparsed? then PagesFrom(objs[1..], pages, last, limit)
      else objs[0].frames + PagesFrom(objs[1..], pages, last + |objs[0].frames|, limit)
  {
  }

  lemma ReceivedFirst(objs: seq<Object>, last: nat, limit: Limit)
    requires objs != []
    ensures Received(Admitted(objs, limit), last) ==
      if objs[0].Unparsed? then Received(Admitted(objs[1..], limit), last)
      else if objs[0].first != last + 1 || Refused(limit, objs[0]) then []
      else objs[0].frames + Received(Admitted(objs[1..], limit), last + |objs[0].frames|)
  {
    if !Refused(limit, objs[0]) {
      assert Admitted(objs, limit)[1..] == Admitted(objs[1..], limit);
    }
  }

  /** The first page of a listing, then the others. */
  lemma {:induction false} PageThenRest(objs: seq<Object>, pages: seq<seq<Object>>, last: nat, limit: Limit)
    requires Listing(objs + Flatten(pages), last)
    requires forall p | p in pages :: p != []
    ensures Received(Admitted(objs + Flatten(pages), limit), last) == PagesFrom(objs, pages, last, limit)
    decreases |pages|, |objs|
  {
    hide Received;
    hide Admitted;
    hide Listing;
    var all := objs + Flatten(pages);
    if objs == [] {
      NoPage(pages, last, limit);
      if pages != [] {
        assert all == pages[0] + Flatten(pages[1..]);
        assert forall p | p in pages[1..] :: p in pages;
        PageThenRest(pages[0], pages[1..], last, limit);
      } else {
        assert all == [];
      }
    } else {
      assert all[1..] == objs[1..] + Flatten(pages);
      hide ScanPages;
      if objs[0].Batch? && (objs[0].first != last + 1 || Over(limit, objs[0])) {
        StopHere(objs, Flatten(pages), last, limit);
        NothingPastAGap(pages, last, limit);
      } else {
        ListingRest(all, last);
        ReceivedFirst(all, last, limit);
        if objs[0].Unparsed? {
          PagesFromNext(objs, pages, last, limit);
          PageThenRest(objs[1..], pages, last, limit);
        } else if !limit.tooLate(objs[0].time) {
          ListingStep(all, last);
          PagesFromNext(objs, pages, last, limit);
          PageThenRest(objs[1..], pages, last + |objs[0].frames|, limit);
        }
      }
    }
  }

  lemma ListingStep(objs: seq<Object>, last: nat)
    requires Listing(objs, last) && objs != [] && objs[0].Batch? && objs[0].first == last + 1
    ensures objs[0].last == last + |objs[0].frames|
  {
  }

  lemma NoPage(pages: seq<seq<Object>>, last: nat, limit: Limit)
    requires forall p | p in pages :: p != []
    ensures PagesFrom([], pages, last, limit) ==
      if pages == [] then [] else PagesFrom(pages[0], pages[1..], last, limit)
    ensures Received(Admitted([], limit), last) == []
  {
    assert pages != [] ==> pages[0] in pages;
  }

  lemma StopHere(objs: seq<Object>, rest: seq<Object>, last: nat, limit: Limit)
    requires Listing(objs + rest, last) && objs != [] && objs[0].Batch?
    requires objs[0].first != last + 1 || Over(limit, objs[0])
    ensures PastGap(rest, last) && Received(Admitted(objs + rest, limit), last) == []
  {
    var all := objs + rest;
    forall i | 0 <= i < |rest| && rest[i].Batch? ensures last + 1 < rest[i].first {
      assert all[|objs| + i] == rest[i] && all[0] == objs[0];
    }
  }

  /** However a listing in name order is cut into pages, exactly the batches that continue one
      another from frame 1, up to the first one refused, are restored. */
  lemma PagesDoNotMatter(pages: seq<seq<Object>>, limit: Limit)
    requires Listing(Flatten(pages), 0) && forall p | p in pages :: p != []
    ensures ScanPages(pages, 0, limit) == Received(Admitted(Flatten(pages), limit), 0)
  {
    assert [] + Flatten(pages) == Flatten(pages);
    PageThenRest([], pages, 0, limit);
  }

  // ----- Frames that were copied twice -----

  /** On one page, whatever the objects are, the batches that continue one another are restored. */
  lemma {:induction false} OnePage(objs: seq<Object>, last: nat, limit: Limit)
    ensures ScanPage(objs, last, limit).frames == Received(Admitted(objs, limit), last)
    ensures ScanPages([objs], last, limit) == Received(Admitted(objs, limit), last)
  {
    if objs != [] {
      ReceivedFirst(objs, last, limit);
      OnePage(objs[1..], if objs[0].Batch? then last + |objs[0].frames| else last, limit);
    }
    assert [objs][1..] == [];
  }

  /** Frames flushed before a rollback are copied again. A batch that repeats them, or that starts
      beyond what its predecessors hold, ends what is restored of its page. */
  lemma {:induction false} RepeatEndsThePage(before: seq<Object>, o: Object, after: seq<Object>, last: nat)
    requires o.Batch? && o.first != last + |Received(before, last)| + 1
    ensures Received(before + [o] + after, last) == Received(before, last)
  {
    var all := before + [o] + after;
    if before == [] {
      assert all[0] == o;
    } else {
      assert all[0] == before[0] && all[1..] == before[1..] + [o] + after;
      match before[0]
      case Unparsed => RepeatEndsThePage(before[1..], o, after, last);
      case Batch(first, _, _, frames) =>
        if first == last + 1 {
          RepeatEndsThePage(before[1..], o, after, last + |frames|);
        }
    }
  }

  /** Where the scan of one page stops: at the first batch that does not continue the ones before, or
      is refused. */
  function StopsAt(objs: seq<Object>, last: nat, limit: Limit): (k: nat)
    ensures k <= |objs|
  {
    if objs == [] then 0
    else if objs[0].Unparsed? then 1 + StopsAt(objs[1..], last, limit)
    else if objs[0].first != last + 1 || Refused(limit, objs[0]) then 0
    else 1 + StopsAt(objs[1..], last + |objs[0].frames|, limit)
  }

  /** Behind the stop there is a batch that continues what was restored. */
  ghost predicate Resumes(limit: Limit, o: Object, last: nat) {
    o.Batch? && o.first == last + 1 && o.frames != [] && !Refused(limit, o)
  }

  ghost predicate NoneResumes(objs: seq<Object>, last: nat, limit: Limit) {
    forall k | 0 <= k < |objs| :: !Resumes(limit, objs[k], last)
  }

  /** The scan is final: the time limit has ended it, or nothing behind the stop would resume it. */
  ghost predicate Final(objs: seq<Object>, last: nat, limit: Limit) {
    var k, page := StopsAt(objs, last, limit), ScanPage(objs, last, limit);
    page.done || (k < |objs| ==> NoneResumes(objs[k + 1..], last + |page.frames|, limit))
  }

  lemma {:induction false} ScanSplits(a: seq<Object>, b: seq<Object>, last: nat, limit: Limit)
    ensures
      var page, all, k := ScanPage(a, last, limit), ScanPage(a + b, last, limit), StopsAt(a, last, limit);
      && (k < |a| ==> all == page && StopsAt(a + b, last, limit) == k)
      && (k == |a| ==>
            var rest := ScanPage(b, last + |page.frames|, limit);
            && !page.done && all == Scan(page.frames + rest.frames, rest.done)
            && StopsAt(a + b, last, limit) == |a| + StopsAt(b, last + |page.frames|, limit))
  {
    if a == [] {
      assert a + b == b && [] + ScanPage(b, last, limit).frames == ScanPage(b, last, limit).frames;
    } else {
      assert (a + b)[0] == a[0] && (a + b)[1..] == a[1..] + b;
      var next := if a[0].Batch? then last + |a[0].frames| else last;
      ScanSplits(a[1..], b, next, limit);
      if a[0].Batch? && a[0].first == last + 1 && !Refused(limit, a[0]) {
        var page, rest := ScanPage(a[1..], next, limit), ScanPage(b, next + |ScanPage(a[1..], next, limit).frames|, limit);
        assert a[0].frames + (page.frames + rest.frames) == (a[0].frames + page.frames) + rest.frames;
      }
    }
  }

  /** Where nothing resumes, further pages add nothing. */
  lemma {:induction false} NothingResumed(objs: seq<Object>, last: nat, limit: Limit)
    requires NoneResumes(objs, last, limit)
    ensures ScanPage(objs, last, limit).frames == []
  {
    if objs != [] {
      assert !Resumes(limit, objs[0], last);
      assert forall k | 0 <= k < |objs| - 1 :: objs[1..][k] == objs[k + 1];
      NothingResumed(objs[1..], last, limit);
    }
  }

  lemma {:induction false} NoPageResumes(pages: seq<seq<Object>>, last: nat, limit: Limit)
    requires NoneResumes(Flatten(pages), last, limit)
    ensures ScanPages(pages, last, limit) == []
  {
    if pages != [] {
      var all := Flatten(pages);
      assert forall k | 0 <= k < |pages[0]| :: pages[0][k] == all[k];
      assert forall k | 0 <= k < |Flatten(pages[1..])| :: Flatten(pages[1..])[k] == all[|pages[0]| + k];
      NothingResumed(pages[0], last, limit);
      NoPageResumes(pages[1..], last, limit);
    }
  }

  lemma NoneResumesLater(a: seq<Object>, b: seq<Object>, k: nat, last: nat, limit: Limit)
    requires k <= |a| && NoneResumes((a + b)[k..], last, limit)
    ensures NoneResumes(b, last, limit)
  {
    hide Resumes;
    forall m | 0 <= m < |b| ensures !Resumes(limit, b[m], last) {
      assert (a + b)[k..][|a| - k + m] == b[m];
    }
  }

  lemma DropBoth(a: seq<Object>, b: seq<Object>, m: nat)
    requires m <= |b|
    ensures (a + b)[|a| + m..] == b[m..]
  {
  }

  /** What a final scan leaves for the pages after the first. */
  lemma FinalSplits(a: seq<Object>, b: seq<Object>, last: nat, limit: Limit)
    requires Final(a + b, last, limit)
    ensures
      var page := ScanPage(a, last, limit);
      if StopsAt(a, last, limit) < |a| then page.done || NoneResumes(b, last + |page.frames|, limit)
      else Final(b, last + |page.frames|, limit)
  {
    hide ScanPage;
    hide StopsAt;
    hide NoneResumes;
    ScanSplits(a, b, last, limit);
    var k, page := StopsAt(a, last, limit), ScanPage(a, last, limit);
    if k < |a| {
      if !page.done {
        NoneResumesLater(a, b, k + 1, last + |page.frames|, limit);
      }
    } else {
      var m := StopsAt(b, last + |page.frames|, limit);
      if m < |b| {
        DropBoth(a, b, m + 1);
      }
    }
  }

  lemma {:induction false} FinalInAnyPages(pages: seq<seq<Object>>, last: nat, limit: Limit)
    requires Final(Flatten(pages), last, limit) && forall p | p in pages :: p != []
    ensures ScanPages(pages, last, limit) == ScanPage(Flatten(pages), last, limit).frames
  {
    if pages == [] {
    } else {
      var a, b := pages[0], Flatten(pages[1..]);
      assert a in pages && forall p | p in pages[1..] :: p in pages;
      ScanSplits(a, b, last, limit);
      FinalSplits(a, b, last, limit);
      hide Final;
      hide ScanPage;
      hide StopsAt;
      hide NoneResumes;
      var k, page := StopsAt(a, last, limit), ScanPage(a, last, limit);
      if k == |a| {
        FinalInAnyPages(pages[1..], last + |page.frames|, limit);
      } else if !page.done {
        NoPageResumes(pages[1..], last + |page.frames|, limit);
        assert page.frames + [] == page.frames;
      }
    }
  }

  /** A batch that would resume the scan does so when a page starts with it. */
  lemma ResumedOnItsOwnPage(objs: seq<Object>, last: nat, limit: Limit) returns (pages: seq<seq<Object>>)
    requires !Final(objs, last, limit)
    ensures Flatten(pages) == objs && forall p | p in pages :: p != []
    ensures ScanPages(pages, last, limit) != ScanPage(objs, last, limit).frames
  {
    var k, page := StopsAt(objs, last, limit), ScanPage(objs, last, limit);
    var m :| 0 <= m < |objs[k + 1..]| && Resumes(limit, objs[k + 1..][m], last + |page.frames|);
    var a, b := objs[..k + 1 + m], objs[k + 1 + m..];
    assert a + b == objs && b[0] == objs[k + 1..][m];
    ScanSplits(a, b, last, limit);
    pages := [a, b];
    assert pages[1..] == [b] && [b][1..] == [] && b + [] == b;
    assert Flatten([b]) == b;
    assert ScanPage(b, last + |page.frames|, limit).frames != [];
    assert ScanPages([b], last + |page.frames|, limit) != [];
  }

  /** Every cut of a listing into pages gives what one page gives if and only if the scan is final. */
  lemma PagesMatterExactly(objs: seq<Object>, last: nat, limit: Limit)
    ensures
      (forall pages | Flatten(pages) == objs && (forall p | p in pages :: p != []) ::
         ScanPages(pages, last, limit) == ScanPage(objs, last, limit).frames) <==>
      Final(objs, last, limit)
  {
    if Final(objs, last, limit) {
      forall pages | Flatten(pages) == objs && (forall p | p in pages :: p != [])
        ensures ScanPages(pages, last, limit) == ScanPage(objs, last, limit).frames
      {
        FinalInAnyPages(pages, last, limit);
      }
    } else {
      var pages := ResumedOnItsOwnPage(objs, last, limit);
    }
  }

  /** With such a batch in the listing the pages do make a difference: the next page starts afresh
      from the last frame restored, and its batches continue the frames that were rolled back. */
  lemma RepeatsMakePagesMatter(a: seq<Frame>, b: seq<Frame>, c: seq<Frame>, d: seq<Frame>, limit: Limit)
    requires |a| == 3 && |b| == 2 && |c| == 3 && |d| == 2 && limit.frame.None? && !limit.tooLate(0)
    ensures
      var objs, next := [Batch(1, 3, 0, a), Batch(4, 5, 0, b), Batch(4, 6, 0, c)], [Batch(6, 7, 0, d)];
      ScanPages([objs + next], 0, limit) == a + b && ScanPages([objs, next], 0, limit) == a + b + d
  {
    var x, y, z, w := Batch(1, 3, 0, a), Batch(4, 5, 0, b), Batch(4, 6, 0, c), Batch(6, 7, 0, d);
    Repeated(x, y, z, [], limit);
    Repeated(x, y, z, [w], limit);
    assert [x, y, z] + [w] == [x, y, z, w] && [x, y, z] + [] == [x, y, z];
    assert [w][1..] == [] && d + [] == d && ScanPage([w], 5, limit) == Scan(d, false);
    var pages := [[x, y, z], [w]];
    assert pages[1..] == [[w]] && [[w]][1..] == [] && [[x, y, z, w]][1..] == [];
    assert ScanPages([[w]], 5, limit) == d;
  }

  lemma Repeated(x: Object, y: Object, z: Object, rest: seq<Object>, limit: Limit)
    requires x.Batch? && y.Batch? && z.Batch? && x.first == 1 && |x.frames| == 3 && y.first == 4 && |y.frames| == 2 && z.first == 4
    requires !Refused(limit, x) && !Refused(limit, y)
    ensures ScanPage([x, y, z] + rest, 0, limit) == Scan(x.frames + y.frames, false)
  {
    var all := [x, y, z] + rest;
    assert all[1..][0] == y && all[1..][1..][0] == z;
    assert y.frames + [] == y.frames;
    assert ScanPage(all[1..][1..], 5, limit) == Scan([], false);
    assert ScanPage(all[1..], 3, limit) == Scan(y.frames, false);
  }

  // ----- Injection -----

  /** Only whole transactions reach the database, whatever the injector's buffer holds. */
  lemma {:induction false} InjectsWholeTransactions(db: Image, capacity: nat, frames: seq<Frame>)
    ensures
      var i := Load(Injector(db, [], false, [], 0, capacity), frames);
      i.capacity == capacity && Injects(db, i, frames)
  {
    if frames != [] {
      hide Injects;
      hide InjectFrame;
      var n := |frames| - 1;
      var before, f := frames[..n], frames[n];
      InjectsWholeTransactions(db, capacity, before);
      var i := Load(Injector(db, [], false, [], 0, capacity), before);
      InjectOne(db, i, before, f);
      assert before + [f] == frames;
    }
  }

  /** The database holds the whole transactions of `frames`, and the injector the rest. */
  ghost predicate Injects(db: Image, i: Injector, frames: seq<Frame>) {
    && i.db == WriteAll(db, frames[..CommittedLen(frames)])
    && i.wal + i.buffer == frames[CommittedLen(frames)..]
  }

  lemma BuffersOne(i: Injector, f: Frame)
    requires !IsCommit(f)
    ensures var j := InjectFrame(i, f, Works).0;
      j.db == i.db && j.wal + j.buffer == i.wal + i.buffer + [f]
  {
    hide WriteAll;
    assert (i.buffer + [f])[|i.buffer|] == f;
    assert i.wal + (i.buffer + [f]) == i.wal + i.buffer + [f];
  }

  lemma KeepsCapacity(i: Injector, f: Frame)
    ensures InjectFrame(i, f, Works).0.capacity == i.capacity
  {
    hide WriteAll;
  }

  lemma InjectOne(db: Image, i: Injector, before: seq<Frame>, f: Frame)
    requires Injects(db, i, before)
    ensures InjectFrame(i, f, Works).0.capacity == i.capacity
    ensures Injects(db, InjectFrame(i, f, Works).0, before + [f])
  {
    hide WriteAll;
    hide InjectFrame;
    KeepsCapacity(i, f);
    var all, n := before + [f], CommittedLen(before);
    assert all[..|before|] == before;
    if IsCommit(f) {
      CommitFlushes(i, f);
      assert CommittedLen(all) == |all|;
      WriteAllConcat(db, before[..n], before[n..] + [f]);
      assert before[..n] + (before[n..] + [f]) == all[..|all|];
    } else {
      BuffersOne(i, f);
      assert CommittedLen(all) == n;
      assert all[..n] == before[..n] && all[n..] == before[n..] + [f];
    }
  }

  // ----- The restore -----

  method InjectBatch(injector: ReplicaTask.SqliteInjector, frames: seq<Frame>, first: nat, last: nat) returns (last': nat)
    requires first == last + 1
    modifies injector
    ensures injector.View() == Load(old(injector.View()), frames) && last' == last + |frames|
  {
    last' := last;
    var next, k := first, 0;
    while k < |frames|
      invariant 0 <= k <= |frames| && last' == last + k && next == first + k
      invariant injector.View() == Load(old(injector.View()), frames[..k])
    {
      last' := next;
      next := next + 1;
      var _ := injector.Inject(frames[k], Works);
      assert frames[..k + 1][..k] == frames[..k];
      k := k + 1;
    }
    assert frames[..k] == frames;
  }

  lemma {:induction false} LoadConcat(i: Injector, a: seq<Frame>, b: seq<Frame>)
    ensures Load(i, a + b) == Load(Load(i, a), b)
  {
    if b == [] {
      assert a + b == a;
    } else {
      assert (a + b)[..|a + b| - 1] == a + b[..|b| - 1];
      LoadConcat(i, a, b[..|b| - 1]);
    }
  }

  lemma NoneInjected(i: Injector)
    ensures Load(i, []) == i
  {
  }

  lemma NoMore(last: nat, limit: Limit)
    ensures ScanPage([], last, limit) == Scan([], false)
    ensures ScanPages([], last, limit) == []
  {
  }

  lemma ScanNext(objs: seq<Object>, k: nat, last: nat, limit: Limit)
    requires k < |objs|
    ensures ScanPage(objs[k..], last, limit) ==
      if objs[k].Unparsed? then ScanPage(objs[k + 1..], last, limit)
      else if objs[k].first != last + 1 || Over(limit, objs[k]) then Scan([], false)
      else if limit.tooLate(objs[k].time) then Scan([], true)
      else
        var rest := ScanPage(objs[k + 1..], last + |objs[k].frames|, limit);
        Scan(objs[k].frames + rest.frames, rest.done)
  {
    assert objs[k..][1..] == objs[k + 1..];
  }

  lemma NextPage(pages: seq<seq<Object>>, k: nat, last: nat, limit: Limit)
    requires k < |pages|
    ensures ScanPages(pages[k..], last, limit) ==
      if pages[k] == [] then []
      else
        var page := ScanPage(pages[k], last, limit);
        if page.done then page.frames
        else page.frames + ScanPages(pages[k + 1..], last + |page.frames|, limit)
  {
    assert pages[k..][1..] == pages[k + 1..];
  }

  method RestorePage(injector: ReplicaTask.SqliteInjector, objs: seq<Object>, last: nat, limit: Limit)
    returns (last': nat, done: bool, applied: bool)
    modifies injector
    ensures
      var scan := ScanPage(objs, last, limit);
      && injector.View() == Load(old(injector.View()), scan.frames)
      && last' == last + |scan.frames| && done == scan.done && applied == (scan.frames != [])
  {
    hide ScanPage;
    hide Load;
    ghost var start := injector.View();
    ghost var taken: seq<Frame> := [];
    NoneInjected(start);
    last', done, applied := last, false, false;
    var k := 0;
    assert objs[0..] == objs;
    while k < |objs|
      invariant 0 <= k <= |objs| && !done
      invariant injector.View() == Load(start, taken) && last' == last + |taken| && applied == (taken != [])
      invariant
        var rest := ScanPage(objs[k..], last', limit);
        ScanPage(objs, last, limit) == Scan(taken + rest.frames, rest.done)
    {
      ScanNext(objs, k, last', limit);
      if objs[k].Batch? {
        if objs[k].first != last' + 1 {
          break;
        }
        if Over(limit, objs[k]) {
          break;
        }
        if limit.tooLate(objs[k].time) {
          done := true;
          break;
        }
        LoadConcat(start, taken, objs[k].frames);
        Regroup(taken, objs[k].frames, ScanPage(objs[k + 1..], last' + |objs[k].frames|, limit).frames);
        last' := InjectBatch(injector, objs[k].frames, objs[k].first, last');
        applied := applied || objs[k].frames != [];
        taken := taken + objs[k].frames;
      }
      k := k + 1;
    }
    assert k == |objs| ==> objs[k..] == [];
    assert taken + [] == taken;
    NoMore(last', limit);
  }

  /** What replaying a generation onto a database gives. */
  function Replay(db: Image, pages: seq<seq<Object>>, limit: Limit): Image {
    var frames := ScanPages(pages, 0, limit);
    WriteAll(db, frames[..CommittedLen(frames)])
  }

  /** Restore the frames of a generation; the transaction left open at the end is dropped with
      the injector. */
  method Restore(db: Image, pages: seq<seq<Object>>, limit: Limit) returns (db': Image, applied: bool)
    ensures db' == Replay(db, pages, limit) && applied == (ScanPages(pages, 0, limit) != [])
  {
    hide ScanPages;
    hide ScanPage;
    hide Load;
    hide WriteAll;
    hide CommittedLen;
    var injector := new ReplicaTask.SqliteInjector(db, 4096);
    ghost var start := injector.View();
    ghost var taken: seq<Frame> := [];
    NoneInjected(start);
    applied := false;
    var last, k := 0, 0;
    assert pages[0..] == pages;
    while k < |pages|
      invariant 0 <= k <= |pages| && fresh(injector)
      invariant injector.View() == Load(start, taken) && last == |taken| && applied == (taken != [])
      invariant ScanPages(pages, 0, limit) == taken + ScanPages(pages[k..], last, limit)
    {
      NextPage(pages, k, last, limit);
      if pages[k] == [] {
        break;
      }
      var done, some;
      ghost var page := ScanPage(pages[k], last, limit);
      LoadConcat(start, taken, page.frames);
      Regroup(taken, page.frames, ScanPages(pages[k + 1..], last + |page.frames|, limit));
      last, done, some := RestorePage(injector, pages[k], last, limit);
      taken, applied := taken + page.frames, applied || some;
      if done {
        break;
      }
      k := k + 1;
    }
    NoMore(last, limit);
    assert k == |pages| ==> pages[k..] == [];
    assert taken + [] == taken;
    assert taken == ScanPages(pages, 0, limit);
    InjectsWholeTransactions(db, 4096, taken);
    db' := injector.db;
  }

  // ----- The last consistent frame -----

  function LastNo(objs: seq<Object>): nat {
    if objs == [] then 0
    else if objs[|objs| - 1].Batch? then objs[|objs| - 1].last
    else LastNo(objs[..|objs| - 1])
  }

  /** In a listing the last batch named is the furthest one. */
  lemma {:induction false} LastIsGreatest(objs: seq<Object>, k: nat)
    requires Listing(objs, 0) && k < |objs| && objs[k].Batch?
    ensures objs[k].last <= LastNo(objs)
  {
    var n := |objs| - 1;
    if objs[n].Unparsed? {
      LastIsGreatest(objs[..n], k);
    }
  }

  lemma {:induction false} LastIsSome(objs: seq<Object>)
    ensures LastNo(objs) == 0 || exists k :: 0 <= k < |objs| && objs[k].Batch? && objs[k].last == LastNo(objs)
  {
    if objs != [] && objs[|objs| - 1].Unparsed? {
      LastIsSome(objs[..|objs| - 1]);
    }
  }

  /** One page of the listing. */
  method LastOfPage(objs: seq<Object>, ghost before: seq<Object>, last: nat) returns (last': nat)
    requires last == LastNo(before)
    ensures last' == LastNo(before + objs)
  {
    last' := last;
    var j := 0;
    assert before + objs[..0] == before;
    while j < |objs|
      invariant 0 <= j <= |objs| && last' == LastNo(before + objs[..j])
    {
      assert (before + objs[..j + 1])[..|before| + j] == before + objs[..j];
      if objs[j].Batch? {
        last' := objs[j].last;
      }
      j := j + 1;
    }
    assert objs[..j] == objs;
  }

  method LastConsistentFrame(pages: seq<seq<Object>>) returns (last: nat)
    ensures (forall p | p in pages :: p != []) ==> last == LastNo(Flatten(pages))
  {
    last := 0;
    var k := 0;
    while k < |pages| && pages[k] != []
      invariant 0 <= k <= |pages| && last == LastNo(Flatten(pages[..k]))
    {
      last := LastOfPage(pages[k], Flatten(pages[..k]), last);
      assert pages[..k + 1] == pages[..k] + [pages[k]];
      FlattenSnoc(pages[..k], pages[k]);
      k := k + 1;
    }
    if k < |pages| {
      assert pages[k] in pages;
    }
    assert k == |pages| ==> pages[..k] == pages;
  }

  lemma {:induction false} AdmitsAll(a: seq<Object>, b: seq<Object>, limit: Limit)
    requires forall k | 0 <= k < |a| :: !Refused(limit, a[k])
    ensures Admitted(a + b, limit) == a + Admitted(b, limit)
  {
    if a == [] {
      assert a + b == b;
    } else {
      assert (a + b)[1..] == a[1..] + b;
      AdmitsAll(a[1..], b, limit);
    }
  }

  lemma {:induction false} OnlyUnparsed(objs: seq<Object>, limit: Limit)
    requires forall k | 0 <= k < |objs| && objs[k].Batch? :: Refused(limit, objs[k])
    ensures forall k | 0 <= k < |Admitted(objs, limit)| :: Admitted(objs, limit)[k].Unparsed?
  {
    if objs != [] && objs[0].Unparsed? {
      OnlyUnparsed(objs[1..], limit);
    }
  }

  lemma {:induction false} UnparsedAddNothing(a: seq<Object>, b: seq<Object>, last: nat)
    requires forall k | 0 <= k < |b| :: b[k].Unparsed?
    ensures Received(a + b, last) == Received(a, last)
    decreases |a|, |b|
  {
    if a == [] {
      assert a + b == b;
      if b != [] {
        UnparsedAddNothing(a, b[1..], last);
        assert a + b[1..] == b[1..];
      }
    } else {
      assert (a + b)[1..] == a[1..] + b;
      match a[0]
      case Unparsed => UnparsedAddNothing(a[1..], b, last);
      case Batch(first, _, _, frames) => UnparsedAddNothing(a[1..], b, last + |frames|);
    }
  }

  /** A restore limited to the last consistent frame of an earlier listing gives what that
      listing held, whatever has been uploaded since. */
  lemma LaterUploadsIgnored(seen: seq<Object>, later: seq<Object>, limit: Limit)
    requires Listing(seen + later, 0) && limit.frame == Some(LastNo(seen))
    requires forall k | 0 <= k < |seen| && seen[k].Batch? :: !limit.tooLate(seen[k].time)
    ensures Received(Admitted(seen + later, limit), 0) == Received(seen, 0)
  {
    var all := seen + later;
    assert Listing(seen, 0) by {
      forall k | 0 <= k < |seen| ensures seen[k] == all[k] {}
    }
    forall k | 0 <= k < |seen| ensures !Refused(limit, seen[k]) {
      if seen[k].Batch? {
        LastIsGreatest(seen, k);
      }
    }
    AdmitsAll(seen, later, limit);
    LastIsSome(seen);
    forall k | 0 <= k < |later| && later[k].Batch? ensures Refused(limit, later[k]) {
      assert all[|seen| + k] == later[k];
      if LastNo(seen) != 0 {
        var i :| 0 <= i < |seen| && seen[i].Batch? && seen[i].last == LastNo(seen);
        assert all[i] == seen[i];
      }
    }
    OnlyUnparsed(later, limit);
    UnparsedAddNothing(seen, Admitted(later, limit), 0);
  }
}
