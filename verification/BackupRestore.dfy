/** From a log to the bucket and back: batches are stored under printed names, listed in the order of
those names, parsed, and restored. */
module BackupRestore {
  import opened Collections
  import opened WalLog
  import opened Lexicographic
  import opened LocalReplay
  import opened RestoreWal
  import opened ObjectNames
  import WalCopier

  type Span = WalCopier.Span

  datatype Stored = Stored(key: string, frames: seq<Frame>)

  /** What a restore sees of a stored object. */
  function ObjectOf(o: Stored): Object {
    var name := Parse(o.key);
    if name.None? then Unparsed else Batch(name.value.first, name.value.last, name.value.time, o.frames)
  }

  function Objects(page: seq<Stored>): seq<Object> {
    if page == [] then [] else [ObjectOf(page[0])] + Objects(page[1..])
  }

  function ObjectPages(pages: seq<seq<Stored>>): seq<seq<Object>> {
    if pages == [] then [] else [Objects(pages[0])] + ObjectPages(pages[1..])
  }

  lemma {:induction false} ObjectsAt(page: seq<Stored>)
    ensures |Objects(page)| == |page| && forall i | 0 <= i < |page| :: Objects(page)[i] == ObjectOf(page[i])
  {
    if page != [] {
      ObjectsAt(page[1..]);
      forall i | 0 < i < |page| ensures Objects(page)[i] == ObjectOf(page[i]) {
        assert page[1..][i - 1] == page[i];
      }
    }
  }

  lemma {:induction false} ObjectsConcat(a: seq<Stored>, b: seq<Stored>)
    ensures Objects(a + b) == Objects(a) + Objects(b)
  {
    if a == [] {
      assert a + b == b;
    } else {
      assert (a + b)[1..] == a[1..] + b;
      ObjectsConcat(a[1..], b);
    }
  }

  lemma {:induction false} FlattenObjects(pages: seq<seq<Stored>>)
    requires forall p | p in pages :: p != []
    ensures Flatten(ObjectPages(pages)) == Objects(Flatten(pages))
    ensures forall p | p in ObjectPages(pages) :: p != []
  {
    if pages != [] {
      assert pages[0] in pages && forall p | p in pages[1..] :: p in pages;
      FlattenObjects(pages[1..]);
      ObjectsConcat(pages[0], Flatten(pages[1..]));
      ObjectsAt(pages[0]);
      assert ObjectPages(pages)[1..] == ObjectPages(pages[1..]);
    }
  }

  // ----- The bucket -----

  predicate Names(dir: string, b: Span, time: nat, kind: Compression, key: string) {
    time < U64 && b.end > 0 && key == Key(dir, BatchName(b.start, b.end - 1, time, kind))
  }

  /** The object holds the frames of the batch, under a name for it. */
  ghost predicate IsUpload(log: seq<Frame>, b: Span, dir: string, o: Stored) {
    && 0 < b.start < b.end <= |log| + 1 && b.end <= U32 && o.frames == log[b.start - 1..b.end - 1]
    && exists time, kind :: Names(dir, b, time, kind, o.key)
  }

  /** Every batch is stored once, written at any time and compressed in any way; anything else in
      the directory has a name that is not that of a batch. */
  ghost predicate BucketOf(log: seq<Frame>, bs: seq<Span>, dir: string, objs: seq<Stored>, which: seq<Option<nat>>) {
    && |which| == |objs|
    && (forall i | 0 <= i < |objs| ::
          if which[i].None? then Parse(objs[i].key).None?
          else which[i].value < |bs| && IsUpload(log, bs[which[i].value], dir, objs[i]))
    && (forall i, j | 0 <= i < j < |objs| && which[i].Some? && which[j].Some? :: which[i] != which[j])
    && (forall k | 0 <= k < |bs| :: Some(k) in which)
  }

  ghost predicate InNameOrder(objs: seq<Stored>) {
    forall i, j | 0 <= i < j < |objs| :: !Less(Codes(objs[j].key), Codes(objs[i].key))
  }

  lemma UploadIsRead(log: seq<Frame>, b: Span, dir: string, o: Stored)
    requires IsUpload(log, b, dir, o)
    ensures var x := ObjectOf(o);
      && x.Batch? && x.first == b.start && x.last == b.end - 1 && x.time < U64
      && x.frames == log[b.start - 1..b.end - 1] && NamedAs(dir, x, o.key)
  {
    hide Key;
    hide Parse;
    var time, kind :| Names(dir, b, time, kind, o.key);
    ObjectNames.RoundTrip(dir, BatchName(b.start, b.end - 1, time, kind));
  }

  /** What a restore sees: the batches, each where its object is listed, and nothing else. */
  ghost predicate Reads(log: seq<Frame>, bs: seq<Span>, which: seq<Option<nat>>, os: seq<Object>) {
    && |os| == |which|
    && (forall i | 0 <= i < |os| ::
          if which[i].None? then os[i].Unparsed?
          else
            && which[i].value < |bs| && os[i].Batch?
            && var b := bs[which[i].value];
               && 0 < b.start < b.end <= |log| + 1
               && os[i].first == b.start && os[i].last == b.end - 1 && os[i].frames == log[b.start - 1..b.end - 1])
  }

  lemma BucketReads(log: seq<Frame>, bs: seq<Span>, dir: string, objs: seq<Stored>, which: seq<Option<nat>>)
    requires BucketOf(log, bs, dir, objs, which)
    ensures Reads(log, bs, which, Objects(objs))
    ensures forall i | 0 <= i < |objs| :: NamedAs(dir, Objects(objs)[i], objs[i].key)
    ensures forall i | 0 <= i < |objs| && Objects(objs)[i].Batch? ::
      Objects(objs)[i].first < U32 && Objects(objs)[i].last < U32 && Objects(objs)[i].time < U64
  {
    ObjectsAt(objs);
    hide Objects;
    hide ObjectOf;
    hide NamedAs;
    forall i | 0 <= i < |objs|
      ensures which[i].None? ==> ObjectOf(objs[i]).Unparsed? && NamedAs(dir, ObjectOf(objs[i]), objs[i].key)
      ensures which[i].Some? ==>
        && var b, x := bs[which[i].value], ObjectOf(objs[i]);
           && x.Batch? && x.first == b.start && x.last == b.end - 1 && x.time < U64
           && x.frames == log[b.start - 1..b.end - 1] && NamedAs(dir, x, objs[i].key)
    {
      if which[i].Some? {
        UploadIsRead(log, bs[which[i].value], dir, objs[i]);
      } else {
        NotABatch(dir, objs[i]);
      }
    }
  }

  lemma NotABatch(dir: string, o: Stored)
    requires Parse(o.key).None?
    ensures ObjectOf(o).Unparsed? && NamedAs(dir, ObjectOf(o), o.key)
  {
  }

  lemma ReadsApart(log: seq<Frame>, bs: seq<Span>, which: seq<Option<nat>>, os: seq<Object>, end: nat, i: nat, j: nat)
    requires Reads(log, bs, which, os) && WalCopier.Consecutive(bs, 1, end)
    requires forall i, j | 0 <= i < j < |os| && which[i].Some? && which[j].Some? :: which[i] != which[j]
    requires i < |os| && j < |os| && i != j && os[i].Batch? && os[j].Batch?
    ensures os[i].first + |os[i].frames| <= os[j].first || os[j].first + |os[j].frames| <= os[i].first
  {
    var k, m := which[i].value, which[j].value;
    assert which[i] != which[j];
    assert k < m ==> bs[k].end <= bs[m].start;
    assert m < k ==> bs[m].end <= bs[k].start;
  }

  /** The order of the names is the order of the frames. */
  lemma BucketInOrder(log: seq<Frame>, bs: seq<Span>, dir: string, objs: seq<Stored>, which: seq<Option<nat>>, end: nat)
    requires BucketOf(log, bs, dir, objs, which) && InNameOrder(objs) && WalCopier.Consecutive(bs, 1, end)
    ensures Reads(log, bs, which, Objects(objs)) && LocalReplay.InOrder(Objects(objs))
  {
    BucketReads(log, bs, dir, objs, which);
    hide NamedAs;
    hide Less;
    hide Codes;
    hide Objects;
    hide IsUpload;
    var os, keys := Objects(objs), seq(|objs|, i requires 0 <= i < |objs| => objs[i].key);
    forall i, j | 0 <= i < |os| && 0 <= j < |os| && i != j && os[i].Batch? && os[j].Batch?
      ensures os[i].first + |os[i].frames| <= os[j].first || os[j].first + |os[j].frames| <= os[i].first
    {
      ReadsApart(log, bs, which, os, end, i, j);
    }
    forall k | 0 <= k < |os| && os[k].Batch? ensures os[k].frames != [] {
      assert which[k].Some?;
    }
    hide BucketOf;
    hide Reads;
    ListedInFrameOrder(dir, os, keys);
  }

  // ----- The round trip -----

  lemma {:induction false} ReceivedWithin(objs: seq<Object>, last: nat, end: nat)
    requires last < end && forall i | 0 <= i < |objs| && objs[i].Batch? :: objs[i].first + |objs[i].frames| <= end
    ensures last + |Received(objs, last)| < end
  {
    if objs != [] {
      forall i | 0 <= i < |objs| - 1 ensures objs[1..][i] == objs[i + 1] {}
      match objs[0]
      case Unparsed => ReceivedWithin(objs[1..], last, end);
      case Batch(first, _, _, frames) =>
        if first == last + 1 {
          ReceivedWithin(objs[1..], last + |frames|, end);
        }
    }
  }

  lemma ReadsTheLog(log: seq<Frame>, bs: seq<Span>, which: seq<Option<nat>>, os: seq<Object>, end: nat)
    requires Reads(log, bs, which, os) && LocalReplay.InOrder(os) && WalCopier.Chained(bs, 1, end) && 1 <= end <= |log| + 1
    requires forall k | 0 <= k < |bs| :: Some(k) in which
    ensures Listing(os, 0) && Received(os, 0) == log[..end - 1]
  {
    hide Received;
    WalCopier.InOneBatch(bs, 1, end, 0);
    assert Listing(os, 0);
    assert CutFrom(log, os);
    ReceivesTheLog(log, os, 0);
    var m := |Received(os, 0)|;
    forall i | 0 <= i < |os| && os[i].Batch? ensures os[i].first + |os[i].frames| <= end {
      assert bs[which[i].value].end <= end;
    }
    ReceivedWithin(os, 0, end);
    WalCopier.InOneBatch(bs, 1, end, m + 1);
    if m + 1 < end {
      MissingFrame(log, bs, which, os, m);
      assert false;
    }
  }

  lemma MissingFrame(log: seq<Frame>, bs: seq<Span>, which: seq<Option<nat>>, os: seq<Object>, m: nat)
    requires Reads(log, bs, which, os) && Listing(os, 0) && m == |Received(os, 0)|
    requires forall k | 0 <= k < |bs| :: Some(k) in which
    ensures forall k | 0 <= k < |bs| :: !WalCopier.Holds(bs[k], m + 1)
  {
    hide Received;
    forall k | 0 <= k < |bs| ensures !WalCopier.Holds(bs[k], m + 1) {
      var i :| 0 <= i < |which| && which[i] == Some(k);
      StopsAtAGap(os, 0, i);
    }
  }

  lemma {:induction false} NoLimit(objs: seq<Object>, limit: Limit)
    requires limit.frame.None? && forall k | 0 <= k < |objs| && objs[k].Batch? :: !limit.tooLate(objs[k].time)
    ensures Admitted(objs, limit) == objs
  {
    if objs != [] {
      NoLimit(objs[1..], limit);
    }
  }

  lemma BucketReceived(log: seq<Frame>, bs: seq<Span>, dir: string, objs: seq<Stored>, which: seq<Option<nat>>, end: nat)
    requires BucketOf(log, bs, dir, objs, which) && InNameOrder(objs)
    requires WalCopier.Chained(bs, 1, end) && 1 <= end <= |log| + 1
    ensures Listing(Objects(objs), 0) && Received(Objects(objs), 0) == log[..end - 1]
  {
    WalCopier.InOneBatch(bs, 1, end, 0);
    hide WalCopier.Chained;
    BucketInOrder(log, bs, dir, objs, which, end);
    hide Objects;
    hide InNameOrder;
    hide IsUpload;
    ReadsTheLog(log, bs, which, Objects(objs), end);
  }

  lemma RestoresReceived(pages: seq<seq<Object>>, limit: Limit)
    requires Listing(Flatten(pages), 0) && forall p | p in pages :: p != []
    requires limit.frame.None? && forall time :: !limit.tooLate(time)
    ensures
      var copied := Received(Flatten(pages), 0);
      Replay(map[], pages, limit) == ImageAt(copied, CommittedLen(copied))
  {
    NoLimit(Flatten(pages), limit);
    PagesDoNotMatter(pages, limit);
  }

  /** The round trip: frames 1 up to `End - 1` of a log, flushed by any number of jobs with any
      batch sizes, stored under their names beside any other objects, and listed by name in pages
      of any size, are restored as the image of their whole transactions. */
  lemma BackupThenRestore(log: seq<Frame>, jobs: seq<WalCopier.Job>, dir: string, pages: seq<seq<Stored>>, which: seq<Option<nat>>, limit: Limit)
    requires WalCopier.Jobs(jobs, 1) && 1 <= WalCopier.End(jobs, 1) <= |log| + 1
    requires BucketOf(log, WalCopier.AllBatches(jobs, 1), dir, Flatten(pages), which)
    requires InNameOrder(Flatten(pages)) && forall p | p in pages :: p != []
    requires limit.frame.None? && forall time :: !limit.tooLate(time)
    ensures
      var copied := log[..WalCopier.End(jobs, 1) - 1];
      Replay(map[], ObjectPages(pages), limit) == ImageAt(copied, CommittedLen(copied))
  {
    WalCopier.JobsChain(jobs, 1);
    FlattenObjects(pages);
    BucketReceived(log, WalCopier.AllBatches(jobs, 1), dir, Flatten(pages), which, WalCopier.End(jobs, 1));
    hide *;
    RestoresReceived(ObjectPages(pages), limit);
  }
}
