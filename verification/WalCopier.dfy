/** Cutting a range of frames into batches, and reporting their uploads. */
module WalCopier {
  import opened Collections
  import CP = CompletionProgress

  /** Frames `start` to `end - 1`. */
  datatype Span = Span(start: nat, end: nat)

  function Min(a: nat, b: nat): nat { if a < b then a else b }

  function Batches(start: nat, end: nat, max: nat): seq<Span>
    requires max > 0
    decreases end - start
  {
    if start >= end then []
    else [Span(start, Min(start + max, end))] + Batches(start + max, end, max)
  }

  datatype Flushed =
    | Unstarted                       // the name of the generation could not be sent
    | Overflowed                      // a batch would end beyond the range of a frame number
    | Copied(last: nat, ready: nat)

  /** Copy a range, batch by batch; `sends` is how many of the batches the outbox accepts. Before
      the first frame of a generation its metadata goes to the same outbox, and it is an error if
      the outbox does not take that. */
  method Flush(start: nat, end: nat, max: nat, metaSent: bool, sends: nat) returns (r: Flushed, sent: seq<Span>)
    requires 0 < start < U32 && end < U32 && 0 < max < U32
    ensures sent <= Batches(start, end, max)
    ensures r.Copied? && start >= end ==> r == Copied(start - 1, 0)
    ensures r.Copied? && start < end && sends >= |Batches(start, end, max)| ==>
      sent == Batches(start, end, max) && r == Copied(end - 1, |sent|)
    ensures r.Copied? && start < end && sends < |Batches(start, end, max)| ==>
      |sent| == sends == r.ready && r.last + 1 == Batches(start, end, max)[sends].end
    ensures forall k | 0 <= k < |sent| :: sent[k].start + max < U32
    ensures r.Overflowed? ==>
      |sent| <= sends && |sent| < |Batches(start, end, max)| && Batches(start, end, max)[|sent|].start + max >= U32
    ensures r.Unstarted? <==> start == 1 && start < end && !metaSent
    ensures r.Unstarted? ==> sent == []
    ensures end + max <= U32 ==> !r.Overflowed?
  {
    sent := [];
    if start >= end {
      return Copied(start - 1, 0), [];
    }
    if start == 1 && !metaSent {
      return Unstarted, [];
    }
    ghost var all := Batches(start, end, max);
    var s, ready := start, 0;
    while s < end
      invariant ready == |sent| <= sends && start <= s && sent + Batches(s, end, max) == all
      invariant forall k | 0 <= k < |sent| :: sent[k].start + max < U32
    {
      ghost var rest := Batches(s + max, end, max);
      if s + max >= U32 {
        assert all[ready] == Span(s, Min(s + max, end));
        return Overflowed, sent;
      }
      var e := Min(s + max, end);
      assert all[ready] == Span(s, e);
      if ready == sends {
        return Copied(e - 1, ready), sent;
      }
      assert sent + ([Span(s, e)] + rest) == (sent + [Span(s, e)]) + rest;
      sent, ready, s := sent + [Span(s, e)], ready + 1, s + max;
    }
    r := Copied(end - 1, ready);
  }

  // ----- The batches partition the range -----

  ghost predicate Holds(b: Span, f: nat) { b.start <= f < b.end }

  ghost predicate Chained(bs: seq<Span>, start: nat, end: nat) {
    if bs == [] then start >= end
    else bs[0].start == start && start < bs[0].end <= end && Chained(bs[1..], bs[0].end, end)
  }

  /** Consecutive batches, none empty or over the limit, from the start of the range to its end. */
  lemma {:induction false} BatchesPartition(start: nat, end: nat, max: nat)
    requires max > 0
    ensures Chained(Batches(start, end, max), start, end)
    ensures forall k | 0 <= k < |Batches(start, end, max)| ::
      0 < Batches(start, end, max)[k].end - Batches(start, end, max)[k].start <= max
    decreases end - start
  {
    if start < end {
      BatchesPartition(start + max, end, max);
      var rest := Batches(start + max, end, max);
      assert Batches(start, end, max)[1..] == rest;
      if start + max > end {
        assert rest == [];
      }
    }
  }

  /** Only the last batch may be short, so there are no more batches than needed. */
  lemma {:induction false} BatchesAreFull(start: nat, end: nat, max: nat)
    requires max > 0
    ensures var bs := Batches(start, end, max);
      && (forall k | 0 <= k < |bs| - 1 :: bs[k].end - bs[k].start == max)
      && (start < end ==> bs != [] && (|bs| - 1) * max < end - start <= |bs| * max)
      && (start >= end ==> bs == [])
    decreases end - start
  {
    if start < end {
      var rest := Batches(start + max, end, max);
      BatchesAreFull(start + max, end, max);
      var bs := Batches(start, end, max);
      assert bs[1..] == rest && |bs| == |rest| + 1;
      assert |bs| * max == |rest| * max + max;
      if rest != [] {
        assert (|bs| - 1) * max == (|rest| - 1) * max + max;
      }
      forall k | 0 <= k < |bs| - 1 ensures bs[k].end - bs[k].start == max {
        if k > 0 {
          assert bs[k] == rest[k - 1];
        }
      }
    }
  }

  /** Every frame of the range is in exactly one batch, and no other frame is in any. */
  lemma {:induction false} InOneBatch(bs: seq<Span>, start: nat, end: nat, f: nat)
    requires Chained(bs, start, end)
    ensures start <= f < end <==> exists k :: 0 <= k < |bs| && Holds(bs[k], f)
    ensures forall i, j | 0 <= i < j < |bs| :: !(Holds(bs[i], f) && Holds(bs[j], f))
    ensures forall k | 0 <= k < |bs| :: start <= bs[k].start < bs[k].end <= end
    ensures forall i, j | 0 <= i < j < |bs| :: bs[i].end <= bs[j].start
  {
    if bs != [] {
      var rest := bs[1..];
      InOneBatch(rest, bs[0].end, end, f);
      forall k | 0 < k < |bs| ensures bs[k] == rest[k - 1] {}
      if start <= f < end {
        if f < bs[0].end {
          assert Holds(bs[0], f);
        } else {
          var k :| 0 <= k < |rest| && Holds(rest[k], f);
          assert Holds(bs[k + 1], f);
        }
      }
    }
  }

  lemma {:induction false} ChainedConcat(a: seq<Span>, b: seq<Span>, start: nat, mid: nat, end: nat)
    requires start <= mid <= end && Chained(a, start, mid) && Chained(b, mid, end)
    ensures Chained(a + b, start, end)
  {
    if a == [] {
      assert a + b == b;
    } else {
      assert (a + b)[1..] == a[1..] + b;
      InOneBatch(a[1..], a[0].end, mid, 0);
      if a[1..] == [] {
        assert a[0].end == mid;
      }
      ChainedConcat(a[1..], b, a[0].end, mid, end);
    }
  }

  // ----- Several flushes, one after the other -----

  /** A flush of the frames up to `end - 1`, in batches of at most `max`. */
  datatype Job = Job(end: nat, max: nat)

  ghost predicate Jobs(jobs: seq<Job>, start: nat) {
    jobs == [] || (jobs[0].max > 0 && start <= jobs[0].end && Jobs(jobs[1..], jobs[0].end))
  }

  function AllBatches(jobs: seq<Job>, start: nat): seq<Span>
    requires Jobs(jobs, start)
  {
    if jobs == [] then []
    else Batches(start, jobs[0].end, jobs[0].max) + AllBatches(jobs[1..], jobs[0].end)
  }

  function End(jobs: seq<Job>, start: nat): nat {
    if jobs == [] then start else jobs[|jobs| - 1].end
  }

  lemma {:induction false} JobsChain(jobs: seq<Job>, start: nat)
    requires Jobs(jobs, start)
    ensures start <= End(jobs, start) && Chained(AllBatches(jobs, start), start, End(jobs, start))
  {
    if jobs != [] {
      var mid := jobs[0].end;
      JobsChain(jobs[1..], mid);
      BatchesPartition(start, mid, jobs[0].max);
      assert End(jobs, start) == End(jobs[1..], mid);
      ChainedConcat(Batches(start, mid, jobs[0].max), AllBatches(jobs[1..], mid), start, mid, End(jobs, start));
    }
  }

  // ----- Uploads in any order -----

  /** The batches as they are reported, in the given order. */
  ghost predicate Reported(bs: seq<Span>, order: seq<nat>, rs: seq<CP.Range>) {
    && |order| == |bs| == |rs|
    && (forall k | 0 <= k < |order| ::
          order[k] < |bs| && rs[k].start == bs[order[k]].start && rs[k].end + 1 == bs[order[k]].end)
    && (forall i, j | 0 <= i < j < |order| :: order[i] != order[j])
    && (forall j | 0 <= j < |bs| :: j in order)
  }

  ghost predicate Consecutive(bs: seq<Span>, start: nat, end: nat) {
    && (forall k | 0 <= k < |bs| :: start <= bs[k].start < bs[k].end <= end)
    && (forall i, j | 0 <= i < j < |bs| :: bs[i].end <= bs[j].start)
  }

  lemma ReportedApart(bs: seq<Span>, order: seq<nat>, rs: seq<CP.Range>, end: nat)
    requires Reported(bs, order, rs) && Consecutive(bs, 1, end)
    ensures CP.Apart(rs)
  {
    forall k | 0 <= k < |rs| ensures CP.Disjoint(rs[..k], rs[k]) {
      forall f: nat | CP.In(f, rs[k]) ensures !CP.Covered(rs[..k], f) {
        forall m | 0 <= m < k ensures !CP.In(f, rs[..k][m]) {
          assert order[m] != order[k];
          assert order[m] < order[k] ==> bs[order[m]].end <= bs[order[k]].start;
          assert order[k] < order[m] ==> bs[order[k]].end <= bs[order[m]].start;
        }
      }
    }
  }

  lemma ReportedCovers(bs: seq<Span>, order: seq<nat>, rs: seq<CP.Range>, f: nat)
    requires Reported(bs, order, rs)
    ensures CP.Covered(rs, f) <==> exists k :: 0 <= k < |bs| && Holds(bs[k], f)
  {
    if CP.Covered(rs, f) {
      var k :| 0 <= k < |rs| && CP.In(f, rs[k]);
      assert Holds(bs[order[k]], f);
    }
    if j :| 0 <= j < |bs| && Holds(bs[j], f) {
      assert j in order;
      var k :| 0 <= k < |order| && order[k] == j;
      assert CP.In(f, rs[k]);
    }
  }

  /** When all batches of all flushes have been uploaded, in whatever order they finished, the
      frame published is the last one flushed. */
  lemma UploadsReachTheEnd(jobs: seq<Job>, order: seq<nat>, rs: seq<CP.Range>)
    requires Jobs(jobs, 1) && Reported(AllBatches(jobs, 1), order, rs)
    ensures var p := CP.Reported(rs); p.baseline + 1 == End(jobs, 1) && p.detached == map[]
  {
    var bs, end := AllBatches(jobs, 1), End(jobs, 1);
    JobsChain(jobs, 1);
    InOneBatch(bs, 1, end, 0);
    ReportedApart(bs, order, rs, end);
    forall f: nat | f > 0 ensures CP.Covered(rs, f) <==> f <= end - 1 {
      InOneBatch(bs, 1, end, f);
      ReportedCovers(bs, order, rs, f);
    }
    CP.ApartFit(rs);
    CP.EverythingUploaded(rs, end - 1);
  }
}
