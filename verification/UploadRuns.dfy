/** The counters, the copier and the progress of the uploads together: when the frame published can be
trusted to reach the last frame sent. */
module UploadRuns {
  import opened FrameCounters
  import W = WalCopier
  import CP = CompletionProgress

  /** The flushes of a run, in batches of at most `max` frames. */
  function Handed(events: seq<Event>, max: nat): seq<W.Job> {
    if events == [] then []
    else
      var before, e := events[..|events| - 1], events[|events| - 1];
      var h := Run(Start(), before);
      Handed(before, max) + if Effective(h, e) then [W.Job(h.c.next, max)] else []
  }

  /** No event cuts the log below the last frame sent. */
  ghost predicate NeverCut(events: seq<Event>) {
    forall k | 0 <= k < |events| ::
      !CutsBelow(Run(Start(), events[..k]).c, events[k], Run(Start(), events[..k]).c.last)
  }

  lemma {:induction false} JobsSnoc(jobs: seq<W.Job>, start: nat, j: W.Job)
    requires W.Jobs(jobs, start) && W.End(jobs, start) <= j.end && j.max > 0
    ensures W.Jobs(jobs + [j], start) && W.End(jobs + [j], start) == j.end
  {
    if jobs == [] {
      assert [j][1..] == [];
    } else {
      assert (jobs + [j])[1..] == jobs[1..] + [j];
      assert W.End(jobs[1..], jobs[0].end) == W.End(jobs, start);
      JobsSnoc(jobs[1..], jobs[0].end, j);
    }
  }

  /** What a step does to the last frame sent. */
  lemma LastAfter(h: History, e: Event)
    requires Inv(h)
    ensures Effective(h, e) ==> Step(h, e).c.last + 1 == h.c.next
    ensures !Effective(h, e) ==> Step(h, e).c.last <= h.c.last
    ensures !Effective(h, e) ==> (Step(h, e).c.last < h.c.last <==> CutsBelow(h.c, e, h.c.last))
  {
  }

  lemma NeverCutBefore(events: seq<Event>)
    requires NeverCut(events) && events != []
    ensures var before := events[..|events| - 1];
      NeverCut(before) && !CutsBelow(Run(Start(), before).c, events[|events| - 1], Run(Start(), before).c.last)
  {
    hide Run;
    var before := events[..|events| - 1];
    forall k | 0 <= k < |before| ensures before[..k] == events[..k] && before[k] == events[k] {}
  }

  /** Without such a cut the flushes follow one another from frame 1 to the last frame sent. */
  lemma {:induction false} HandedInSequence(events: seq<Event>, max: nat)
    requires NeverCut(events) && max > 0
    ensures W.Jobs(Handed(events, max), 1) && W.End(Handed(events, max), 1) == Run(Start(), events).c.last + 1
  {
    if events != [] {
      var before, e := events[..|events| - 1], events[|events| - 1];
      NeverCutBefore(events);
      HandedInSequence(before, max);
      HandedOverOnce(before);
      hide NeverCut;
      hide Inv;
      hide Step;
      hide CutsBelow;
      hide W.Jobs;
      hide W.End;
      HandedNext(Run(Start(), before), e, Handed(before, max), max);
    }
  }

  lemma HandedNext(h: History, e: Event, jobs: seq<W.Job>, max: nat)
    requires Inv(h) && max > 0 && W.Jobs(jobs, 1) && W.End(jobs, 1) == h.c.last + 1
    requires !CutsBelow(h.c, e, h.c.last)
    ensures var more := jobs + if Effective(h, e) then [W.Job(h.c.next, max)] else [];
      W.Jobs(more, 1) && W.End(more, 1) == Step(h, e).c.last + 1
  {
    LastAfter(h, e);
    assert h.c.last < h.c.next;
    hide Inv;
    hide CutsBelow;
    hide Effective;
    hide Step;
    hide W.Jobs;
    hide W.End;
    if Effective(h, e) {
      JobsSnoc(jobs, 1, W.Job(h.c.next, max));
    } else {
      assert jobs + [] == jobs;
    }
  }

  /** In a generation without such a cut, once every batch has been reported, in whatever order, the
      frame published is the last frame sent. */
  lemma PublishedReachesSent(events: seq<Event>, max: nat, order: seq<nat>, rs: seq<CP.Range>)
    requires NeverCut(events) && max > 0
    requires W.Jobs(Handed(events, max), 1) && W.Reported(W.AllBatches(Handed(events, max), 1), order, rs)
    ensures CP.Reported(rs) == CP.Progress(Run(Start(), events).c.last, map[])
  {
    HandedInSequence(events, max);
    W.UploadsReachTheEnd(Handed(events, max), order, rs);
  }

  /** With such a cut the next flush hands over frames again, and a report of theirs does not fit
      once they have been published. */
  lemma RepeatsAfterACut(h: History, e: Event, p: CP.Progress, r: CP.Range)
    requires Inv(h) && CutsBelow(h.c, e, h.c.last) && p.baseline == h.c.last
    requires r.start == Step(h, e).c.last + 1
    ensures r.start <= h.c.last && !CP.Fits(p, r)
  {
    LastAfter(h, e);
  }
}
