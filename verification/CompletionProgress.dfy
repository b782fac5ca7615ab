/** Uploads finish in any order; the frame number published is the end of the unbroken run of
frames uploaded so far. */
module CompletionProgress {
  import opened Collections

  type Ranges = map<nat, nat>

  datatype Progress = Progress(baseline: nat, detached: Ranges)

  /** The least key, which a sorted map gives up first. */
  function First(d: Ranges): (k: nat)
    requires d != map[]
    ensures k in d && forall j | j in d :: k <= j
  {
    var x :| x in d;
    LeastKey(d.Keys, x);
    var k :| k in d && forall j | j in d :: k <= j;
    k
  }

  lemma {:induction false} LeastKey(keys: set<nat>, x: nat)
    requires x in keys
    ensures exists k :: k in keys && forall j | j in keys :: k <= j
    decreases x
  {
    if y :| y in keys && y < x {
      LeastKey(keys, y);
    } else {
      assert forall j | j in keys :: x <= j;
    }
  }

  /** Take over the detached ranges that continue the baseline. */
  function Drain(p: Progress): Progress
    decreases |p.detached|
  {
    if p.detached == map[] || First(p.detached) != p.baseline + 1 then p
    else
      var s := First(p.detached);
      assert |p.detached - {s}| < |p.detached| by { assert (p.detached - {s}).Keys == p.detached.Keys - {s}; }
      Drain(Progress(p.detached[s], p.detached - {s}))
  }

  function Updated(p: Progress, s: nat, e: nat): Progress {
    if s == p.baseline + 1 then Drain(p.(baseline := e)) else p.(detached := Put(p.detached, s, e))
  }

  class Tracker {
    var baseline: nat
    var detached: Ranges
    var published: nat

    constructor (baseline: nat)
      ensures View() == Progress(baseline, map[]) && published == baseline
    {
      this.baseline, detached, published := baseline, map[], baseline;
    }

    ghost function View(): Progress
      reads this
    {
      Progress(baseline, detached)
    }

    method Update(start: nat, end: nat)
      modifies this
      ensures View() == Updated(old(View()), start, end)
      ensures published == if start == old(baseline) + 1 then baseline else old(published)
    {
      if start == baseline + 1 {
        var e := end;
        ghost var goal := Drain(Progress(end, detached));
        while true
          invariant Drain(Progress(e, detached)) == goal
          decreases |detached|
        {
          baseline := e;
          if detached == map[] {
            break;
          }
          var s := First(detached);
          e := detached[s];
          ghost var before := detached;
          detached := detached - {s};
          assert detached.Keys == before.Keys - {s};
          if s != baseline + 1 {
            detached := Put(detached, s, e);
            assert detached == before;
            break;
          }
        }
        published := baseline;
      } else {
        detached := Put(detached, start, end);
      }
    }

    method Reset()
      modifies this
      ensures View() == Progress(0, map[]) && published == 0
    {
      baseline, detached, published := 0, map[], 0;
    }
  }

  // ----- The published frame -----

  datatype Range = Range(start: nat, end: nat)  // both frames included

  ghost predicate In(f: nat, r: Range) { r.start <= f <= r.end }

  ghost predicate Covered(rs: seq<Range>, f: nat) {
    exists k :: 0 <= k < |rs| && In(f, rs[k])
  }

  ghost predicate Detached(d: Ranges, f: nat) {
    exists s :: s in d && s <= f <= d[s]
  }

  /** The uploaded frames are those up to the baseline and those of the detached ranges, which
      are not empty, begin at `lowest` or later, and do not overlap. */
  ghost predicate Tracks(rs: seq<Range>, p: Progress, lowest: nat) {
    && (forall f: nat | 1 <= f <= p.baseline :: Covered(rs, f))
    && (forall f: nat | f > p.baseline :: Covered(rs, f) <==> Detached(p.detached, f))
    && (forall s | s in p.detached :: lowest <= s <= p.detached[s])
    && (forall s, t | s in p.detached && t in p.detached && s < t :: p.detached[s] < t)
  }

  lemma DropDetached(d: Ranges, s: nat, f: nat)
    requires s in d && d[s] < f
    ensures Detached(d, f) <==> Detached(d - {s}, f)
  {
    if Detached(d, f) {
      var t :| t in d && t <= f <= d[t];
      assert t in d - {s};
    }
    if Detached(d - {s}, f) {
      var t :| t in d - {s} && t <= f <= (d - {s})[t];
      assert t in d;
    }
  }

  lemma DrainOne(rs: seq<Range>, p: Progress)
    requires Tracks(rs, p, p.baseline + 1) && p.detached != map[] && First(p.detached) == p.baseline + 1
    ensures var s := First(p.detached);
      var q := Progress(p.detached[s], p.detached - {s});
      Tracks(rs, q, q.baseline + 1)
  {
    hide Covered;
    var s := First(p.detached);
    var e := p.detached[s];
    forall f: nat | 1 <= f <= e ensures Covered(rs, f) {
      assert f > p.baseline ==> Detached(p.detached, f);
    }
    forall f: nat | f > e ensures Covered(rs, f) <==> Detached(p.detached - {s}, f) {
      DropDetached(p.detached, s, f);
    }
  }

  lemma {:induction false} DrainTracks(rs: seq<Range>, p: Progress)
    requires Tracks(rs, p, p.baseline + 1)
    ensures Tracks(rs, Drain(p), Drain(p).baseline + 2)
    decreases |p.detached|
  {
    if p.detached != map[] && First(p.detached) == p.baseline + 1 {
      DrainOne(rs, p);
      var s := First(p.detached);
      assert (p.detached - {s}).Keys == p.detached.Keys - {s};
      DrainTracks(rs, Progress(p.detached[s], p.detached - {s}));
    }
  }

  ghost predicate Disjoint(rs: seq<Range>, r: Range) {
    forall f: nat | In(f, r) :: !Covered(rs, f)
  }

  lemma CoveredSnoc(rs: seq<Range>, r: Range, f: nat)
    ensures Covered(rs + [r], f) <==> Covered(rs, f) || In(f, r)
  {
    if Covered(rs, f) {
      var k :| 0 <= k < |rs| && In(f, rs[k]);
      assert In(f, (rs + [r])[k]);
    }
    assert (rs + [r])[|rs|] == r;
  }

  /** What a report may be: it starts above the baseline, replaces a detached range only by a
      longer one, and overlaps no other. */
  ghost predicate Fits(p: Progress, r: Range) {
    && r.start > p.baseline
    && forall s | s in p.detached ::
         if s == r.start then p.detached[s] <= r.end else p.detached[s] < r.start || r.end < s
  }

  lemma DisjointFits(rs: seq<Range>, p: Progress, r: Range)
    requires Tracks(rs, p, p.baseline + 2) && 1 <= r.start <= r.end && Disjoint(rs, r)
    ensures Fits(p, r)
  {
    assert In(r.start, r);
    forall s | s in p.detached ensures p.detached[s] < r.start || r.end < s {
      var f := if s < r.start then r.start else s;
      assert f <= r.end ==> In(f, r);
      assert f <= p.detached[s] ==> Detached(p.detached, f);
    }
  }

  lemma UpdateTracks(rs: seq<Range>, p: Progress, r: Range)
    requires Tracks(rs, p, p.baseline + 2) && 1 <= r.start <= r.end && Fits(p, r)
    ensures var q := Updated(p, r.start, r.end);
      Tracks(rs + [r], q, q.baseline + 2)
  {
    forall f: nat ensures Covered(rs + [r], f) <==> Covered(rs, f) || In(f, r) {
      CoveredSnoc(rs, r, f);
    }
    if r.start == p.baseline + 1 {
      var q := p.(baseline := r.end);
      assert Tracks(rs + [r], q, q.baseline + 1);
      DrainTracks(rs + [r], q);
    } else {
      var d := Put(p.detached, r.start, r.end);
      forall f: nat ensures Detached(d, f) <==> Detached(p.detached, f) || In(f, r) {
        PutDetaches(p.detached, r, f);
      }
    }
  }

  lemma PutDetaches(d: Ranges, r: Range, f: nat)
    requires r.start in d ==> d[r.start] <= r.end
    ensures Detached(Put(d, r.start, r.end), f) <==> Detached(d, f) || In(f, r)
  {
    var d' := Put(d, r.start, r.end);
    if Detached(d, f) {
      var s :| s in d && s <= f <= d[s];
      assert s in d' && s <= f <= d'[s];
    }
    if In(f, r) {
      assert r.start in d' && d'[r.start] == r.end;
    }
  }

  /** A detached range that a shorter report replaces is forgotten. */
  lemma ReplacedIsForgotten(rs: seq<Range>, p: Progress, r: Range)
    requires Tracks(rs, p, p.baseline + 2) && r.start in p.detached && r.end < p.detached[r.start]
    ensures !Tracks(rs + [r], p.(detached := Put(p.detached, r.start, r.end)), p.baseline + 2)
  {
    var d, f := Put(p.detached, r.start, r.end), p.detached[r.start];
    assert Detached(p.detached, f);
    CoveredSnoc(rs, r, f);
    forall t | t in d ensures !(t <= f <= d[t]) {
      assert t != r.start ==> t in p.detached && d[t] == p.detached[t];
    }
  }

  /** A detached range at or below the baseline stops the draining. */
  lemma StaleStops(p: Progress, s: nat)
    requires s in p.detached && s <= p.baseline
    ensures Drain(p) == p
  {
  }

  /** The exact condition: after a report the uploaded frames are still the ones up to the baseline
      and those detached, with the next frame missing, if and only if the report fits. */
  lemma TracksExactly(rs: seq<Range>, p: Progress, r: Range)
    requires Tracks(rs, p, p.baseline + 2) && 1 <= r.start <= r.end
    ensures
      var q := Updated(p, r.start, r.end);
      Tracks(rs + [r], q, q.baseline + 2) <==> Fits(p, r)
  {
    var q := Updated(p, r.start, r.end);
    if Fits(p, r) {
      UpdateTracks(rs, p, r);
    } else if r.start <= p.baseline {
      assert r.start in q.detached;
    } else {
      var s :| s in p.detached &&
        !(if s == r.start then p.detached[s] <= r.end else p.detached[s] < r.start || r.end < s);
      if r.start == p.baseline + 1 {
        StaleStops(p.(baseline := r.end), s);
        assert s in q.detached && s <= q.baseline;
      } else if s == r.start {
        ReplacedIsForgotten(rs, p, r);
      } else {
        assert s in q.detached && r.start in q.detached;
      }
    }
  }

  function UpdateAll(p: Progress, rs: seq<Range>): Progress {
    if rs == [] then p
    else
      var r := rs[|rs| - 1];
      Updated(UpdateAll(p, rs[..|rs| - 1]), r.start, r.end)
  }

  function Reported(rs: seq<Range>): Progress { UpdateAll(Progress(0, map[]), rs) }

  ghost predicate Tracked(rs: seq<Range>) {
    Tracks(rs, Reported(rs), Reported(rs).baseline + 2)
  }

  ghost predicate Frames(rs: seq<Range>) {
    forall k | 0 <= k < |rs| :: 1 <= rs[k].start <= rs[k].end
  }

  /** Every report fits the state it meets. */
  ghost predicate AllFit(rs: seq<Range>) {
    forall k | 0 <= k < |rs| :: Fits(Reported(rs[..k]), rs[k])
  }

  ghost predicate AlwaysTracked(rs: seq<Range>) {
    forall k: nat | k <= |rs| :: Tracked(rs[..k])
  }

  lemma FitSnoc(rs: seq<Range>, r: Range)
    ensures AllFit(rs + [r]) <==> AllFit(rs) && Fits(Reported(rs), r)
  {
    hide Reported;
    hide Fits;
    var all := rs + [r];
    assert forall k: nat | k < |rs| :: all[..k] == rs[..k] && all[k] == rs[k];
    assert all[..|rs|] == rs && all[|rs|] == r;
  }

  lemma TrackedSnoc(rs: seq<Range>, r: Range)
    ensures AlwaysTracked(rs + [r]) <==> AlwaysTracked(rs) && Tracked(rs + [r])
  {
    hide Tracked;
    var all := rs + [r];
    assert forall k: nat | k <= |rs| :: all[..k] == rs[..k];
    assert all[..|all|] == all;
  }

  lemma ReportedSnoc(rs: seq<Range>, r: Range)
    ensures Reported(rs + [r]) == Updated(Reported(rs), r.start, r.end)
  {
    assert (rs + [r])[..|rs|] == rs;
  }

  /** Over a sequence of reports since the last reset: the state is right all the way if and only
      if every report fits. */
  lemma {:induction false} TrackedExactly(rs: seq<Range>)
    requires Frames(rs)
    ensures AlwaysTracked(rs) <==> AllFit(rs)
    ensures AllFit(rs) ==> Tracked(rs)
  {
    if rs == [] {
      assert Tracks([], Progress(0, map[]), 2);
      assert forall k: nat | k <= |rs| :: rs[..k] == [];
    } else {
      var before, r := rs[..|rs| - 1], rs[|rs| - 1];
      assert before + [r] == rs;
      TrackedExactly(before);
      FitSnoc(before, r);
      TrackedSnoc(before, r);
      ReportedSnoc(before, r);
      hide Reported;
      hide AlwaysTracked;
      hide AllFit;
      hide Tracks;
      hide Fits;
      if AllFit(before) {
        TracksExactly(before, Reported(before), r);
      }
    }
  }

  ghost predicate Apart(rs: seq<Range>) {
    Frames(rs) && forall k | 0 <= k < |rs| :: Disjoint(rs[..k], rs[k])
  }

  /** Ranges that do not overlap fit, in any order. */
  lemma {:induction false} ApartFit(rs: seq<Range>)
    requires Apart(rs)
    ensures AllFit(rs) && Tracked(rs)
  {
    if rs == [] {
      assert Tracks([], Progress(0, map[]), 2);
    } else {
      var n := |rs| - 1;
      var before, r := rs[..n], rs[n];
      forall k: nat | k < n ensures before[..k] == rs[..k] && before[k] == rs[k] {}
      ApartFit(before);
      DisjointFits(before, Reported(before), r);
      UpdateTracks(before, Reported(before), r);
      assert before + [r] == rs;
      FitSnoc(before, r);
      ReportedSnoc(before, r);
    }
  }

  /** All of 1..n is uploaded, and n + 1 is not. */
  ghost predicate Frontier(rs: seq<Range>, n: nat) {
    (forall f: nat | 1 <= f <= n :: Covered(rs, f)) && !Covered(rs, n + 1)
  }

  /** When every report fits, the baseline is the largest n with all of 1..n uploaded. */
  lemma BaselineIsFrontier(rs: seq<Range>)
    requires Frames(rs) && AllFit(rs)
    ensures Frontier(rs, Reported(rs).baseline)
  {
    TrackedExactly(rs);
  }

  /** Once the ranges make up 1..last, however they were ordered, the baseline is the last frame
      and nothing is left detached. */
  lemma EverythingUploaded(rs: seq<Range>, last: nat)
    requires Frames(rs) && AllFit(rs) && forall f: nat | f > 0 :: Covered(rs, f) <==> f <= last
    ensures Reported(rs) == Progress(last, map[])
  {
    TrackedExactly(rs);
    var p := Reported(rs);
    assert !Covered(rs, p.baseline + 1) by {
      BaselineIsFrontier(rs);
    }
    assert p.baseline > 0 ==> Covered(rs, p.baseline);
    forall s | s in p.detached ensures false {
      assert Detached(p.detached, s);
    }
    assert p.detached == map[];
  }

  // ----- Ranges reported twice -----

  /** A detached range at or below the baseline is never taken over, and keeps every other one
      from being: from then on each report moves the baseline to its own end at most. */
  lemma StaleRangeBlocks(p: Progress, t: nat, s: nat, e: nat)
    requires t in p.detached && t <= p.baseline && s <= e
    ensures var q := Updated(p, s, e);
      q.baseline == (if s == p.baseline + 1 then e else p.baseline) && t in q.detached && t <= q.baseline
  {
  }

  /** Frames 3 to 6 reported over frames 1 to 4 already there: frame 8 completes 1..9, but the
      baseline stays at 8. */
  lemma OverlapSticks()
    ensures
      var p := Updated(Updated(Updated(Progress(0, map[]), 1, 4), 3, 6), 5, 7);
      Updated(Updated(p, 9, 9), 8, 8).baseline == 8
  {
    var p1 := Updated(Progress(0, map[]), 1, 4);
    assert p1 == Progress(4, map[]);
    var p2 := Updated(p1, 3, 6);
    StaleRangeBlocks(p2, 3, 5, 7);
    var p3 := Updated(p2, 5, 7);
    StaleRangeBlocks(p3, 3, 9, 9);
    StaleRangeBlocks(Updated(p3, 9, 9), 3, 8, 8);
  }

  /** Frames 9 to 12 reported, then 9 to 10 in their place: with 1..12 uploaded the baseline ends
      at 10, and nothing is left to move it on. */
  lemma ReplacementForgets()
    ensures
      var rs := [Range(9, 12), Range(9, 10), Range(1, 8)];
      Reported(rs) == Progress(10, map[]) && forall f: nat | 1 <= f <= 12 :: Covered(rs, f)
  {
    var a, b, c := Range(9, 12), Range(9, 10), Range(1, 8);
    var rs := [a, b, c];
    var d: Ranges := map[9 := 10];
    ReportedSnoc([], a);
    ReportedSnoc([a], b);
    ReportedSnoc([a, b], c);
    assert [] + [a] == [a] && [a] + [b] == [a, b] && [a, b] + [c] == rs;
    assert Reported([a, b]) == Progress(0, d);
    assert 9 in d && First(d) == 9 && d - {9} == map[];
    assert Drain(Progress(10, map[])) == Progress(10, map[]);
    assert Drain(Progress(8, d)) == Progress(10, map[]);
    forall f: nat | 1 <= f <= 12 ensures Covered(rs, f) {
      assert rs[0] == a && rs[2] == c;
      assert In(f, a) || In(f, c);
    }
  }
}
