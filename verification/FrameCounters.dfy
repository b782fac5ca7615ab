/** The two counters between the database and the flusher: the number of the next frame to be
submitted, and the last frame handed to the copier. Frames are submitted again after a rollback
and in every new generation. */
module FrameCounters {

  datatype Counters = Counters(next: nat, last: nat)

  datatype Event =
    | Submit(n: nat)
    | Register(frame: nat)   // the last valid frame, as the log reports it
    | Rollback(frame: nat)
    | NewGeneration
    | Flush(reached: nat)    // how far the copier says it got

  function Reset(c: Counters, frame: nat): Counters {
    Counters(frame + 1, if c.last < frame then c.last else frame)
  }

  function Update(c: Counters, e: Event): Counters {
    match e
    case Submit(n) => c.(next := c.next + n)
    case Register(f) => if c.next > 0 && f == c.next - 1 then c else Reset(c, f)
    case Rollback(f) => Reset(c, f)
    case NewGeneration => Reset(c, 0)
    case Flush(_) => if c.next > 0 then c.(last := c.next - 1) else c
  }

  // ----- The counters as the replicator keeps them -----

  class Replicator {
    var nextFrameNo: nat
    var lastSentFrameNo: nat
    const maxFramesPerBatch: nat

    constructor (maxFramesPerBatch: nat)
      ensures Valid() && View() == Counters(1, 0)
    {
      nextFrameNo, lastSentFrameNo := 1, 0;
      this.maxFramesPerBatch := maxFramesPerBatch;
    }

    ghost predicate Valid()
      reads this
    {
      lastSentFrameNo < nextFrameNo
    }

    ghost function View(): Counters
      reads this
    {
      Counters(nextFrameNo, lastSentFrameNo)
    }

    method PendingFrames() returns (n: nat)
      requires Valid()
      ensures lastSentFrameNo + n == nextFrameNo - 1
    {
      n := nextFrameNo - lastSentFrameNo - 1;
    }

    method ResetFrames(frame: nat)
      requires Valid()
      modifies this
      ensures Valid() && View() == Reset(old(View()), frame)
    {
      var lastSent := lastSentFrameNo;
      nextFrameNo := frame + 1;
      lastSentFrameNo := if lastSent < frame then lastSent else frame;
    }

    method RegisterLastValidFrame(frame: nat)
      requires Valid()
      modifies this
      ensures Valid() && View() == Update(old(View()), Register(frame))
    {
      if frame != nextFrameNo - 1 {
        ResetFrames(frame);
      }
    }

    method RollbackToFrame(frame: nat)
      requires Valid()
      modifies this
      ensures Valid() && View() == Update(old(View()), Rollback(frame))
    {
      ResetFrames(frame);
    }

    method SetGeneration()
      requires Valid()
      modifies this
      ensures Valid() && View() == Update(old(View()), NewGeneration)
    {
      ResetFrames(0);
    }

    /** A flush is requested exactly when a batch is full. */
    method SubmitFrames(n: nat) returns (requested: bool)
      requires Valid()
      modifies this
      ensures Valid() && View() == Update(old(View()), Submit(n))
      ensures requested <==> nextFrameNo - 1 - lastSentFrameNo >= maxFramesPerBatch
    {
      var prev := nextFrameNo;
      nextFrameNo := nextFrameNo + n;
      var mostRecent := prev + n - 1;
      requested := mostRecent - lastSentFrameNo >= maxFramesPerBatch;
    }

    /** The flusher's load and swap: the range of frames now due. */
    method TakePending() returns (start: nat, end: nat)
      requires Valid()
      modifies this
      ensures Valid() && View() == Counters(old(nextFrameNo), old(nextFrameNo) - 1)
      ensures start == old(lastSentFrameNo) + 1 && end == old(nextFrameNo)
    {
      end := nextFrameNo;
      start := lastSentFrameNo + 1;
      lastSentFrameNo := end - 1;
    }
  }

  // ----- What has been handed over -----

  /** A frame as it was at one submission of its number. */
  datatype Version = Version(frame: nat, stamp: nat)

  /** The counters together with their history: the stamp of every current frame, the versions
      handed to the copier, and the frame number last confirmed. */
  datatype History = History(c: Counters, stamps: seq<nat>, clock: nat, sent: seq<Version>, committed: nat)

  function Start(): History { History(Counters(1, 0), [], 0, [], 0) }

  function Stamps(n: nat, stamp: nat): seq<nat> { seq(n, _ => stamp) }

  /** The stamps after the log has been cut or extended to `frame` frames. */
  function Restamp(h: History, frame: nat): seq<nat> {
    if frame <= |h.stamps| then h.stamps[..frame] else h.stamps + Stamps(frame - |h.stamps|, h.clock)
  }

  function Versions(stamps: seq<nat>, lo: nat, hi: nat): seq<Version>
    requires lo <= hi <= |stamps|
  {
    seq(hi - lo, k requires 0 <= k < hi - lo => Version(lo + k + 1, stamps[lo + k]))
  }

  function Length(c: Counters): nat { if c.next == 0 then 0 else c.next - 1 }

  function Step(h: History, e: Event): History {
    var c := Update(h.c, e);
    match e
    case Flush(reached) =>
      if h.c.last < Length(h.c) <= |h.stamps| then
        h.(c := c, sent := h.sent + Versions(h.stamps, h.c.last, Length(h.c)), committed := reached)
      else h.(c := c)
    case _ => h.(c := c, stamps := Restamp(h, Length(c)), clock := h.clock + 1)
  }

  ghost predicate Current(h: History, f: nat) {
    1 <= f <= |h.stamps|
  }

  function VersionOf(h: History, f: nat): Version
    requires Current(h, f)
  {
    Version(f, h.stamps[f - 1])
  }

  ghost predicate Inv(h: History) {
    && h.c.last < h.c.next && |h.stamps| == h.c.next - 1
    && (forall k | 0 <= k < |h.stamps| :: h.stamps[k] < h.clock)
    && (forall k | 0 <= k < |h.sent| :: h.sent[k].stamp < h.clock)
    && (forall i, j | 0 <= i < j < |h.sent| :: h.sent[i] != h.sent[j])
    && (forall f: nat | Current(h, f) :: VersionOf(h, f) in h.sent <==> f <= h.c.last)
  }

  lemma ResetKeeps(h: History, e: Event)
    requires Inv(h) && !e.Flush?
    ensures Inv(Step(h, e))
  {
    var g := Step(h, e);
    forall f: nat | Current(g, f) ensures VersionOf(g, f) in g.sent <==> f <= g.c.last {
      if f <= |h.stamps| {
        assert Current(h, f) && VersionOf(g, f) == VersionOf(h, f);
      } else {
        assert g.stamps[f - 1] == h.clock;
      }
    }
  }

  lemma FlushKeeps(h: History, reached: nat)
    requires Inv(h)
    ensures Inv(Step(h, Flush(reached)))
  {
    var g := Step(h, Flush(reached));
    if h.c.last < |h.stamps| {
      var more := Versions(h.stamps, h.c.last, |h.stamps|);
      assert forall k | 0 <= k < |more| :: more[k] == VersionOf(h, h.c.last + k + 1);
      forall f: nat | Current(g, f) ensures VersionOf(g, f) in g.sent {
        assert VersionOf(g, f) == VersionOf(h, f);
        if f > h.c.last {
          assert more[f - h.c.last - 1] == VersionOf(h, f);
        }
      }
      forall i, j | 0 <= i < j < |g.sent| ensures g.sent[i] != g.sent[j] {
        if i < |h.sent| <= j {
          assert g.sent[j] == more[j - |h.sent|];
          assert h.sent[i] in h.sent;
          assert Current(h, h.c.last + (j - |h.sent|) + 1);
        }
      }
    }
  }

  function Run(h: History, events: seq<Event>): History {
    if events == [] then h else Step(Run(h, events[..|events| - 1]), events[|events| - 1])
  }

  /** After any run: the pending count is not negative, every frame at or below the last one sent
      has been handed over since its latest submission, no later frame has, and no version is
      ever handed over twice. */
  lemma {:induction false} HandedOverOnce(events: seq<Event>)
    ensures Inv(Run(Start(), events))
  {
    if events != [] {
      var before, e := events[..|events| - 1], events[|events| - 1];
      HandedOverOnce(before);
      if e.Flush? {
        FlushKeeps(Run(Start(), before), e.reached);
      } else {
        ResetKeeps(Run(Start(), before), e);
      }
    }
  }

  /** How long the log is after a run, and how much of it has been handed over: a flush hands over
      all of it, and what is cut off is no longer counted. */
  function LogLength(events: seq<Event>): nat {
    if events == [] then 0
    else
      var before, e := LogLength(events[..|events| - 1]), events[|events| - 1];
      match e
      case Submit(n) => before + n
      case Register(f) => f
      case Rollback(f) => f
      case NewGeneration => 0
      case Flush(_) => before
  }

  function SentLength(events: seq<Event>): nat {
    if events == [] then 0
    else
      var e, sent := events[|events| - 1], SentLength(events[..|events| - 1]);
      if e.Flush? || LogLength(events) < sent then LogLength(events) else sent
  }

  /** The counters are these two lengths, after any run. */
  lemma {:induction false} CountersAreLengths(events: seq<Event>)
    ensures Run(Start(), events).c == Counters(LogLength(events) + 1, SentLength(events))
    ensures SentLength(events) <= LogLength(events)
  {
    if events != [] {
      CountersAreLengths(events[..|events| - 1]);
    }
  }

  // ----- The confirmed frame -----

  /** A flush with frames to hand over. */
  predicate Effective(h: History, e: Event) {
    e.Flush? && h.c.last < Length(h.c) <= |h.stamps|
  }

  /** The copier confirms one of the frames it was given. */
  ghost predicate Confirms(h: History, e: Event) {
    Effective(h, e) ==> h.c.last < e.reached < h.c.next
  }

  ghost predicate AllConfirm(events: seq<Event>) {
    forall k | 0 <= k < |events| :: Confirms(Run(Start(), events[..k]), events[k])
  }

  /** Which events cut the log below a frame. */
  predicate CutsBelow(c: Counters, e: Event, frame: nat) {
    match e
    case Register(f) => f != c.next - 1 && f < frame
    case Rollback(f) => f < frame
    case NewGeneration => 0 < frame
    case _ => false
  }

  /** Since the last effective flush the log has been cut below the frame that flush confirmed. */
  predicate CutSince(events: seq<Event>) {
    if events == [] then false
    else
      var before, e := events[..|events| - 1], events[|events| - 1];
      var h := Run(Start(), before);
      !Effective(h, e) && (CutSince(before) || CutsBelow(h.c, e, h.committed))
  }

  lemma CutStep(h: History, e: Event)
    requires Inv(h) && Confirms(h, e)
    ensures Step(h, e).committed <= Step(h, e).c.last <==>
            Effective(h, e) || (h.committed <= h.c.last && !CutsBelow(h.c, e, h.committed))
  {
  }

  /** Over any run the confirmed frame is at or below the last one sent if and only if the log has
      not been cut below it since it was confirmed: the documented order of the two is lost with
      such a cut, and comes back with the next frames handed over. */
  lemma {:induction false} CommittedBelowSent(events: seq<Event>)
    requires AllConfirm(events)
    ensures var h := Run(Start(), events); h.committed <= h.c.last <==> !CutSince(events)
  {
    if events != [] {
      var n := |events| - 1;
      var before, e := events[..n], events[n];
      forall k | 0 <= k < n ensures Confirms(Run(Start(), before[..k]), before[k]) {
        assert before[..k] == events[..k] && before[k] == events[k];
      }
      assert Confirms(Run(Start(), before), e);
      CommittedBelowSent(before);
      HandedOverOnce(before);
      hide Inv;
      CutStep(Run(Start(), before), e);
    }
  }

  lemma StepShape(h: History, e: Event)
    ensures var g := Step(h, e);
      && g.c == Update(h.c, e)
      && |g.stamps| == (if e.Flush? then |h.stamps| else Length(g.c))
      && g.committed == (if Effective(h, e) then e.reached else h.committed)
  {
  }

  lemma RunOne(h: History, events: seq<Event>, e: Event)
    ensures Run(h, events + [e]) == Step(Run(h, events), e)
  {
    assert (events + [e])[..|events|] == events;
  }

  lemma RunThree(h: History, a: Event, b: Event, c: Event)
    ensures Run(h, [a, b, c]) == Step(Step(Step(h, a), b), c)
  {
    hide Step;
    assert Run(h, []) == h;
    RunOne(h, [], a);
    RunOne(h, [a], b);
    RunOne(h, [a, b], c);
    assert [] + [a] == [a] && [a] + [b] == [a, b] && [a, b] + [c] == [a, b, c];
  }

  lemma RunFive(h: History, a: Event, b: Event, c: Event, d: Event, e: Event)
    ensures Run(h, [a, b, c, d, e]) == Step(Step(Step(Step(Step(h, a), b), c), d), e)
  {
    hide Step;
    RunThree(h, a, b, c);
    RunOne(h, [a, b, c], d);
    RunOne(h, [a, b, c, d], e);
    assert [a, b, c] + [d] == [a, b, c, d] && [a, b, c, d] + [e] == [a, b, c, d, e];
  }

  /** Rolling back to frame 1 after frames 1 to 3 were confirmed, and flushing again. */
  lemma CommittedAboveSent()
    ensures var h := Run(Start(), [Submit(3), Flush(3), Rollback(1)]);
      h.committed == 3 && h.c.last == 1
    ensures var h := Run(Start(), [Submit(3), Flush(3), Rollback(1), Submit(4), Flush(5)]);
      h.committed == 5 && h.c.last == 5
  {
    RunThree(Start(), Submit(3), Flush(3), Rollback(1));
    RunFive(Start(), Submit(3), Flush(3), Rollback(1), Submit(4), Flush(5));
    hide Run;
    hide Step;
    var h1 := Step(Start(), Submit(3));
    StepShape(Start(), Submit(3));
    var h2 := Step(h1, Flush(3));
    StepShape(h1, Flush(3));
    var h3 := Step(h2, Rollback(1));
    StepShape(h2, Rollback(1));
    var h4 := Step(h3, Submit(4));
    StepShape(h3, Submit(4));
    StepShape(h4, Flush(5));
  }
}
