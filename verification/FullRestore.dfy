/** Restoring a database from a chain of generations: back to the nearest snapshot, then the log
of every generation from there on. */
module FullRestore {
  import opened Collections
  import opened WalLog
  import opened LocalReplay
  import opened RestoreWal

  const MAX_RESTORE_STACK_DEPTH := 100

  type Id = nat

  /** A generation in the bucket: its snapshot, whether its metadata was written, the listing of
      its objects, and the generation it continues. */
  datatype Generation = Generation(
    snapshot: Option<Image>, meta: bool, pages: seq<seq<Object>>, dep: Option<Id>)

  type Bucket = map<Id, Generation>

  function Get(bucket: Bucket, g: Id): Generation {
    if g in bucket then bucket[g] else Generation(None, false, [], None)
  }

  /** The log of a generation without metadata is not replayed. */
  function ReplayOf(bucket: Bucket, g: Id, img: Image, limit: Limit): Image {
    if Get(bucket, g).meta then Replay(img, Get(bucket, g).pages, limit) else img
  }

  function Unlimited(limit: Limit): Limit { limit.(frame := None) }

  datatype Result = TooDeep | Restored(db: Image, applied: bool)

  /** What restoring gives, by recursion over the chain; `n` generations newer than `g` are
      already on the stack, and only the newest is subject to the frame limit. */
  function Rebuild(bucket: Bucket, g: Id, n: nat, limit: Limit): Result
    requires n <= MAX_RESTORE_STACK_DEPTH
    decreases MAX_RESTORE_STACK_DEPTH - n
  {
    var gen := Get(bucket, g);
    if gen.snapshot.Some? then Restored(ReplayOf(bucket, g, gen.snapshot.value, limit), gen.meta)
    else if n == MAX_RESTORE_STACK_DEPTH then TooDeep
    else if gen.dep.None? then Restored(ReplayOf(bucket, g, map[], limit), gen.meta)
    else
      var before := Rebuild(bucket, gen.dep.value, n + 1, Unlimited(limit));
      if before.TooDeep? then TooDeep
      else Restored(ReplayOf(bucket, g, before.db, limit), before.applied || gen.meta)
  }

  // ----- The stack -----

  /** Replay the generations of a stack, the last one first. */
  function Unwind(bucket: Bucket, stack: seq<Id>, img: Image, applied: bool, limit: Limit): Result {
    if stack == [] then Restored(img, applied)
    else
      var rest, g := stack[..|stack| - 1], stack[|stack| - 1];
      var img' := ReplayOf(bucket, g, img, if rest == [] then limit else Unlimited(limit));
      Unwind(bucket, rest, img', applied || Get(bucket, g).meta, limit)
  }

  /** The walk to the snapshot and the replay of the stack together compute Rebuild. */
  method Restore(bucket: Bucket, generation: Id, limit: Limit) returns (r: Result)
    ensures r == Rebuild(bucket, generation, 0, limit)
  {
    var db: Image := map[];
    var stack: seq<Id> := [];
    var current := Some(generation);
    while current.Some?
      invariant |stack| <= MAX_RESTORE_STACK_DEPTH + 1
      invariant current.Some? ==> |stack| <= MAX_RESTORE_STACK_DEPTH && db == map[]
      invariant current.Some? ==> Rebuild(bucket, generation, 0, limit) == Finish(bucket, stack, current.value, limit)
      invariant current.None? ==> Rebuild(bucket, generation, 0, limit) == Unwind(bucket, stack, db, false, limit)
      decreases if current.Some? then MAX_RESTORE_STACK_DEPTH + 1 - |stack| else 0
    {
      var curr := current.value;
      FinishStep(bucket, stack, curr, limit);
      stack := stack + [curr];
      current := None;
      if Get(bucket, curr).snapshot.Some? {
        db := Get(bucket, curr).snapshot.value;
        break;
      }
      if |stack| > MAX_RESTORE_STACK_DEPTH {
        return TooDeep;
      }
      current := Get(bucket, curr).dep;
    }
    var applied := false;
    while stack != []
      invariant Rebuild(bucket, generation, 0, limit) == Unwind(bucket, stack, db, applied, limit)
      decreases |stack|
    {
      var gen := stack[|stack| - 1];
      stack := stack[..|stack| - 1];
      if Get(bucket, gen).meta {
        var replayed;
        db, replayed := RestoreWal.Restore(db, Get(bucket, gen).pages, if stack == [] then limit else Unlimited(limit));
        applied := true;
      }
    }
    r := Restored(db, applied);
  }

  /** The result when the walk has reached `g` with `stack` behind it. */
  function Finish(bucket: Bucket, stack: seq<Id>, g: Id, limit: Limit): Result
    requires |stack| <= MAX_RESTORE_STACK_DEPTH
  {
    var r := Rebuild(bucket, g, |stack|, if stack == [] then limit else Unlimited(limit));
    if r.TooDeep? then TooDeep else Unwind(bucket, stack, r.db, r.applied, limit)
  }

  lemma FinishStep(bucket: Bucket, stack: seq<Id>, g: Id, limit: Limit)
    requires |stack| <= MAX_RESTORE_STACK_DEPTH
    ensures
      var gen, stack' := Get(bucket, g), stack + [g];
      Finish(bucket, stack, g, limit) ==
        if gen.snapshot.Some? then Unwind(bucket, stack', gen.snapshot.value, false, limit)
        else if |stack'| > MAX_RESTORE_STACK_DEPTH then TooDeep
        else if gen.dep.None? then Unwind(bucket, stack', map[], false, limit)
        else Finish(bucket, stack', gen.dep.value, limit)
  {
    var stack' := stack + [g];
    assert stack'[..|stack'| - 1] == stack;
  }

  // ----- When it succeeds -----

  function Ancestor(bucket: Bucket, g: Id, k: nat): Option<Id>
    decreases k
  {
    if k == 0 then Some(g)
    else if Get(bucket, g).dep.None? then None
    else Ancestor(bucket, Get(bucket, g).dep.value, k - 1)
  }

  /** The `k`th generation back is there, and a restore can start from it. */
  ghost predicate StartsAt(bucket: Bucket, g: Id, n: nat, k: nat) {
    && Ancestor(bucket, g, k).Some?
    && var a := Get(bucket, Ancestor(bucket, g, k).value);
       if a.snapshot.Some? then n + k <= 100 else a.dep.None? && n + k < 100
  }

  /** A restore succeeds exactly when a snapshot is at most 100 generations back, or the chain
      ends at most 99 generations back. In particular it gives up on a cycle of generations
      without a snapshot. */
  lemma {:induction false} SucceedsExactly(bucket: Bucket, g: Id, n: nat, limit: Limit)
    requires n <= MAX_RESTORE_STACK_DEPTH
    ensures Rebuild(bucket, g, n, limit).Restored? <==> exists k: nat :: StartsAt(bucket, g, n, k)
    decreases MAX_RESTORE_STACK_DEPTH - n
  {
    var gen := Get(bucket, g);
    if gen.snapshot.Some? || gen.dep.None? {
      if Rebuild(bucket, g, n, limit).Restored? {
        assert StartsAt(bucket, g, n, 0);
      } else {
        forall k: nat ensures !StartsAt(bucket, g, n, k) {
          assert k != 0 ==> Ancestor(bucket, g, k).None?;
        }
      }
    } else if n == MAX_RESTORE_STACK_DEPTH {
      forall k: nat ensures !StartsAt(bucket, g, n, k) {}
    } else {
      var p := gen.dep.value;
      var m := n + 1;
      SucceedsExactly(bucket, p, m, Unlimited(limit));
      if k: nat :| StartsAt(bucket, p, m, k) {
        assert StartsAt(bucket, g, n, k + 1);
      }
      if k: nat :| StartsAt(bucket, g, n, k) {
        assert StartsAt(bucket, p, m, k - 1);
      }
    }
  }

  // ----- What is restored -----

  function Committed(log: seq<Frame>): seq<Frame> { log[..CommittedLen(log)] }

  /** The whole transactions of some logs, one log after the other. */
  function Whole(logs: seq<seq<Frame>>): seq<Frame> {
    if logs == [] then [] else Whole(logs[..|logs| - 1]) + Committed(logs[|logs| - 1])
  }

  lemma WholeSnoc(logs: seq<seq<Frame>>, log: seq<Frame>)
    ensures Whole(logs + [log]) == Whole(logs) + Committed(log)
  {
    assert (logs + [log])[..|logs|] == logs;
  }

  /** The frames a generation holds: those of its objects, listed in order, up to the first gap; none
      without metadata. */
  ghost predicate HoldsLog(gen: Generation, log: seq<Frame>) {
    if gen.meta then
      && Listing(Flatten(gen.pages), 0) && (forall p | p in gen.pages :: p != [])
      && Received(Flatten(gen.pages), 0) == log
    else log == []
  }

  /** The generations a restore of `g` goes through, by their logs, the newest last, and what it
      starts from: a snapshot, or nothing at the end of the chain. */
  ghost predicate Chain(bucket: Bucket, g: Id, logs: seq<seq<Frame>>, base: Image)
    decreases |logs|
  {
    var gen, last := Get(bucket, g), |logs| - 1;
    && logs != [] && HoldsLog(gen, logs[last])
    && if gen.snapshot.Some? then last == 0 && base == gen.snapshot.value
       else if gen.dep.None? then last == 0 && base == map[]
       else Chain(bucket, gen.dep.value, logs[..last], base)
  }

  /** How much of a log the frame limit leaves: whole batches, none of them beyond the limit, and the
      next one beyond it. */
  ghost predicate CutAt(objs: seq<Object>, last: nat, limit: Limit, log: seq<Frame>, j: nat) {
    && j <= |log|
    && (limit.frame.None? ==> j == |log|)
    && (limit.frame.Some? ==>
          && (j == 0 || last + j <= limit.frame.value)
          && (j < |log| ==> exists k ::
                0 <= k < |objs| && objs[k].Batch? && objs[k].first == last + j + 1 && objs[k].last > limit.frame.value))
  }

  lemma {:induction false} LimitCuts(objs: seq<Object>, last: nat, limit: Limit) returns (j: nat)
    requires Listing(objs, last) && forall time :: !limit.tooLate(time)
    ensures CutAt(objs, last, limit, Received(objs, last), j)
    ensures Received(Admitted(objs, limit), last) == Received(objs, last)[..j]
  {
    j := 0;
    if objs != [] {
      var rest := objs[1..];
      ReceivedFirst(objs, last, limit);
      ListingRest(objs, last);
      assert forall k | 0 <= k < |rest| :: rest[k] == objs[k + 1];
      if objs[0].Unparsed? {
        j := LimitCuts(rest, last, limit);
      } else if objs[0].first == last + 1 && !Over(limit, objs[0]) {
        ListingStep(objs, last);
        var frames := objs[0].frames;
        var m := LimitCuts(rest, last + |frames|, limit);
        j := |frames| + m;
        CutLater(objs, last, limit, frames, Received(rest, last + |frames|), m);
      }
    }
  }

  lemma CutLater(objs: seq<Object>, last: nat, limit: Limit, frames: seq<Frame>, more: seq<Frame>, m: nat)
    requires objs != [] && CutAt(objs[1..], last + |frames|, limit, more, m)
    requires limit.frame.Some? ==> last + |frames| <= limit.frame.value
    ensures CutAt(objs, last, limit, frames + more, |frames| + m)
    ensures frames + more[..m] == (frames + more)[..|frames| + m]
  {
    if limit.frame.Some? && m < |more| {
      var k :| 0 <= k < |objs[1..]| && objs[1..][k].Batch? && objs[1..][k].first == last + |frames| + m + 1 &&
               objs[1..][k].last > limit.frame.value;
      assert objs[k + 1] == objs[1..][k];
    }
  }

  /** Replaying a generation adds the whole transactions of its log, cut at the frame limit. */
  lemma ReplaysTheLog(bucket: Bucket, g: Id, img: Image, log: seq<Frame>, limit: Limit) returns (j: nat)
    requires HoldsLog(Get(bucket, g), log) && forall time :: !limit.tooLate(time)
    ensures j <= |log| && (Get(bucket, g).meta ==> CutAt(Flatten(Get(bucket, g).pages), 0, limit, log, j))
    ensures limit.frame.None? ==> log[..j] == log
    ensures ReplayOf(bucket, g, img, limit) == WriteAll(img, Committed(log[..j]))
  {
    j := 0;
    if Get(bucket, g).meta {
      var pages := Get(bucket, g).pages;
      j := LimitCuts(Flatten(pages), 0, limit);
      PagesDoNotMatter(pages, limit);
    }
  }

  /** Some generation of the chain has metadata. */
  ghost predicate Replays(bucket: Bucket, g: Id, n: nat) {
    exists k :: 0 <= k < n && Ancestor(bucket, g, k).Some? && Get(bucket, Ancestor(bucket, g, k).value).meta
  }

  lemma ReplaysNext(bucket: Bucket, g: Id, n: nat)
    requires Get(bucket, g).dep.Some?
    ensures Replays(bucket, g, n + 1) <==> Get(bucket, g).meta || Replays(bucket, Get(bucket, g).dep.value, n)
  {
    var p := Get(bucket, g).dep.value;
    assert Ancestor(bucket, g, 0) == Some(g);
    if k :| 0 <= k < n && Ancestor(bucket, p, k).Some? && Get(bucket, Ancestor(bucket, p, k).value).meta {
      assert Ancestor(bucket, g, k + 1) == Ancestor(bucket, p, k);
    }
    if k :| 0 < k < n + 1 && Ancestor(bucket, g, k).Some? && Get(bucket, Ancestor(bucket, g, k).value).meta {
      assert Ancestor(bucket, g, k) == Ancestor(bucket, p, k - 1);
    }
  }

  lemma OneMoreLog(base: Image, logs: seq<seq<Frame>>, log: seq<Frame>, start: Image)
    requires start == WriteAll(base, Whole(logs))
    ensures WriteAll(start, Committed(log)) == WriteAll(base, Whole(logs + [log]))
  {
    hide *;
    WholeSnoc(logs, log);
    WriteAllConcat(base, Whole(logs), Committed(log));
  }

  predicate Continues(gen: Generation) { gen.snapshot.None? && gen.dep.Some? }

  lemma RebuildNext(bucket: Bucket, g: Id, n: nat, limit: Limit)
    requires n <= MAX_RESTORE_STACK_DEPTH && Rebuild(bucket, g, n, limit).Restored? && Continues(Get(bucket, g))
    ensures n < MAX_RESTORE_STACK_DEPTH
    ensures var r := Rebuild(bucket, Get(bucket, g).dep.value, n + 1, Unlimited(limit));
      && r.Restored?
      && Rebuild(bucket, g, n, limit) == Restored(ReplayOf(bucket, g, r.db, limit), r.applied || Get(bucket, g).meta)
  {
    hide ReplayOf;
  }

  lemma ChainNext(bucket: Bucket, g: Id, logs: seq<seq<Frame>>, base: Image)
    requires Chain(bucket, g, logs, base) && Continues(Get(bucket, g))
    ensures var p, before := Get(bucket, g).dep.value, logs[..|logs| - 1];
      && before != [] && Chain(bucket, p, before, base)
      && HoldsLog(Get(bucket, p), before[|before| - 1])
      && before[..|before| - 1] + [before[|before| - 1]] == before
  {
    hide HoldsLog;
  }

  lemma ChainStarts(bucket: Bucket, g: Id, n: nat, logs: seq<seq<Frame>>, base: Image, limit: Limit)
    requires n <= MAX_RESTORE_STACK_DEPTH && Rebuild(bucket, g, n, limit).Restored?
    requires Chain(bucket, g, logs, base) && !Continues(Get(bucket, g))
    ensures |logs| == 1 && base == WriteAll(base, Whole(logs[..0]))
    ensures Rebuild(bucket, g, n, limit) == Restored(ReplayOf(bucket, g, base, limit), Get(bucket, g).meta)
    ensures Get(bucket, g).meta <==> Replays(bucket, g, 1)
  {
    hide ReplayOf;
    hide HoldsLog;
    assert logs[..0] == [] && Ancestor(bucket, g, 0) == Some(g);
  }

  /** What the generations before the newest give, and whether any of them has metadata. */
  lemma {:induction false} Before(bucket: Bucket, g: Id, n: nat, logs: seq<seq<Frame>>, base: Image, limit: Limit)
    returns (start: Image, applied: bool)
    requires n <= MAX_RESTORE_STACK_DEPTH && Rebuild(bucket, g, n, limit).Restored?
    requires Chain(bucket, g, logs, base) && forall time :: !limit.tooLate(time)
    ensures logs != [] && start == WriteAll(base, Whole(logs[..|logs| - 1]))
    ensures Rebuild(bucket, g, n, limit) == Restored(ReplayOf(bucket, g, start, limit), applied || Get(bucket, g).meta)
    ensures applied || Get(bucket, g).meta <==> Replays(bucket, g, |logs|)
    decreases |logs|
  {
    var gen, last, open := Get(bucket, g), |logs| - 1, Unlimited(limit);
    assert Continues(gen) ==> gen.dep.Some?;
    assert logs != [] && open.frame.None? && open.tooLate == limit.tooLate;
    hide *;
    if Continues(gen) {
      ChainNext(bucket, g, logs, base);
      RebuildNext(bucket, g, n, limit);
      ReplaysNext(bucket, g, last);
      var p, before := gen.dep.value, logs[..last];
      var s, a := Before(bucket, p, n + 1, before, base, open);
      var j := ReplaysTheLog(bucket, p, s, before[last - 1], open);
      OneMoreLog(base, before[..last - 1], before[last - 1], s);
      start, applied := Rebuild(bucket, p, n + 1, open).db, Rebuild(bucket, p, n + 1, open).applied;
    } else {
      ChainStarts(bucket, g, n, logs, base, limit);
      start, applied := base, false;
    }
  }

  /** A restore that succeeds gives, on top of what it started from, the whole transactions of the
      logs of the chain, the oldest first; only the newest log is cut at the frame limit, and a
      generation without metadata adds nothing. */
  lemma RestoresTheChain(bucket: Bucket, g: Id, n: nat, logs: seq<seq<Frame>>, base: Image, limit: Limit)
    returns (j: nat)
    requires n <= MAX_RESTORE_STACK_DEPTH && Rebuild(bucket, g, n, limit).Restored?
    requires Chain(bucket, g, logs, base) && forall time :: !limit.tooLate(time)
    ensures
      var last := |logs| - 1;
      && j <= |logs[last]| && (limit.frame.None? ==> logs[last][..j] == logs[last])
      && (Get(bucket, g).meta ==> CutAt(Flatten(Get(bucket, g).pages), 0, limit, logs[last], j))
      && Rebuild(bucket, g, n, limit).db == WriteAll(base, Whole(logs[..last] + [logs[last][..j]]))
    ensures Rebuild(bucket, g, n, limit).applied <==> Replays(bucket, g, |logs|)
  {
    var last := |logs| - 1;
    assert HoldsLog(Get(bucket, g), logs[last]);
    hide *;
    var start, applied := Before(bucket, g, n, logs, base, limit);
    j := ReplaysTheLog(bucket, g, start, logs[last], limit);
    OneMoreLog(base, logs[..last], logs[last][..j], start);
  }

  // ----- The result does not depend on where the snapshots are -----

  /** `start` gives the content of the database when each generation began: empty for the first
      one, and for the others what the generation before ended with. Snapshots are of that. */
  ghost predicate History(bucket: Bucket, start: map<Id, Image>, limit: Limit) {
    forall g | g in start ::
      var gen := Get(bucket, g);
      && (gen.snapshot.Some? ==> gen.snapshot.value == start[g])
      && match gen.dep
         case None => gen.snapshot.Some? || start[g] == map[]
         case Some(p) => p in start && start[g] == ReplayOf(bucket, p, start[p], Unlimited(limit))
  }

  /** Whichever generations have a snapshot, a restore that succeeds gives the content of the
      newest generation: its start, and the whole transactions of its log. */
  lemma {:induction false} AnySnapshotWillDo(bucket: Bucket, start: map<Id, Image>, g: Id, n: nat, limit: Limit)
    requires History(bucket, start, limit) && g in start && n <= MAX_RESTORE_STACK_DEPTH
    requires Rebuild(bucket, g, n, limit).Restored?
    ensures Rebuild(bucket, g, n, limit).db == ReplayOf(bucket, g, start[g], limit)
    decreases MAX_RESTORE_STACK_DEPTH - n
  {
    var gen := Get(bucket, g);
    if gen.snapshot.None? && gen.dep.Some? {
      AnySnapshotWillDo(bucket, start, gen.dep.value, n + 1, Unlimited(limit));
    }
  }
}
