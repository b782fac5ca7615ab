/** The calls of one connection, as the loops of the source run them, tied to the steps of
the protocol: each method returns the actions it performed, and the protocol's own steps
take the connection from the state before the call to the state after it. */
module BtreeMutexCalls {
  import opened BtreeMutex

  /** The connection's own steps, with the other connections left out. */
  ghost predicate Performs(c: Conn, acts: seq<Action>, d: Conn)
    decreases acts
  {
    && WellFormed(c)
    && if acts == [] then c == d
       else Permitted(c, acts[0]) && Performs(Local(c, acts[0]).0, acts[1..], d)
  }

  function Mine(run: seq<Event>, c: ConnId): seq<Action> {
    if run == [] then []
    else (if run[0].conn == c then [run[0].act] else []) + Mine(run[1..], c)
  }

  /** In any interleaving, what a connection does is such a sequence of steps. */
  lemma {:induction false} RunsProject(s: System, run: seq<Event>, t: System, c: ConnId)
    requires Inv(s) && IsRun(s, run, t) && c in s.conns
    ensures c in t.conns && Performs(s.conns[c], Mine(run, c), t.conns[c])
    decreases run
  {
    if run != [] {
      StepPreserves(s, run[0]);
      StepConns(s, run[0]);
      RunsProject(Apply(s, run[0]), run[1..], t, c);
      if run[0].conn == c {
        assert Mine(run, c)[1..] == Mine(run[1..], c);
      } else {
        assert Mine(run, c) == Mine(run[1..], c);
      }
    }
  }

  lemma {:induction false} PerformsConcat(c: Conn, a: seq<Action>, m: Conn, b: seq<Action>, d: Conn)
    requires Performs(c, a, m) && Performs(m, b, d)
    ensures Performs(c, a + b, d)
    decreases a
  {
    if a == [] {
      assert a + b == b;
    } else {
      PerformsConcat(Local(c, a[0]).0, a[1..], m, b, d);
      assert (a + b)[1..] == a[1..] + b;
    }
  }

  lemma PerformsSnoc(c: Conn, a: seq<Action>, m: Conn, act: Action)
    requires Performs(c, a, m) && WellFormed(m) && Permitted(m, act)
    ensures Performs(c, a + [act], Local(m, act).0)
  {
    var d := Local(m, act).0;
    assert [act][1..] == [];
    assert Performs(m, [act], d);
    PerformsConcat(c, a, m, [act], d);
  }

  lemma StepOn(c: Conn, a: seq<Action>, m: Conn, act: Action)
    requires Performs(c, a, m) && ConnInv(m) && Permitted(m, act)
    ensures ConnInv(Local(m, act).0) && Performs(c, a + [act], Local(m, act).0)
  {
    PerformsSnoc(c, a, m, act);
    LocalPreserves(m, act);
  }

  /** An entry of the connection's list of databases. */
  datatype Slot = NoBtree | Private | Shared(i: nat)

  function Uses(slots: seq<Slot>, i: nat): nat {
    if slots == [] then 0 else Uses(slots[..|slots| - 1], i) + (if slots[|slots| - 1] == Shared(i) then 1 else 0)
  }

  lemma {:induction false} UsesPrefix(slots: seq<Slot>, k: nat, i: nat)
    requires k <= |slots|
    ensures Uses(slots[..k], i) <= Uses(slots, i)
  {
    if k < |slots| {
      UsesPrefix(slots[..|slots| - 1], k, i);
      assert slots[..|slots| - 1][..k] == slots[..k];
    } else {
      assert slots[..k] == slots;
    }
  }

  lemma UsesStep(slots: seq<Slot>, k: nat)
    requires k < |slots|
    ensures forall i :: Uses(slots[..k + 1], i) == Uses(slots[..k], i) + (if slots[k] == Shared(i) then 1 else 0)
  {
    assert slots[..k + 1][..k] == slots[..k];
  }

  predicate NoneShared(slots: seq<Slot>) {
    forall k | 0 <= k < |slots| :: !slots[k].Shared?
  }

  lemma AllLocked(c: Conn, c0: Conn, slots: seq<Slot>)
    requires ConnInv(c) && WellFormed(c0) && c.phase.Idle? && c0.addr == c.addr
    requires forall k | 0 <= k < |slots| && slots[k].Shared? :: slots[k].i < |c.addr|
    requires forall i | 0 <= i < |c.addr| :: c.want[i] == c0.want[i] + Uses(slots, i)
    ensures forall k | 0 <= k < |slots| && slots[k].Shared? :: c.locked[slots[k].i]
  {
    forall k | 0 <= k < |slots| && slots[k].Shared? ensures c.locked[slots[k].i] {
      UsesStep(slots, k);
      UsesPrefix(slots, k + 1, slots[k].i);
      assert c.want[slots[k].i] > 0;
    }
  }

  class Connection {
    const addr: seq<Addr>
    var want: seq<nat>
    var locked: seq<bool>
    var noSharedCache: bool

    ghost function At(phase: Phase): Conn
      reads this
    {
      Conn(addr, want, locked, phase)
    }

    ghost predicate Valid()
      reads this
    {
      ConnInv(At(Idle))
    }

    constructor (addr: seq<Addr>)
      requires Ascending(addr)
      ensures Valid() && this.addr == addr && !noSharedCache
      ensures forall i | 0 <= i < |addr| :: want[i] == 0 && !locked[i]
    {
      this.addr := addr;
      want := seq(|addr|, _ => 0);
      locked := seq(|addr|, _ => false);
      noSharedCache := false;
    }

    /** The first loop of btreeLockCarefully: drop every lock after `p`. */
    method ReleaseLater(p: nat, ghost c0: Conn, done: seq<Action>) returns (acts: seq<Action>)
      requires p < |addr| && ConnInv(At(Releasing(p, p + 1))) && Performs(c0, done, At(Releasing(p, p + 1)))
      modifies this`locked
      ensures ConnInv(At(Blocking(p))) && Performs(c0, acts, At(Blocking(p)))
    {
      hide Performs;
      acts := done;
      var j := p + 1;
      while j < |addr|
        invariant p < j <= |addr|
        invariant ConnInv(At(Releasing(p, j))) && Performs(c0, acts, At(Releasing(p, j)))
      {
        StepOn(c0, acts, At(Releasing(p, j)), Advance);
        if locked[j] {
          locked := locked[j := false];
        }
        acts, j := acts + [Advance], j + 1;
      }
      StepOn(c0, acts, At(Releasing(p, j)), Advance);
      acts := acts + [Advance];
    }

    /** The second loop: wait again, in ascending order, for the locks still wanted. */
    method RelockLater(p: nat, ghost c0: Conn, done: seq<Action>) returns (acts: seq<Action>)
      requires p < |addr| && ConnInv(At(Relocking(p, p + 1))) && Performs(c0, done, At(Relocking(p, p + 1)))
      modifies this`locked
      ensures Valid() && Performs(c0, acts, At(Idle))
    {
      hide Performs;
      acts := done;
      var j := p + 1;
      while j < |addr|
        invariant p < j <= |addr|
        invariant ConnInv(At(Relocking(p, j))) && Performs(c0, acts, At(Relocking(p, j)))
      {
        StepOn(c0, acts, At(Relocking(p, j)), Advance);
        if want[j] > 0 {
          locked := locked[j := true];
        }
        acts, j := acts + [Advance], j + 1;
      }
      StepOn(c0, acts, At(Relocking(p, j)), Advance);
      acts := acts + [Advance];
    }

    /** btreeLockCarefully: try once; if that fails, drop every later lock, wait, and lock
        again in ascending order. */
    method LockCarefully(p: nat, tryOk: bool) returns (acts: seq<Action>)
      requires p < |addr| && ConnInv(At(Trying(p)))
      modifies this`locked
      ensures Valid() && Performs(old(At(Trying(p))), acts, At(Idle))
    {
      ghost var c0 := At(Trying(p));
      StepOn(c0, [], c0, Try(tryOk));
      acts := [] + [Try(tryOk)];
      if tryOk {
        locked := locked[p := true];
        return;
      }
      acts := ReleaseLater(p, c0, acts);
      StepOn(c0, acts, At(Blocking(p)), Advance);
      locked := locked[p := true];
      acts := RelockLater(p, c0, acts + [Advance]);
    }

    /** sqlite3BtreeEnter on a sharable B-tree: recursive, and locked when it returns. */
    method Enter(p: nat, tryOk: bool) returns (acts: seq<Action>)
      requires Valid() && p < |addr|
      modifies this`want, this`locked
      ensures Valid() && Performs(old(At(Idle)), acts, At(Idle))
      ensures want == old(want)[p := old(want)[p] + 1]
    {
      ghost var c0 := At(Idle);
      StepOn(c0, [], c0, Action.Enter(p));
      want := want[p := want[p] + 1];
      acts := [] + [Action.Enter(p)];
      if locked[p] {
        return;
      }
      ghost var mid := At(Trying(p));
      var rest := LockCarefully(p, tryOk);
      PerformsConcat(c0, acts, mid, rest, At(Idle));
      acts := acts + rest;
    }

    /** sqlite3BtreeLeave on a sharable B-tree: the last leave unlocks it. */
    method Leave(p: nat)
      requires Valid() && p < |addr| && want[p] > 0
      modifies this`want, this`locked
      ensures Valid() && Performs(old(At(Idle)), [Action.Leave(p)], At(Idle))
      ensures want == old(want)[p := old(want)[p] - 1]
    {
      ghost var c0 := At(Idle);
      StepOn(c0, [], c0, Action.Leave(p));
      assert [] + [Action.Leave(p)] == [Action.Leave(p)];
      want := want[p := want[p] - 1];
      if want[p] == 0 {
        locked := locked[p := false];
      }
    }

    method EnterAfter(p: nat, tryOk: bool, ghost c0: Conn, done: seq<Action>) returns (acts: seq<Action>)
      requires Valid() && p < |addr| && Performs(c0, done, At(Idle))
      modifies this`want, this`locked
      ensures Valid() && Performs(c0, acts, At(Idle))
      ensures want == old(want)[p := old(want)[p] + 1]
    {
      ghost var mid := At(Idle);
      var more := Enter(p, tryOk);
      PerformsConcat(c0, done, mid, more, At(Idle));
      acts := done + more;
    }

    /** sqlite3BtreeEnterAll: afterwards every sharable B-tree of the connection is locked,
        and entered once more for each database slot that uses it. The flag that lets later
        calls be skipped is only set when there is no sharable B-tree. */
    method EnterAll(slots: seq<Slot>, tries: seq<bool>) returns (acts: seq<Action>)
      requires Valid() && |tries| == |slots|
      requires forall k | 0 <= k < |slots| && slots[k].Shared? :: slots[k].i < |addr|
      requires noSharedCache ==> NoneShared(slots)
      modifies this
      ensures Valid() && Performs(old(At(Idle)), acts, At(Idle))
      ensures forall i | 0 <= i < |addr| :: want[i] == old(want[i]) + Uses(slots, i)
      ensures forall k | 0 <= k < |slots| && slots[k].Shared? :: locked[slots[k].i]
      ensures noSharedCache <==> NoneShared(slots)
    {
      acts := [];
      if noSharedCache {
        NoUses(slots);
        return;
      }
      ghost var c0 := At(Idle);
      var skipOk := true;
      var k := 0;
      while k < |slots|
        invariant 0 <= k <= |slots| && Valid() && Performs(c0, acts, At(Idle))
        invariant forall i | 0 <= i < |addr| :: want[i] == c0.want[i] + Uses(slots[..k], i)
        invariant skipOk <==> NoneShared(slots[..k])
      {
        UsesStep(slots, k);
        if slots[k].Shared? {
          acts := EnterAfter(slots[k].i, tries[k], c0, acts);
          skipOk := false;
        }
        k := k + 1;
      }
      assert slots[..k] == slots;
      noSharedCache := skipOk;
      AllLocked(At(Idle), c0, slots);
    }

    method LeaveAfter(p: nat, ghost c0: Conn, done: seq<Action>) returns (acts: seq<Action>)
      requires Valid() && p < |addr| && want[p] > 0 && Performs(c0, done, At(Idle))
      modifies this`want, this`locked
      ensures Valid() && Performs(c0, acts, At(Idle))
      ensures want == old(want)[p := old(want)[p] - 1]
    {
      ghost var mid := At(Idle);
      Leave(p);
      PerformsConcat(c0, done, mid, [Action.Leave(p)], At(Idle));
      acts := done + [Action.Leave(p)];
    }

    /** sqlite3BtreeLeaveAll undoes one sqlite3BtreeEnterAll. */
    method LeaveAll(slots: seq<Slot>) returns (acts: seq<Action>)
      requires Valid()
      requires forall k | 0 <= k < |slots| && slots[k].Shared? :: slots[k].i < |addr|
      requires noSharedCache ==> NoneShared(slots)
      requires forall i | 0 <= i < |addr| :: want[i] >= Uses(slots, i)
      modifies this`want, this`locked
      ensures Valid() && Performs(old(At(Idle)), acts, At(Idle))
      ensures forall i | 0 <= i < |addr| :: want[i] == old(want[i]) - Uses(slots, i)
    {
      acts := [];
      if noSharedCache {
        NoUses(slots);
        return;
      }
      ghost var c0 := At(Idle);
      var k := 0;
      while k < |slots|
        invariant 0 <= k <= |slots| && Valid() && Performs(c0, acts, At(Idle))
        invariant forall i | 0 <= i < |addr| :: want[i] == c0.want[i] - Uses(slots[..k], i)
      {
        UsesStep(slots, k);
        if slots[k].Shared? {
          UsesPrefix(slots, k + 1, slots[k].i);
          acts := LeaveAfter(slots[k].i, c0, acts);
        }
        k := k + 1;
      }
      assert slots[..k] == slots;
    }
  }

  lemma {:induction false} NoUses(slots: seq<Slot>)
    requires NoneShared(slots)
    ensures forall i: nat :: Uses(slots, i) == 0
  {
    if slots != [] {
      NoUses(slots[..|slots| - 1]);
    }
  }

  /** Entering all B-trees and leaving them all again gives back every lock and every count. */
  method EnterAllLeaveAll(conn: Connection, slots: seq<Slot>, tries: seq<bool>)
    requires conn.Valid() && |tries| == |slots|
    requires forall k | 0 <= k < |slots| && slots[k].Shared? :: slots[k].i < |conn.addr|
    requires conn.noSharedCache ==> NoneShared(slots)
    modifies conn
    ensures conn.want == old(conn.want) && conn.locked == old(conn.locked)
  {
    ghost var before := conn.At(Idle);
    var acts := conn.EnterAll(slots, tries);
    acts := conn.LeaveAll(slots);
    SameWantSameLocks(before, conn.At(Idle));
  }
}
