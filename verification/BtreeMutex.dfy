/** The mutex protocol on shared B-trees.

Every database connection keeps its sharable B-trees in a list ordered by the address of
the `BtShared` each one points at. A connection is modelled with its list, the recursion
count and the locked flag of every entry, and the point it has reached inside an acquire.
Any number of connections interleave, one mutex operation at a time. */
module BtreeMutex {

  type Addr = nat
  type ConnId = nat

  /** Where a connection is: outside any call, or inside an acquire of its entry `p`. */
  datatype Phase =
    | Idle
    | Trying(p: nat)             // about to call sqlite3_mutex_try
    | Releasing(p: nat, j: nat)  // the first loop over the later entries has reached j
    | Blocking(p: nat)           // about to wait for the mutex of p
    | Relocking(p: nat, j: nat)  // the second loop over the later entries has reached j

  datatype Conn = Conn(addr: seq<Addr>, want: seq<nat>, locked: seq<bool>, phase: Phase)

  datatype Action =
    | Enter(i: nat)
    | Leave(i: nat)
    | Try(ok: bool)  // the outcome of sqlite3_mutex_try; it may fail spuriously
    | Advance        // the next statement of the slow path

  /** What one action does to the mutexes. */
  datatype Effect = Nothing | Acquires(a: Addr) | Frees(a: Addr)

  predicate WellFormed(c: Conn) {
    && |c.want| == |c.addr|
    && |c.locked| == |c.addr|
    && (c.phase.Idle? || c.phase.p < |c.addr|)
    && (c.phase.Releasing? || c.phase.Relocking? ==> c.phase.p < c.phase.j <= |c.addr|)
  }

  predicate Permitted(c: Conn, act: Action)
    requires WellFormed(c)
  {
    match act
    case Enter(i) => c.phase.Idle? && i < |c.addr|
    case Leave(i) => c.phase.Idle? && i < |c.addr| && c.want[i] > 0
    case Try(_) => c.phase.Trying?
    case Advance => c.phase.Releasing? || c.phase.Blocking? || c.phase.Relocking?
  }

  function Local(c: Conn, act: Action): (r: (Conn, Effect))
    requires WellFormed(c) && Permitted(c, act)
    ensures WellFormed(r.0) && r.0.addr == c.addr
  {
    match act
    case Enter(i) =>
      var d := c.(want := c.want[i := c.want[i] + 1]);
      if c.locked[i] then (d, Nothing) else (d.(phase := Trying(i)), Nothing)
    case Leave(i) =>
      var d := c.(want := c.want[i := c.want[i] - 1]);
      if d.want[i] == 0 then (d.(locked := c.locked[i := false]), Frees(c.addr[i])) else (d, Nothing)
    case Try(ok) =>
      var p := c.phase.p;
      if ok then (c.(locked := c.locked[p := true], phase := Idle), Acquires(c.addr[p]))
      else (c.(phase := Releasing(p, p + 1)), Nothing)
    case Advance =>
      match c.phase {
        case Releasing(p, j) =>
          if j == |c.addr| then (c.(phase := Blocking(p)), Nothing)
          else if c.locked[j] then
            (c.(locked := c.locked[j := false], phase := Releasing(p, j + 1)), Frees(c.addr[j]))
          else (c.(phase := Releasing(p, j + 1)), Nothing)
        case Blocking(p) =>
          (c.(locked := c.locked[p := true], phase := Relocking(p, p + 1)), Acquires(c.addr[p]))
        case Relocking(p, j) =>
          if j == |c.addr| then (c.(phase := Idle), Nothing)
          else if c.want[j] > 0 then
            (c.(locked := c.locked[j := true], phase := Relocking(p, j + 1)), Acquires(c.addr[j]))
          else (c.(phase := Relocking(p, j + 1)), Nothing)
      }
  }

  // ----- One connection -----

  ghost predicate Ascending(s: seq<Addr>) {
    forall i, j :: 0 <= i < j < |s| ==> s[i] < s[j]
  }

  /** In the given range of entries, those that hold their mutex are those that somebody wants. */
  predicate Settled(c: Conn, lo: nat, hi: nat)
    requires WellFormed(c) && hi <= |c.addr|
  {
    forall i | lo <= i < hi :: c.locked[i] <==> c.want[i] > 0
  }

  predicate Unlocked(c: Conn, lo: nat, hi: nat)
    requires WellFormed(c) && hi <= |c.addr|
  {
    forall i | lo <= i < hi :: !c.locked[i]
  }

  ghost predicate ConnInv(c: Conn) {
    && WellFormed(c)
    && Ascending(c.addr)
    && var n := |c.addr|;
       match c.phase
       case Idle => Settled(c, 0, n)
       case Trying(p) => c.want[p] > 0 && Settled(c, 0, p) && Unlocked(c, p, p + 1) && Settled(c, p + 1, n)
       case Releasing(p, j) => c.want[p] > 0 && Settled(c, 0, p) && Unlocked(c, p, j) && Settled(c, j, n)
       case Blocking(p) => c.want[p] > 0 && Settled(c, 0, p) && Unlocked(c, p, n)
       case Relocking(p, j) => Settled(c, 0, j) && Unlocked(c, j, n)
  }

  /** The addresses of the mutexes that the connection's own flags say it holds. */
  ghost function Held(c: Conn): set<Addr>
    requires WellFormed(c)
  {
    set i | 0 <= i < |c.addr| && c.locked[i] :: c.addr[i]
  }

  lemma LocalPreserves(c: Conn, act: Action)
    requires ConnInv(c) && Permitted(c, act)
    ensures ConnInv(Local(c, act).0)
  {
  }

  lemma HeldAfterLock(c: Conn, d: Conn, i: nat)
    requires WellFormed(c) && WellFormed(d) && c.addr == d.addr && i < |c.addr| && Ascending(c.addr)
    requires !c.locked[i] && d.locked == c.locked[i := true]
    ensures c.addr[i] !in Held(c) && Held(d) == Held(c) + {c.addr[i]}
  {
    forall a ensures a in Held(d) <==> a in Held(c) + {c.addr[i]} {
      if a in Held(c) {
        var k :| 0 <= k < |c.addr| && c.locked[k] && c.addr[k] == a;
        assert d.locked[k];
      }
      assert d.locked[i];
    }
  }

  /** The flags of the connection change as the mutex operation says. */
  ghost predicate Tracks(c: Conn, d: Conn, e: Effect) {
    && WellFormed(c) && WellFormed(d)
    && match e
       case Nothing => Held(d) == Held(c)
       case Acquires(a) => a !in Held(c) && Held(d) == Held(c) + {a}
       case Frees(a) => a in Held(c) && Held(d) == Held(c) - {a}
  }

  lemma HeldFollowsEffect(c: Conn, act: Action)
    requires ConnInv(c) && Permitted(c, act)
    ensures var (d, e) := Local(c, act); Tracks(c, d, e)
  {
    var (d, e) := Local(c, act);
    if d.locked == c.locked {
      assert Held(d) == Held(c);
    } else {
      var i := if act.Leave? then act.i
               else if c.phase.Trying? || c.phase.Blocking? then c.phase.p
               else c.phase.j;
      if e.Acquires? {
        HeldAfterLock(c, d, i);
      } else {
        assert c.locked == d.locked[i := true];
        HeldAfterLock(d, c, i);
      }
    }
  }

  /** The mutex the next statement of the connection waits for, if it does. */
  datatype Wait = NoWait | On(a: Addr)

  function NextLock(c: Conn): Wait
    requires WellFormed(c)
  {
    match c.phase
    case Blocking(p) => On(c.addr[p])
    case Relocking(_, j) => if j < |c.addr| && c.want[j] > 0 then On(c.addr[j]) else NoWait
    case _ => NoWait
  }

  lemma LockedIsWanted(c: Conn, i: nat)
    requires ConnInv(c) && i < |c.addr| && c.locked[i]
    ensures c.want[i] > 0
  {
  }

  /** While it can block, a connection holds only mutexes of smaller address. */
  lemma WaitsAboveEverythingHeld(c: Conn)
    requires ConnInv(c) && NextLock(c).On?
    ensures forall b :: b in Held(c) ==> b < NextLock(c).a
  {
  }

  // ----- All connections -----

  datatype System = System(conns: map<ConnId, Conn>, holder: map<Addr, ConnId>, db: map<Addr, ConnId>)

  datatype Event = Event(conn: ConnId, act: Action)

  predicate Enabled(s: System, e: Event) {
    && e.conn in s.conns
    && WellFormed(s.conns[e.conn])
    && Permitted(s.conns[e.conn], e.act)
    && var (_, eff) := Local(s.conns[e.conn], e.act);
       eff.Acquires? ==> eff.a !in s.holder
  }

  function Update(s: System, c: ConnId, d: Conn, eff: Effect): System {
    var t := s.(conns := s.conns[c := d]);
    match eff
    case Nothing => t
    case Acquires(a) => t.(holder := s.holder[a := c], db := s.db[a := c])
    case Frees(a) => t.(holder := s.holder - {a})
  }

  function Apply(s: System, e: Event): System
    requires Enabled(s, e)
  {
    var (d, eff) := Local(s.conns[e.conn], e.act);
    Update(s, e.conn, d, eff)
  }

  ghost predicate IsRun(s: System, run: seq<Event>, t: System)
    decreases run
  {
    if run == [] then s == t
    else Enabled(s, run[0]) && IsRun(Apply(s, run[0]), run[1..], t)
  }

  ghost predicate Initial(s: System) {
    && s.holder == map[]
    && forall c | c in s.conns ::
         && WellFormed(s.conns[c]) && Ascending(s.conns[c].addr) && s.conns[c].phase.Idle?
         && forall i | 0 <= i < |s.conns[c].addr| :: s.conns[c].want[i] == 0 && !s.conns[c].locked[i]
  }

  /** The mutex of `a` is held by `c`, and `BtShared.db` names `c`. */
  ghost predicate Holds(s: System, c: ConnId, a: Addr) {
    a in s.holder && s.holder[a] == c && a in s.db && s.db[a] == c
  }

  ghost function HeldBy(holder: map<Addr, ConnId>, c: ConnId): set<Addr> {
    set a | a in holder && holder[a] == c
  }

  ghost predicate Inv(s: System) {
    && (forall c | c in s.conns :: ConnInv(s.conns[c]))
    && (forall c | c in s.conns :: Held(s.conns[c]) == HeldBy(s.holder, c))
    && (forall a | a in s.holder :: s.holder[a] in s.conns && Holds(s, s.holder[a], a))
  }

  lemma UpdatePreserves(s: System, c: ConnId, d: Conn, eff: Effect)
    requires Inv(s) && c in s.conns && ConnInv(d) && Tracks(s.conns[c], d, eff)
    requires eff.Acquires? ==> eff.a !in s.holder
    ensures Inv(Update(s, c, d, eff))
  {
    var t := Update(s, c, d, eff);
    forall x | x in t.conns ensures Held(t.conns[x]) == HeldBy(t.holder, x) {
      assert Held(s.conns[x]) == HeldBy(s.holder, x);
      assert x == c ==> Held(t.conns[x]) == HeldBy(t.holder, x);
      assert x != c ==> HeldBy(t.holder, x) == HeldBy(s.holder, x);
    }
    forall a | a in t.holder ensures t.holder[a] in t.conns && Holds(t, t.holder[a], a) {
      assert a in s.holder ==> Holds(s, s.holder[a], a);
    }
  }

  lemma StepPreserves(s: System, e: Event)
    requires Inv(s) && Enabled(s, e)
    ensures Inv(Apply(s, e))
  {
    LocalPreserves(s.conns[e.conn], e.act);
    HeldFollowsEffect(s.conns[e.conn], e.act);
    var (d, eff) := Local(s.conns[e.conn], e.act);
    UpdatePreserves(s, e.conn, d, eff);
  }

  lemma {:induction false} Reachable(s: System, run: seq<Event>, t: System)
    requires Inv(s) && IsRun(s, run, t)
    ensures Inv(t)
    decreases run
  {
    if run != [] {
      StepPreserves(s, run[0]);
      Reachable(Apply(s, run[0]), run[1..], t);
    }
  }

  lemma InitialInv(s: System)
    requires Initial(s)
    ensures Inv(s)
  {
    forall c | c in s.conns ensures Held(s.conns[c]) == HeldBy(s.holder, c) {
      assert HeldBy(s.holder, c) == {};
    }
  }

  /** In every reachable state a mutex has one holder, `BtShared.db` names it, and the flags
      of all connections agree with the mutexes; a connection outside an acquire has locked
      exactly the entries somebody wants. */
  lemma MutualExclusion(s0: System, run: seq<Event>, s: System)
    requires Initial(s0) && IsRun(s0, run, s)
    ensures forall c, i | c in s.conns && 0 <= i < |s.conns[c].addr| && WellFormed(s.conns[c]) ::
      s.conns[c].locked[i] ==> s.conns[c].want[i] > 0 && Holds(s, c, s.conns[c].addr[i])
    ensures forall c, d, i, j |
      && c in s.conns && d in s.conns && WellFormed(s.conns[c]) && WellFormed(s.conns[d])
      && 0 <= i < |s.conns[c].addr| && 0 <= j < |s.conns[d].addr|
      && s.conns[c].addr[i] == s.conns[d].addr[j] && s.conns[c].locked[i] && s.conns[d].locked[j] ::
      c == d && i == j
    ensures forall c | c in s.conns && s.conns[c].phase.Idle? ::
      WellFormed(s.conns[c]) && Settled(s.conns[c], 0, |s.conns[c].addr|)
  {
    InitialInv(s0);
    Reachable(s0, run, s);
    forall c, i | c in s.conns && 0 <= i < |s.conns[c].addr| && s.conns[c].locked[i]
      ensures s.conns[c].want[i] > 0 && Holds(s, c, s.conns[c].addr[i])
    {
      LockedIsWanted(s.conns[c], i);
      assert s.conns[c].addr[i] in HeldBy(s.holder, c);
    }
  }

  // ----- No deadlock -----

  ghost predicate WaitsFor(s: System, c: ConnId, d: ConnId) {
    && c in s.conns && WellFormed(s.conns[c])
    && NextLock(s.conns[c]).On?
    && NextLock(s.conns[c]).a in s.holder
    && s.holder[NextLock(s.conns[c]).a] == d
  }

  /** Each connection of the sequence waits for the next, and the last one for the first. */
  ghost predicate WaitCycle(s: System, cycle: seq<ConnId>) {
    && |cycle| > 0
    && WaitsFor(s, cycle[|cycle| - 1], cycle[0])
    && forall k | 0 <= k < |cycle| - 1 :: WaitsFor(s, cycle[k], cycle[k + 1])
  }

  lemma WaitingAddressGrows(s: System, c: ConnId, d: ConnId)
    requires Inv(s) && WaitsFor(s, c, d)
    ensures d in s.conns
    ensures NextLock(s.conns[d]).On? ==> NextLock(s.conns[c]).a < NextLock(s.conns[d]).a
  {
    assert NextLock(s.conns[c]).a in HeldBy(s.holder, d);
    if NextLock(s.conns[d]).On? {
      WaitsAboveEverythingHeld(s.conns[d]);
    }
  }

  lemma {:induction false} AscendingAlongCycle(s: System, cycle: seq<ConnId>, k: nat)
    requires Inv(s) && WaitCycle(s, cycle) && k < |cycle|
    ensures cycle[0] in s.conns && NextLock(s.conns[cycle[0]]).On?
    ensures cycle[k] in s.conns && NextLock(s.conns[cycle[k]]).On?
    ensures NextLock(s.conns[cycle[0]]).a <= NextLock(s.conns[cycle[k]]).a
  {
    if k == 0 {
      assert WaitsFor(s, cycle[0], if |cycle| == 1 then cycle[0] else cycle[1]);
    } else {
      AscendingAlongCycle(s, cycle, k - 1);
      assert WaitsFor(s, cycle[k - 1], cycle[k - 1 + 1]);
      WaitingAddressGrows(s, cycle[k - 1], cycle[k]);
      assert WaitsFor(s, cycle[k], if k == |cycle| - 1 then cycle[0] else cycle[k + 1]);
    }
  }

  /** No reachable state has a cycle of waiters, for any number of connections and any
      interleaving of their Enter and Leave calls. */
  lemma DeadlockFree(s0: System, run: seq<Event>, s: System, cycle: seq<ConnId>)
    requires Initial(s0) && IsRun(s0, run, s)
    ensures !WaitCycle(s, cycle)
  {
    InitialInv(s0);
    Reachable(s0, run, s);
    if WaitCycle(s, cycle) {
      AscendingAlongCycle(s, cycle, |cycle| - 1);
      WaitingAddressGrows(s, cycle[|cycle| - 1], cycle[0]);
      assert false;
    }
  }

  ghost predicate Blocked(s: System, c: ConnId) {
    && c in s.conns && WellFormed(s.conns[c])
    && NextLock(s.conns[c]).On?
    && NextLock(s.conns[c]).a in s.holder
  }

  ghost function BlockedAbove(s: System, a: Addr): set<ConnId> {
    set c | c in s.conns && Blocked(s, c) && NextLock(s.conns[c]).a > a
  }

  /** Follow the holders from a waiting connection. */
  least predicate LeadsTo[nat](s: System, c: ConnId, d: ConnId) {
    c == d || exists e :: WaitsFor(s, c, e) && LeadsTo(s, e, d)
  }

  lemma {:induction false} ChainEnds(s: System, c: ConnId) returns (d: ConnId)
    requires Inv(s) && c in s.conns
    ensures d in s.conns && !Blocked(s, d) && LeadsTo(s, c, d)
    ensures d != c ==> Held(s.conns[d]) != {}
    decreases if Blocked(s, c) then |BlockedAbove(s, NextLock(s.conns[c]).a)| + 1 else 0
  {
    d := c;
    if Blocked(s, c) {
      var e := s.holder[NextLock(s.conns[c]).a];
      WaitingAddressGrows(s, c, e);
      if Blocked(s, e) {
        var above, below := BlockedAbove(s, NextLock(s.conns[e]).a), BlockedAbove(s, NextLock(s.conns[c]).a);
        assert above <= below && e in below && e !in above;
        SmallerIsSmaller(above, below);
      }
      d := ChainEnds(s, e);
      assert NextLock(s.conns[c]).a in HeldBy(s.holder, e);
    }
  }

  lemma SmallerIsSmaller(a: set<ConnId>, b: set<ConnId>)
    requires a < b
    ensures |a| < |b|
  {
    var x :| x in b && x !in a;
    assert |b - a| > 0 by {
      assert x in b - a;
    }
    assert a + (b - a) == b;
  }

  /** Whenever a connection is inside an acquire, following the holders it waits for ends at
      a connection that can move now: it continues its own acquire, or it is outside any call
      and can leave an entry it has locked. */
  lemma Progress(s0: System, run: seq<Event>, s: System, c: ConnId) returns (d: ConnId, act: Action)
    requires Initial(s0) && IsRun(s0, run, s)
    requires c in s.conns && !s.conns[c].phase.Idle?
    ensures LeadsTo(s, c, d) && !act.Enter? && Enabled(s, Event(d, act))
  {
    InitialInv(s0);
    Reachable(s0, run, s);
    d := ChainEnds(s, c);
    assert ConnInv(s.conns[d]);
    hide LeadsTo;
    hide Inv;
    match s.conns[d].phase
    case Idle =>
      var i :| 0 <= i < |s.conns[d].addr| && s.conns[d].locked[i];
      act := Leave(i);
    case Trying(_) => act := Try(false);
    case _ => act := Advance;
  }

  /** The number of its own steps a connection still needs to finish its acquire. */
  function Work(c: Conn): nat
    requires WellFormed(c)
  {
    match c.phase
    case Idle => 0
    case Trying(p) => 2 * (|c.addr| - p) + 2
    case Releasing(p, j) => (|c.addr| - j) + 1 + (|c.addr| - p) + 1
    case Blocking(p) => |c.addr| - p + 1
    case Relocking(_, j) => |c.addr| - j + 1
  }

  lemma LocalWork(c: Conn, act: Action)
    requires WellFormed(c) && Permitted(c, act)
    ensures !c.phase.Idle? ==> Work(Local(c, act).0) < Work(c)
    ensures Work(Local(c, act).0) <= 2 * |c.addr| + 2
  {
  }

  /** Every step of an acquire brings it closer to its end, and nobody else sets it back. */
  lemma AcquireTerminates(s: System, e: Event, c: ConnId)
    requires Inv(s) && Enabled(s, e) && c in s.conns
    ensures WellFormed(Apply(s, e).conns[c])
    ensures !s.conns[c].phase.Idle? ==>
      if e.conn == c then Work(Apply(s, e).conns[c]) < Work(s.conns[c])
      else Apply(s, e).conns[c] == s.conns[c]
    ensures e.conn == c ==> Work(Apply(s, e).conns[c]) <= 2 * |s.conns[c].addr| + 2
  {
    LocalWork(s.conns[e.conn], e.act);
  }

  // ----- Balanced calls -----

  /** Calls of Enter minus calls of Leave that connection `c` makes on its entry `i`. */
  ghost function Balance(run: seq<Event>, c: ConnId, i: nat): int {
    if run == [] then 0
    else (if run[0] == Event(c, Enter(i)) then 1 else if run[0] == Event(c, Leave(i)) then -1 else 0)
         + Balance(run[1..], c, i)
  }

  lemma LocalWant(c: Conn, act: Action, i: nat)
    requires WellFormed(c) && Permitted(c, act) && i < |c.addr|
    ensures Local(c, act).0.want[i] ==
            c.want[i] + (if act == Enter(i) then 1 else if act == Leave(i) then -1 else 0)
  {
  }

  lemma StepConns(s: System, e: Event)
    requires Enabled(s, e)
    ensures Apply(s, e).conns == s.conns[e.conn := Local(s.conns[e.conn], e.act).0]
  {
  }

  lemma {:induction false} WantFollowsBalance(s: System, run: seq<Event>, t: System, c: ConnId, i: nat)
    requires Inv(s) && IsRun(s, run, t) && c in s.conns && i < |s.conns[c].addr|
    ensures c in t.conns && WellFormed(t.conns[c]) && t.conns[c].addr == s.conns[c].addr
    ensures t.conns[c].want[i] == s.conns[c].want[i] + Balance(run, c, i)
    decreases run
  {
    if run != [] {
      StepPreserves(s, run[0]);
      StepConns(s, run[0]);
      if run[0].conn == c {
        LocalWant(s.conns[c], run[0].act, i);
      }
      WantFollowsBalance(Apply(s, run[0]), run[1..], t, c, i);
    }
  }

  /** Balanced calls, nested in any way and interleaved with every other connection, give
      back exactly the locks the connection started with. */
  lemma BalancedCallsRestoreLocks(s0: System, run0: seq<Event>, s: System, run: seq<Event>, t: System, c: ConnId)
    requires Initial(s0) && IsRun(s0, run0, s) && IsRun(s, run, t)
    requires c in s.conns && s.conns[c].phase.Idle?
    requires c in t.conns && t.conns[c].phase.Idle?
    requires forall i | 0 <= i < |s.conns[c].addr| :: Balance(run, c, i) == 0
    ensures t.conns[c] == s.conns[c]
    ensures HeldBy(t.holder, c) == HeldBy(s.holder, c)
  {
    InitialInv(s0);
    Reachable(s0, run0, s);
    Reachable(s, run, t);
    ListStays(s, run, t, c);
    forall i | 0 <= i < |s.conns[c].addr| ensures t.conns[c].want[i] == s.conns[c].want[i] {
      WantFollowsBalance(s, run, t, c, i);
    }
    SameWantSameLocks(s.conns[c], t.conns[c]);
    assert Held(t.conns[c]) == Held(s.conns[c]);
  }

  lemma SameWantSameLocks(c: Conn, d: Conn)
    requires ConnInv(c) && ConnInv(d) && c.phase.Idle? && d.phase.Idle? && c.addr == d.addr
    requires forall i | 0 <= i < |c.addr| :: c.want[i] == d.want[i]
    ensures c == d
  {
    assert c.want == d.want && c.locked == d.locked;
  }

  lemma {:induction false} ListStays(s: System, run: seq<Event>, t: System, c: ConnId)
    requires Inv(s) && IsRun(s, run, t) && c in s.conns
    ensures c in t.conns && t.conns[c].addr == s.conns[c].addr
    decreases run
  {
    if run != [] {
      StepPreserves(s, run[0]);
      ListStays(Apply(s, run[0]), run[1..], t, c);
    }
  }
}
