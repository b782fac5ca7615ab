/** Conditional batches: how a list of statements becomes a transaction, and how the server runs
the steps. The outcome of each executed statement is an argument. */
module HranaBatch {
  import opened Collections

  datatype Stmt = Begin | Commit | Rollback | Write(id: nat)

  datatype Cond =
    | NoCond
    | Ok(step: nat)
    | Error(step: nat)
    | Not(cond: Cond)
    | And(conds: seq<Cond>)
    | Or(conds: seq<Cond>)
    | IsAutocommit

  datatype Step = Step(cond: Option<Cond>, stmt: Stmt)

  // ----- Building -----

  method Transactional(stmts: seq<Stmt>) returns (steps: seq<Step>)
    ensures IsTransactional(steps, stmts)
  {
    steps := [Step(None, Begin)];
    var count := 0;
    while count < |stmts|
      invariant 0 <= count <= |stmts| && |steps| == count + 1
      invariant forall k | 0 <= k < |steps| :: steps[k] == Expected(stmts, k)
    {
      steps := steps + [Step(Some(Ok(count)), stmts[count])];
      count := count + 1;
    }
    steps := steps + [Step(Some(Ok(count)), Commit)];
    steps := steps + [Step(Some(Not(Ok(count + 1))), Rollback)];
  }

  /** BEGIN, the statements each on condition that the step before succeeded, COMMIT likewise,
      and ROLLBACK on condition that COMMIT did not succeed. */
  function Expected(stmts: seq<Stmt>, k: nat): Step {
    if k == 0 then Step(None, Begin)
    else if k <= |stmts| then Step(Some(Ok(k - 1)), stmts[k - 1])
    else if k == |stmts| + 1 then Step(Some(Ok(k - 1)), Commit)
    else Step(Some(Not(Ok(k - 1))), Rollback)
  }

  ghost predicate IsTransactional(steps: seq<Step>, stmts: seq<Stmt>) {
    |steps| == |stmts| + 3 && forall k | 0 <= k < |steps| :: steps[k] == Expected(stmts, k)
  }

  method FromIter(stmts: seq<Stmt>) returns (steps: seq<Step>)
    ensures IsSequence(steps, stmts)
  {
    steps := [];
    var i := 0;
    while i < |stmts|
      invariant 0 <= i == |steps| <= |stmts| && IsSequence(steps, stmts[..i])
    {
      var cond := if i > 0 then Some(Ok(i - 1)) else None;
      steps := steps + [Step(cond, stmts[i])];
      i := i + 1;
    }
    assert stmts[..i] == stmts;
  }

  ghost predicate IsSequence(steps: seq<Step>, stmts: seq<Stmt>) {
    && |steps| == |stmts|
    && forall i | 0 <= i < |steps| :: steps[i] == Step(if i > 0 then Some(Ok(i - 1)) else None, stmts[i])
  }

  // ----- Conditions -----

  /** A condition is accepted for step `i` if it refers to earlier steps only. */
  predicate Accepted(c: Cond, i: nat) {
    match c
    case NoCond => false
    case Ok(s) => s < i
    case Error(s) => s < i
    case Not(d) => Accepted(d, i)
    case And(ds) => forall d | d in ds :: Accepted(d, i)
    case Or(ds) => forall d | d in ds :: Accepted(d, i)
    case IsAutocommit => true
  }

  /** A reference to a step without a result is an error; a step that did not run or failed has
      the result false. */
  function Eval(c: Cond, results: seq<bool>, auto: bool): Option<bool> {
    match c
    case NoCond => None
    case Ok(s) => if s < |results| then Some(results[s]) else None
    case Error(s) => if s < |results| then Some(!results[s]) else None
    case Not(d) =>
      var r := Eval(d, results, auto);
      if r.Some? then Some(!r.value) else None
    case And(ds) =>
      if exists d | d in ds :: Eval(d, results, auto).None? then None
      else Some(forall d | d in ds :: Eval(d, results, auto) == Some(true))
    case Or(ds) =>
      if exists d | d in ds :: Eval(d, results, auto).None? then None
      else Some(exists d | d in ds :: Eval(d, results, auto) == Some(true))
    case IsAutocommit => Some(auto)
  }

  /** An accepted condition always has a value when its step is reached. */
  lemma {:induction false} AcceptedHasValue(c: Cond, results: seq<bool>, auto: bool)
    requires Accepted(c, |results|)
    ensures Eval(c, results, auto).Some?
  {
    match c
    case Not(d) => AcceptedHasValue(d, results, auto);
    case And(ds) =>
      forall d | d in ds ensures Eval(d, results, auto).Some? {
        AcceptedHasValue(d, results, auto);
      }
    case Or(ds) =>
      forall d | d in ds ensures Eval(d, results, auto).Some? {
        AcceptedHasValue(d, results, auto);
      }
    case _ =>
  }

  /** What an accepted condition means: a conjunction is true if and only if each part is, a
      disjunction if and only if one is, the empty ones are true and false, an error is the opposite
      of a success, and the last form asks whether no transaction is open. */
  lemma ConditionMeans(c: Cond, results: seq<bool>, auto: bool)
    requires Accepted(c, |results|)
    ensures Eval(Not(c), results, auto) == Some(Eval(c, results, auto) != Some(true))
    ensures c.Error? ==> Eval(c, results, auto) == Eval(Not(Ok(c.step)), results, auto)
    ensures c.And? ==>
      Eval(c, results, auto) == Some(forall k | 0 <= k < |c.conds| :: Eval(c.conds[k], results, auto) == Some(true))
    ensures c.Or? ==>
      Eval(c, results, auto) == Some(exists k :: 0 <= k < |c.conds| && Eval(c.conds[k], results, auto) == Some(true))
    ensures Eval(And([]), results, auto) == Some(true) && Eval(Or([]), results, auto) == Some(false)
    ensures Eval(IsAutocommit, results, auto) == Some(auto)
  {
    AcceptedHasValue(c, results, auto);
    if c.And? || c.Or? {
      forall d | d in c.conds ensures Eval(d, results, auto).Some? {
        AcceptedHasValue(d, results, auto);
      }
    }
  }

  // ----- Running -----

  /** The writes that are durable, and those of the open transaction on top of them. */
  datatype Db = Db(committed: seq<nat>, txn: Option<seq<nat>>)

  /** Some failures also end the open transaction. */
  datatype Outcome = Works | Fails | FailsAndRollsBack

  function Execute(db: Db, stmt: Stmt, o: Outcome): (Db, bool) {
    if o.FailsAndRollsBack? then (db.(txn := None), false)
    else if o.Fails? then (db, false)
    else match stmt
      case Begin => if db.txn.Some? then (db, false) else (db.(txn := Some(db.committed)), true)
      case Commit => if db.txn.None? then (db, false) else (Db(db.txn.value, None), true)
      case Rollback => if db.txn.None? then (db, false) else (db.(txn := None), true)
      case Write(w) =>
        if db.txn.Some? then (db.(txn := Some(db.txn.value + [w])), true)
        else (db.(committed := db.committed + [w]), true)
  }

  datatype Vm = Vm(db: Db, results: seq<bool>, ran: seq<bool>)

  function Enabled(step: Step, results: seq<bool>, auto: bool): bool {
    step.cond.None? || Eval(step.cond.value, results, auto) == Some(true)
  }

  function TryStep(vm: Vm, step: Step, o: Outcome): Vm {
    if Enabled(step, vm.results, vm.db.txn.None?) then
      var (db, ok) := Execute(vm.db, step.stmt, o);
      Vm(db, vm.results + [ok], vm.ran + [true])
    else Vm(vm.db, vm.results + [false], vm.ran + [false])
  }

  function RunTo(db: Db, steps: seq<Step>, outcomes: seq<Outcome>, k: nat): Vm
    requires k <= |steps| == |outcomes|
  {
    if k == 0 then Vm(db, [], [])
    else TryStep(RunTo(db, steps, outcomes, k - 1), steps[k - 1], outcomes[k - 1])
  }

  method Run(db: Db, steps: seq<Step>, outcomes: seq<Outcome>) returns (vm: Vm)
    requires |steps| == |outcomes|
    ensures vm == RunTo(db, steps, outcomes, |steps|)
  {
    vm := Vm(db, [], []);
    var current := 0;
    while current < |steps|
      invariant 0 <= current <= |steps| && vm == RunTo(db, steps, outcomes, current)
    {
      vm := TryStep(vm, steps[current], outcomes[current]);
      current := current + 1;
    }
  }

  // ----- A transactional batch -----

  predicate AllOk(results: seq<bool>, k: nat)
    requires k <= |results|
  {
    forall j | 0 <= j < k :: results[j]
  }

  /** The writes of a list of statements. */
  function Ids(stmts: seq<Stmt>): seq<nat> {
    if stmts == [] then []
    else
      var last := stmts[|stmts| - 1];
      Ids(stmts[..|stmts| - 1]) + if last.Write? then [last.id] else []
  }

  lemma OneMoreId(stmts: seq<Stmt>, k: nat)
    requires k < |stmts|
    ensures Ids(stmts[..k + 1]) == Ids(stmts[..k]) + if stmts[k].Write? then [stmts[k].id] else []
  {
    assert stmts[..k + 1][..k] == stmts[..k];
  }

  /** Each step ran exactly if all before it succeeded. */
  ghost predicate RanInTurn(vm: Vm, k: nat) {
    && |vm.results| == k == |vm.ran|
    && (forall j | 0 <= j < k :: vm.ran[j] == AllOk(vm.results, j) && (vm.results[j] ==> vm.ran[j]))
    && (k > 0 ==> vm.results[k - 1] == AllOk(vm.results, k))
  }

  lemma OkPrefix(results: seq<bool>, x: bool)
    ensures forall j | 0 <= j <= |results| :: AllOk(results + [x], j) == AllOk(results, j)
    ensures AllOk(results + [x], |results| + 1) == (AllOk(results, |results|) && x)
  {
    forall j | 0 <= j <= |results| ensures AllOk(results + [x], j) == AllOk(results, j) {
      assert forall i | 0 <= i < j :: (results + [x])[i] == results[i];
    }
    assert (results + [x])[|results|] == x;
  }

  lemma InTurnStep(vm: Vm, k: nat, step: Step, o: Outcome)
    requires RanInTurn(vm, k) && (if k == 0 then step.cond.None? else step.cond == Some(Ok(k - 1)))
    ensures RanInTurn(TryStep(vm, step, o), k + 1)
    ensures AllOk(TryStep(vm, step, o).results, k) == AllOk(vm.results, k)
  {
    hide Execute;
    var next := TryStep(vm, step, o);
    assert Enabled(step, vm.results, vm.db.txn.None?) == AllOk(vm.results, k);
    assert next.results == vm.results + [next.results[k]] && next.ran == vm.ran + [AllOk(vm.results, k)];
    assert next.results[k] ==> next.ran[k];
    hide TryStep;
    hide Enabled;
    hide Eval;
    OkPrefix(vm.results, next.results[k]);
    hide AllOk;
    forall j | 0 <= j < k + 1
      ensures next.ran[j] == AllOk(next.results, j) && (next.results[j] ==> next.ran[j])
    {
      assert j < k ==> next.ran[j] == vm.ran[j] && next.results[j] == vm.results[j];
    }
  }

  lemma ConditionOf(stmts: seq<Stmt>, k: nat)
    requires k < |stmts| + 2
    ensures if k == 0 then Expected(stmts, k).cond.None? else Expected(stmts, k).cond == Some(Ok(k - 1))
  {
  }

  /** What ran is a prefix. */
  lemma {:induction false} RunsInTurn(db: Db, stmts: seq<Stmt>, steps: seq<Step>, outcomes: seq<Outcome>, k: nat)
    requires IsTransactional(steps, stmts) && |outcomes| == |steps| && k <= |stmts| + 2
    ensures k <= |steps| && RanInTurn(RunTo(db, steps, outcomes, k), k)
  {
    if k > 0 {
      RunsInTurn(db, stmts, steps, outcomes, k - 1);
      assert steps[k - 1] == Expected(stmts, k - 1);
      ConditionOf(stmts, k - 1);
      hide TryStep;
      hide RanInTurn;
      hide IsTransactional;
      hide Expected;
      InTurnStep(RunTo(db, steps, outcomes, k - 1), k - 1, steps[k - 1], outcomes[k - 1]);
    }
  }

  lemma RollbackStep(vm: Vm, n: nat, o: Outcome)
    requires RanInTurn(vm, n + 2)
    ensures var after := TryStep(vm, Step(Some(Not(Ok(n + 1))), Rollback), o);
      && |after.ran| == |after.results| == n + 3
      && (forall j | 0 <= j < n + 2 :: after.ran[j] <==> AllOk(after.results, j))
      && after.results[n + 1] == vm.results[n + 1]
      && (after.ran[n + 2] <==> !after.results[n + 1])
      && after.db == (if after.ran[n + 2] then Execute(vm.db, Rollback, o).0 else vm.db)
      && (after.results[n + 2] ==> after.ran[n + 2] && Execute(vm.db, Rollback, o).1)
  {
    hide Execute;
    assert Eval(Ok(n + 1), vm.results, vm.db.txn.None?) == Some(vm.results[n + 1]);
    var after := TryStep(vm, Step(Some(Not(Ok(n + 1))), Rollback), o);
    assert forall j | 0 <= j < n + 2 :: after.results[j] == vm.results[j] && after.ran[j] == vm.ran[j];
    assert forall j | 0 <= j <= n + 2 :: AllOk(after.results, j) == AllOk(vm.results, j);
  }

  /** Control flow, for every list of statements and all outcomes: what ran is a prefix, COMMIT
      ran exactly if BEGIN and all statements succeeded, and ROLLBACK ran exactly if COMMIT did
      not succeed. */
  lemma ControlFlow(db: Db, stmts: seq<Stmt>, steps: seq<Step>, outcomes: seq<Outcome>)
    requires IsTransactional(steps, stmts) && |outcomes| == |steps|
    ensures var vm, n := RunTo(db, steps, outcomes, |steps|), |stmts|;
      && |vm.ran| == |vm.results| == n + 3
      && (forall j | 0 <= j < n + 2 :: vm.ran[j] <==> AllOk(vm.results, j))
      && (vm.ran[n + 2] <==> !vm.results[n + 1])
  {
    hide TryStep;
    var n := |stmts|;
    RunsInTurn(db, stmts, steps, outcomes, n + 2);
    RollbackStep(RunTo(db, steps, outcomes, n + 2), n, outcomes[n + 2]);
  }

  lemma BeginStep(db: Db, o: Outcome)
    ensures var vm := TryStep(Vm(db, [], []), Step(None, Begin), o);
      && vm.db.committed == db.committed && |vm.results| == 1
      && (vm.results[0] ==> vm.db.txn == Some(db.committed))
      && (vm.results[0] <==> o.Works? && db.txn.None?)
  {
  }

  lemma CommitStep(vm: Vm, k: nat, o: Outcome)
    requires RanInTurn(vm, k) && k > 0
    ensures var after := TryStep(vm, Step(Some(Ok(k - 1)), Commit), o);
      && |after.results| == k + 1
      && (after.results[k] ==> AllOk(vm.results, k) && vm.db.txn.Some? && after.db == Db(vm.db.txn.value, None))
      && (!after.results[k] ==> after.db.committed == vm.db.committed)
  {
  }

  // ----- Which lists are all or nothing -----

  /** Where the statements of a list lead as long as all of them succeed: in or out of a
      transaction that holds some writes, possibly after rolling some back; stuck at a statement
      that cannot succeed; or to a write that is durable before the batch's own COMMIT. */
  datatype Path = On(inTxn: bool, held: seq<nat>, lost: bool) | Stuck | Escaped

  function Next(p: Path, s: Stmt): Path {
    if !p.On? then p
    else match s
      case Begin => if p.inTxn then Stuck else On(true, [], p.lost)
      case Write(w) => if p.inTxn then On(true, p.held + [w], p.lost) else Escaped
      case Commit => if !p.inTxn then Stuck else if p.held != [] then Escaped else On(false, [], p.lost)
      case Rollback => if !p.inTxn then Stuck else On(false, [], p.lost || p.held != [])
  }

  function Walk(stmts: seq<Stmt>, k: nat): Path
    requires k <= |stmts|
  {
    if k == 0 then On(true, [], false) else Next(Walk(stmts, k - 1), stmts[k - 1])
  }

  /** No write escapes, and COMMIT is not reached with writes rolled back. */
  predicate Contained(stmts: seq<Stmt>) {
    var p := Walk(stmts, |stmts|);
    p.Stuck? || (p.On? && !(p.inTxn && p.lost))
  }

  /** The writes are durable, all of them and in order, if COMMIT succeeded, and none otherwise. */
  ghost predicate AllOrNone(db: Db, stmts: seq<Stmt>, vm: Vm) {
    && |vm.results| == |stmts| + 3
    && vm.db.committed == if vm.results[|stmts| + 1] then db.committed + Ids(stmts) else db.committed
  }

  ghost predicate Atomic(stmts: seq<Stmt>) {
    forall db, steps, outcomes | IsTransactional(steps, stmts) && |outcomes| == |steps| ::
      AllOrNone(db, stmts, RunTo(db, steps, outcomes, |steps|))
  }

  /** What the open transaction holds is what was written, unless some was rolled back. */
  lemma {:induction false} HeldOnPath(stmts: seq<Stmt>, k: nat)
    requires k <= |stmts|
    ensures var p := Walk(stmts, k);
      p.On? ==> if p.lost then |p.held| < |Ids(stmts[..k])| else p.held == Ids(stmts[..k])
  {
    if k == 0 {
      assert stmts[..0] == [];
    } else {
      HeldOnPath(stmts, k - 1);
      OneMoreId(stmts, k - 1);
    }
  }

  function HeldDb(db: Db, p: Path): Db
    requires p.On?
  {
    Db(db.committed, if p.inTxn then Some(db.committed + p.held) else None)
  }

  /** The machine is on the path, or has failed with nothing durable. */
  ghost predicate OnPath(db: Db, p: Path, vm: Vm, k: nat) {
    && RanInTurn(vm, k)
    && (p.Escaped? ||
        if AllOk(vm.results, k) then p.On? && vm.db == HeldDb(db, p) else vm.db.committed == db.committed)
  }

  lemma PathStep(db: Db, p: Path, vm: Vm, k: nat, s: Stmt, o: Outcome)
    requires OnPath(db, p, vm, k) && k > 0
    ensures OnPath(db, Next(p, s), TryStep(vm, Step(Some(Ok(k - 1)), s), o), k + 1)
    ensures AllOk(vm.results, k) && o.Works? && Next(p, s).On? ==> AllOk(TryStep(vm, Step(Some(Ok(k - 1)), s), o).results, k + 1)
  {
    var step := Step(Some(Ok(k - 1)), s);
    InTurnStep(vm, k, step, o);
    var after := TryStep(vm, step, o);
    assert after.results[k] == AllOk(after.results, k + 1);
    hide RanInTurn;
    if p.On? && AllOk(vm.results, k) && o.Works? {
      assert vm.db.txn.Some? && s.Write? ==> db.committed + (p.held + [s.id]) == vm.db.txn.value + [s.id];
      assert db.committed + [] == db.committed;
    }
  }

  lemma PathStart(db: Db, o: Outcome)
    ensures var vm := TryStep(Vm(db, [], []), Step(None, Begin), o);
      OnPath(db, On(true, [], false), vm, 1) && (db.txn.None? && o.Works? ==> AllOk(vm.results, 1))
  {
    InTurnStep(Vm(db, [], []), 0, Step(None, Begin), o);
    BeginStep(db, o);
    assert db.committed + [] == db.committed;
  }

  lemma OnlyFromOn(p: Path, s: Stmt)
    ensures Next(p, s).On? ==> p.On?
  {
  }

  predicate WorkTo(outcomes: seq<Outcome>, k: nat)
    requires k <= |outcomes|
  {
    forall j | 0 <= j < k :: outcomes[j].Works?
  }

  lemma WorkLast(outcomes: seq<Outcome>, k: nat)
    requires 0 < k <= |outcomes|
    ensures WorkTo(outcomes, k) ==> WorkTo(outcomes, k - 1) && outcomes[k - 1].Works?
  {
  }

  lemma {:induction false} StaysOnPath(db: Db, stmts: seq<Stmt>, steps: seq<Step>, outcomes: seq<Outcome>, k: nat)
    requires IsTransactional(steps, stmts) && |outcomes| == |steps| && 1 <= k <= |stmts| + 1
    ensures OnPath(db, Walk(stmts, k - 1), RunTo(db, steps, outcomes, k), k)
    ensures db.txn.None? && WorkTo(outcomes, k) && Walk(stmts, k - 1).On? ==> AllOk(RunTo(db, steps, outcomes, k).results, k)
  {
    assert steps[k - 1] == Expected(stmts, k - 1);
    WorkLast(outcomes, k);
    hide WorkTo;
    hide TryStep;
    if k == 1 {
      PathStart(db, outcomes[0]);
      assert RunTo(db, steps, outcomes, 0) == Vm(db, [], []);
    } else {
      StaysOnPath(db, stmts, steps, outcomes, k - 1);
      assert steps[k - 1] == Step(Some(Ok(k - 2)), stmts[k - 2]);
      hide IsTransactional;
      hide Expected;
      hide OnPath;
      hide AllOk;
      hide Next;
      var p, vm := Walk(stmts, k - 2), RunTo(db, steps, outcomes, k - 1);
      assert RunTo(db, steps, outcomes, k) == TryStep(vm, steps[k - 1], outcomes[k - 1]);
      assert Walk(stmts, k - 1) == Next(p, stmts[k - 2]);
      hide RunTo;
      hide Walk;
      PathStep(db, p, vm, k - 1, stmts[k - 2], outcomes[k - 1]);
      OnlyFromOn(p, stmts[k - 2]);
    }
  }

  lemma CommitAtTheEnd(db: Db, stmts: seq<Stmt>, vm: Vm, o: Outcome)
    requires OnPath(db, Walk(stmts, |stmts|), vm, |stmts| + 1) && Contained(stmts)
    ensures var after, n := TryStep(vm, Step(Some(Ok(|stmts|)), Commit), o), |stmts|;
      && |after.results| == n + 2
      && after.db.committed == (if after.results[n + 1] then db.committed + Ids(stmts) else db.committed)
      && (after.results[n + 1] ==> after.db.txn.None?)
  {
    HeldOnPath(stmts, |stmts|);
    assert stmts[..|stmts|] == stmts;
    hide TryStep;
    CommitStep(vm, |stmts| + 1, o);
  }

  lemma LastTwoSteps(db: Db, stmts: seq<Stmt>, vm: Vm, o: Outcome, o': Outcome)
    requires OnPath(db, Walk(stmts, |stmts|), vm, |stmts| + 1) && Contained(stmts)
    ensures
      var n := |stmts|;
      var after := TryStep(TryStep(vm, Step(Some(Ok(n)), Commit), o), Step(Some(Not(Ok(n + 1))), Rollback), o');
      && AllOrNone(db, stmts, after)
      && (after.results[n + 1] || after.results[n + 2] ==> after.db.txn.None?)
  {
    var n := |stmts|;
    InTurnStep(vm, n + 1, Step(Some(Ok(n)), Commit), o);
    CommitAtTheEnd(db, stmts, vm, o);
    var b := TryStep(vm, Step(Some(Ok(n)), Commit), o);
    hide TryStep;
    hide OnPath;
    hide RanInTurn;
    hide Ids;
    hide Execute;
    hide Walk;
    RollbackStep(b, n, o');
    RollbackDrops(b.db, o');
  }

  lemma RollbackDrops(db: Db, o: Outcome)
    ensures Execute(db, Rollback, o).0.committed == db.committed
    ensures db.txn.None? || Execute(db, Rollback, o).1 ==> Execute(db, Rollback, o).0.txn.None?
  {
  }

  lemma ContainedIsAtomic(db: Db, stmts: seq<Stmt>, steps: seq<Step>, outcomes: seq<Outcome>)
    requires IsTransactional(steps, stmts) && |outcomes| == |steps| && Contained(stmts)
    ensures AllOrNone(db, stmts, RunTo(db, steps, outcomes, |steps|))
    ensures var vm, n := RunTo(db, steps, outcomes, |steps|), |stmts|;
      vm.results[n + 1] || vm.results[n + 2] ==> vm.db.txn.None?
  {
    var n := |stmts|;
    assert |steps| == n + 3 && steps[n + 1] == Step(Some(Ok(n)), Commit) && steps[n + 2] == Step(Some(Not(Ok(n + 1))), Rollback);
    StaysOnPath(db, stmts, steps, outcomes, n + 1);
    hide IsTransactional;
    hide TryStep;
    hide OnPath;
    hide AllOrNone;
    hide Contained;
    LastTwoSteps(db, stmts, RunTo(db, steps, outcomes, n + 1), outcomes[n + 1], outcomes[n + 2]);
    assert RunTo(db, steps, outcomes, n + 2) == TryStep(RunTo(db, steps, outcomes, n + 1), steps[n + 1], outcomes[n + 1]);
    assert RunTo(db, steps, outcomes, n + 3) == TryStep(RunTo(db, steps, outcomes, n + 2), steps[n + 2], outcomes[n + 2]);
    assert AllOrNone(db, stmts, RunTo(db, steps, outcomes, n + 3));
    ResultsLength(db, steps, outcomes, n + 3);
  }

  lemma {:induction false} EscapesSomewhere(stmts: seq<Stmt>, k: nat) returns (m: nat)
    requires k <= |stmts| && Walk(stmts, k).Escaped?
    ensures m < k && Walk(stmts, m).On? && Walk(stmts, m + 1).Escaped?
  {
    if Walk(stmts, k - 1).On? {
      m := k - 1;
    } else {
      m := EscapesSomewhere(stmts, k - 1);
    }
  }

  /** The step that lets writes escape changes what is durable. */
  lemma EscapeStep(p: Path, vm: Vm, k: nat, s: Stmt)
    requires RanInTurn(vm, k) && k > 0 && p.On? && Next(p, s).Escaped? && AllOk(vm.results, k)
    requires vm.db == HeldDb(Db([], None), p)
    ensures TryStep(vm, Step(Some(Ok(k - 1)), s), Works).db.committed != []
  {
    var none: seq<nat> := [];
    assert none + p.held == p.held;
  }

  /** From here on everything fails. */
  lemma {:induction false} FailsFrom(db: Db, steps: seq<Step>, outcomes: seq<Outcome>, k: nat, j: nat)
    requires k <= j <= |steps| == |outcomes| && forall i | k <= i < j :: outcomes[i].Fails?
    ensures RunTo(db, steps, outcomes, j).db == RunTo(db, steps, outcomes, k).db
    ensures |RunTo(db, steps, outcomes, j).results| == j && forall i | k <= i < j :: !RunTo(db, steps, outcomes, j).results[i]
  {
    if j == k {
      ResultsLength(db, steps, outcomes, k);
    } else {
      FailsFrom(db, steps, outcomes, k, j - 1);
    }
  }

  lemma {:induction false} ResultsLength(db: Db, steps: seq<Step>, outcomes: seq<Outcome>, k: nat)
    requires k <= |steps| == |outcomes|
    ensures |RunTo(db, steps, outcomes, k).results| == k
  {
    if k > 0 {
      ResultsLength(db, steps, outcomes, k - 1);
    }
  }

  function WorksUntil(k: nat, n: nat): seq<Outcome> {
    seq(n, i => if i < k then Works else Fails)
  }

  /** The state before the step, reached without a failure. */
  lemma ReachesIt(stmts: seq<Stmt>, steps: seq<Step>, outcomes: seq<Outcome>, m: nat) returns (vm: Vm)
    requires IsTransactional(steps, stmts) && |outcomes| == |steps| && m <= |stmts|
    requires Walk(stmts, m).On? && WorkTo(outcomes, m + 1)
    ensures vm == RunTo(Db([], None), steps, outcomes, m + 1) && RanInTurn(vm, m + 1)
    ensures AllOk(vm.results, m + 1) && vm.db == HeldDb(Db([], None), Walk(stmts, m))
  {
    vm := RunTo(Db([], None), steps, outcomes, m + 1);
    StaysOnPath(Db([], None), stmts, steps, outcomes, m + 1);
    assert RanInTurn(vm, m + 1);
    hide RunTo;
    hide Walk;
  }

  /** The statement that commits works, and nothing after it. */
  lemma EscapesOnce(stmts: seq<Stmt>, steps: seq<Step>, outcomes: seq<Outcome>, m: nat)
    requires IsTransactional(steps, stmts) && |outcomes| == |steps| && m < |stmts| && WorkTo(outcomes, m + 2)
    requires Walk(stmts, m).On? && Next(Walk(stmts, m), stmts[m]).Escaped?
    ensures RunTo(Db([], None), steps, outcomes, m + 2).db.committed != []
  {
    assert steps[m + 1] == Step(Some(Ok(m)), stmts[m]);
    assert WorkTo(outcomes, m + 1) && outcomes[m + 1] == Works;
    var vm := ReachesIt(stmts, steps, outcomes, m);
    assert RunTo(Db([], None), steps, outcomes, m + 2) == TryStep(vm, steps[m + 1], outcomes[m + 1]);
    hide *;
    EscapeStep(Walk(stmts, m), vm, m + 1, stmts[m]);
  }

  lemma EscapedIsNot(stmts: seq<Stmt>, steps: seq<Step>)
    requires IsTransactional(steps, stmts) && Walk(stmts, |stmts|).Escaped?
    ensures !Atomic(stmts)
  {
    var m := EscapesSomewhere(stmts, |stmts|);
    var db, n := Db([], None), |stmts| + 3;
    var outcomes := WorksUntil(m + 2, n);
    assert WorkTo(outcomes, m + 2) && forall i | m + 2 <= i < n :: outcomes[i].Fails?;
    EscapesOnce(stmts, steps, outcomes, m);
    FailsFrom(db, steps, outcomes, m + 2, n);
    hide WorksUntil;
    hide WorkTo;
    hide Walk;
    hide RunTo;
    assert !AllOrNone(db, stmts, RunTo(db, steps, outcomes, |steps|));
  }

  lemma CommitsTheRest(p: Path, vm: Vm, k: nat)
    requires OnPath(Db([], None), p, vm, k) && k > 0 && AllOk(vm.results, k) && p.On? && p.inTxn
    ensures var after := TryStep(vm, Step(Some(Ok(k - 1)), Commit), Works);
      RanInTurn(after, k + 1) && after.results[k] && after.db.committed == p.held
  {
    InTurnStep(vm, k, Step(Some(Ok(k - 1)), Commit), Works);
    var none: seq<nat> := [];
    assert none + p.held == p.held;
  }

  lemma LostIsNot(stmts: seq<Stmt>, steps: seq<Step>)
    requires IsTransactional(steps, stmts)
    requires var p := Walk(stmts, |stmts|); p.On? && p.inTxn && p.lost
    ensures !Atomic(stmts)
  {
    var db, n := Db([], None), |stmts|;
    var outcomes := WorksUntil(n + 3, n + 3);
    StaysOnPath(db, stmts, steps, outcomes, n + 1);
    HeldOnPath(stmts, n);
    assert stmts[..n] == stmts;
    assert steps[n + 1] == Step(Some(Ok(n)), Commit) && steps[n + 2] == Step(Some(Not(Ok(n + 1))), Rollback);
    hide TryStep;
    hide OnPath;
    CommitsTheRest(Walk(stmts, n), RunTo(db, steps, outcomes, n + 1), n + 1);
    hide RanInTurn;
    hide Execute;
    var vm := RunTo(db, steps, outcomes, n + 3);
    assert vm == TryStep(RunTo(db, steps, outcomes, n + 2), steps[n + 2], outcomes[n + 2]);
    RollbackStep(RunTo(db, steps, outcomes, n + 2), n, outcomes[n + 2]);
    hide RunTo;
    hide Walk;
    hide Ids;
    var none: seq<nat> := [];
    assert none + Ids(stmts) == Ids(stmts);
    assert !AllOrNone(db, stmts, vm);
  }

  /** A list of statements, of any kind, is all or nothing under all outcomes if and only if it is
      contained. */
  lemma AtomicExactly(stmts: seq<Stmt>)
    ensures Atomic(stmts) <==> Contained(stmts)
  {
    if Contained(stmts) {
      forall db, steps, outcomes | IsTransactional(steps, stmts) && |outcomes| == |steps|
        ensures AllOrNone(db, stmts, RunTo(db, steps, outcomes, |steps|))
      {
        ContainedIsAtomic(db, stmts, steps, outcomes);
      }
    } else {
      var steps := seq(|stmts| + 3, k requires k >= 0 => Expected(stmts, k));
      if Walk(stmts, |stmts|).Escaped? {
        EscapedIsNot(stmts, steps);
      } else {
        LostIsNot(stmts, steps);
      }
    }
  }

  /** Writes alone are contained. */
  lemma {:induction false} WritesAreContained(stmts: seq<Stmt>, k: nat)
    requires k <= |stmts| && forall i | 0 <= i < k :: stmts[i].Write?
    ensures Walk(stmts, k).On? && Walk(stmts, k).inTxn && !Walk(stmts, k).lost
    ensures k == |stmts| ==> Atomic(stmts)
  {
    if k > 0 {
      WritesAreContained(stmts, k - 1);
    }
    if k == |stmts| {
      AtomicExactly(stmts);
    }
  }

  /** A write followed by a COMMIT of its own is not. */
  lemma OwnCommitEscapes(w: nat)
    ensures !Atomic([Write(w), Commit])
  {
    var stmts := [Write(w), Commit];
    assert Walk(stmts, 0) == On(true, [], false);
    assert Walk(stmts, 1).held == [w];
    assert Walk(stmts, 2) == Escaped;
    AtomicExactly(stmts);
  }

  // ----- A plain sequence -----

  /** How many results from the first on are successes. */
  function Successes(results: seq<bool>): (n: nat)
    ensures n <= |results| && AllOk(results, n) && (n < |results| ==> !results[n])
  {
    if results == [] || !results[0] then 0
    else
      var n := Successes(results[1..]);
      assert forall j | 0 < j < n + 1 :: results[j] == results[1..][j - 1];
      n + 1
  }

  lemma SuccessesOf(results: seq<bool>, n: nat)
    requires n <= |results| && AllOk(results, n) && (n < |results| ==> !results[n])
    ensures Successes(results) == n
  {
  }

  lemma AnotherResult(results: seq<bool>, ok: bool)
    ensures Successes(results + [ok]) ==
      if ok && AllOk(results, |results|) then |results| + 1 else Successes(results)
  {
    var n := Successes(results);
    hide Successes;
    assert n < |results| ==> (results + [ok])[n] == results[n];
    if ok && AllOk(results, |results|) {
      SuccessesOf(results + [ok], |results| + 1);
    } else {
      SuccessesOf(results + [ok], n);
    }
  }

  /** Outside a transaction a write is durable as soon as it succeeds. */
  lemma DurableStep(vm: Vm, k: nat, cond: Option<Cond>, w: nat, o: Outcome)
    requires RanInTurn(vm, k) && vm.db.txn.None? && cond == if k > 0 then Some(Ok(k - 1)) else None
    ensures var after := TryStep(vm, Step(cond, Write(w)), o);
      && RanInTurn(after, k + 1) && after.db.txn.None?
      && after.results[k] == AllOk(after.results, k + 1) && (after.results[k] ==> AllOk(vm.results, k))
      && after.results == vm.results + [after.results[k]]
      && after.db.committed == (if after.results[k] then vm.db.committed + [w] else vm.db.committed)
  {
    InTurnStep(vm, k, Step(cond, Write(w)), o);
  }

  lemma SequenceStep(committed: seq<nat>, stmts: seq<Stmt>, vm: Vm, k: nat, cond: Option<Cond>, o: Outcome)
    requires k < |stmts| && stmts[k].Write? && RanInTurn(vm, k) && cond == if k > 0 then Some(Ok(k - 1)) else None
    requires vm.db == Db(committed + Ids(stmts[..Successes(vm.results)]), None)
    ensures var after := TryStep(vm, Step(cond, stmts[k]), o);
      && RanInTurn(after, k + 1)
      && after.db == Db(committed + Ids(stmts[..Successes(after.results)]), None)
  {
    var after, w := TryStep(vm, Step(cond, stmts[k]), o), stmts[k].id;
    DurableStep(vm, k, cond, w, o);
    assert |vm.results| == k && |after.results| == k + 1;
    hide TryStep;
    hide RanInTurn;
    hide Ids;
    AnotherResult(vm.results, after.results[k]);
    hide Successes;
    if AllOk(vm.results, k) {
      SuccessesOf(vm.results, k);
      OneMoreId(stmts, k);
      assert committed + (Ids(stmts[..k]) + [w]) == committed + Ids(stmts[..k]) + [w];
    }
  }

  /** Outside a transaction, a plain sequence makes durable exactly the statements before the
      first that fails. */
  lemma {:induction false} SequenceStopsAtFailure(db: Db, stmts: seq<Stmt>, steps: seq<Step>, outcomes: seq<Outcome>, k: nat)
    requires IsSequence(steps, stmts) && |outcomes| == |steps| && k <= |stmts|
    requires db.txn.None? && forall s | s in stmts :: s.Write?
    ensures var vm := RunTo(db, steps, outcomes, k);
      && RanInTurn(vm, k) && vm.db == Db(db.committed + Ids(stmts[..Successes(vm.results)]), None)
  {
    if k == 0 {
      assert db.committed + Ids(stmts[..0]) == db.committed;
    } else {
      SequenceStopsAtFailure(db, stmts, steps, outcomes, k - 1);
      hide TryStep;
      hide Successes;
      hide Ids;
      assert stmts[k - 1] in stmts;
      SequenceStep(db.committed, stmts, RunTo(db, steps, outcomes, k - 1), k - 1, steps[k - 1].cond, outcomes[k - 1]);
    }
  }
}
