/**
  The gc master, its pool of workers and the whole store together: scans find pending
  versions, each task is queued once at the worker its hash selects, and workers handle
  tasks in two transactions. The guards that the deletion protocol needs are shown to hold
  when scans are fresh.
 */
module GcSystem {
  import opened Bytes
  import opened Codec
  import opened Keys
  import opened Values
  import opened Store
  import opened Gc
  import opened GcWorker
  import opened GcRuns
  import opened Invariants

  /** Its gc-version key is stored. */
  predicate Marked(b: Block, t: GcTask) {
    GcVersion(t.version) in b && b[GcVersion(t.version)] == TypeTag(t.kind)
  }

  predicate Pending(kv: Map, t: GcTask) {
    Marked(BlockOf(kv, t.userKey), t)
  }

  /** The number of workers, the capacity of their queues, and the hash that tasks are dispatched by. */
  datatype AnyPool = Pool(size: nat, capacity: nat, owner: GcTask -> nat)

  type Pool = p: AnyPool | p.size > 0 && p.capacity > 0 witness Pool(1, 1, _ => 0)

  /** The worker a task is dispatched to. */
  function Home(pool: Pool, t: GcTask): (i: nat)
    ensures i < pool.size
  {
    pool.owner(t) % pool.size
  }

  datatype System = System(kv: Map, workers: seq<WorkerState>)

  datatype Move =
    | Command(k: bytes, steps: seq<Step>)  // a client's transaction on one user key
    | Found(task: GcTask)                  // the master's scan returned its gc-version key
    | Take(worker: nat)                    // a worker receives its next task
    | PurgeData(worker: nat)               // its first transaction
    | ForgetVersion(worker: nat)           // its second transaction
    | Release(worker: nat)                 // the task is done and no longer known
    | Fail(worker: nat)                    // either transaction gave up

  /** What clients do: commands on collections, and strings written where there is no collection. */
  predicate Client(b: Block, steps: seq<Step>) {
    GuardedRun(b, steps) && forall i :: 0 <= i < |steps| ==> IsCommand(steps[i]) || steps[i].SetString?
  }

  /** A scan is fresh if what it found is still stored when it is queued. */
  predicate Fresh(s: System, m: Move) {
    match m
    case Command(k, steps) => Client(BlockOf(s.kv, k), steps)
    case Found(t) => Pending(s.kv, t)
    case _ => true
  }

  function Stepped(kv: Map, k: bytes, steps: seq<Step>): Map {
    WithBlock(kv, k, Run(BlockOf(kv, k), steps))
  }

  function PurgeOf(t: GcTask): Step {
    Purge(t.kind, t.version)
  }

  function ClearOf(t: GcTask): Step {
    ClearGc(t.version)
  }

  /** The one master goes on only when no worker makes it wait. */
  predicate MasterFree(s: System) {
    forall i :: 0 <= i < |s.workers| ==> s.workers[i].waiting.None?
  }

  function With(s: System, i: nat, w: WorkerState): System
    requires i < |s.workers|
  {
    s.(workers := s.workers[i := w])
  }

  function Next(s: System, m: Move, pool: Pool): (r: System)
    requires |s.workers| == pool.size
    ensures |r.workers| == |s.workers|
  {
    match m
    case Command(k, steps) => s.(kv := Stepped(s.kv, k, steps))
    case Found(t) =>
      if MasterFree(s) then With(s, Home(pool, t), Add(s.workers[Home(pool, t)], t, pool.capacity)) else s
    case Take(i) => if i < |s.workers| then With(s, i, Receive(s.workers[i])) else s
    case PurgeData(i) =>
      if i < |s.workers| && s.workers[i].phase.Taken? then
        var t := s.workers[i].phase.task;
        With(s, i, DataGone(s.workers[i])).(kv := Stepped(s.kv, t.userKey, [PurgeOf(t)]))
      else s
    case ForgetVersion(i) =>
      if i < |s.workers| && s.workers[i].phase.Purged? then
        var t := s.workers[i].phase.task;
        With(s, i, Forgotten(s.workers[i])).(kv := Stepped(s.kv, t.userKey, [ClearOf(t)]))
      else s
    case Release(i) => if i < |s.workers| then With(s, i, Finish(s.workers[i])) else s
    case Fail(i) => if i < |s.workers| then With(s, i, GiveUp(s.workers[i])) else s
  }

  function NextAll(s: System, moves: seq<Move>, pool: Pool): (r: System)
    requires |s.workers| == pool.size
    ensures |r.workers| == |s.workers|
    decreases |moves|
  {
    if moves == [] then s else NextAll(Next(s, moves[0], pool), moves[1..], pool)
  }

  ghost predicate AllFresh(s: System, moves: seq<Move>, pool: Pool)
    requires |s.workers| == pool.size
    decreases |moves|
  {
    moves == [] || (Fresh(s, moves[0]) && AllFresh(Next(s, moves[0], pool), moves[1..], pool))
  }

  // ----- the invariant -----

  /** The worker has the task and has not purged it yet. */
  predicate Holds(w: WorkerState, t: GcTask) {
    t in w.queue || w.phase == Taken(t) || w.waiting == Some(t)
  }

  /** It holds each task once, and a sender waits only at a full queue. */
  ghost predicate WorkerShape(w: WorkerState, capacity: nat) {
    && |w.queue| <= capacity && (forall x, y :: 0 <= x < y < |w.queue| ==> w.queue[x] != w.queue[y])
    && (!w.phase.Idle? ==> w.phase.task !in w.queue && TaskBytes(w.phase.task) in w.known)
    && (w.waiting.Some? ==> w.waiting.value !in w.queue && |w.queue| == capacity)
    && (w.waiting.Some? && !w.phase.Idle? ==> w.waiting.value != w.phase.task)
  }

  /** Worker `i`: all its tasks are known and were dispatched to it, and those it holds are pending. */
  ghost predicate WorkerInv(kv: Map, w: WorkerState, i: nat, pool: Pool) {
    && WorkerShape(w, pool.capacity)
    && (forall t :: Holds(w, t) ==> TaskBytes(t) in w.known && Pending(kv, t) && Home(pool, t) == i)
    && (!w.phase.Idle? ==> Home(pool, w.phase.task) == i)
  }

  ghost predicate OneWaits(s: System) {
    forall i, j :: 0 <= i < j < |s.workers| ==> s.workers[i].waiting.None? || s.workers[j].waiting.None?
  }

  ghost predicate SystemInv(s: System, pool: Pool) {
    && |s.workers| == pool.size && OneWaits(s)
    && (forall k: bytes :: VersionInv(BlockOf(s.kv, k)))
    && (forall i :: 0 <= i < |s.workers| ==> WorkerInv(s.kv, s.workers[i], i, pool))
  }

  // ----- one transaction -----

  lemma SteppedBlock(kv: Map, k: bytes, steps: seq<Step>, other: bytes)
    ensures BlockOf(Stepped(kv, k, steps), other)
            == if other == k then Run(BlockOf(kv, k), steps) else BlockOf(kv, other)
  {
    hide BlockOf, WithBlock, Run;
    BlockOfWithBlock(kv, k, Run(BlockOf(kv, k), steps), other);
  }

  lemma RunOne(b: Block, step: Step)
    ensures Run(b, [step]) == Apply(b, step).0
  {
    hide Apply;
    assert [step][1..] == [];
  }

  /** Clients never remove a pending mark. */
  lemma {:induction false} ClientKeepsMarks(b: Block, steps: seq<Step>, t: GcTask)
    requires VersionInv(b) && Marked(b, t) && Client(b, steps)
    ensures Marked(Run(b, steps), t)
    decreases |steps|
  {
    hide VersionInv, Apply, Marked, Guard;
    if steps != [] {
      StepKeepsMark(b, steps[0], t);
      StepRefines(b, steps[0]);
      ClientKeepsMarks(Apply(b, steps[0]).0, steps[1..], t);
    }
  }

  lemma StepKeepsMark(b: Block, step: Step, t: GcTask)
    requires VersionInv(b) && (IsCommand(step) || step.SetString?) && Marked(b, t)
    ensures Marked(Apply(b, step).0, t)
  {
  }

  /** A task that is pending has a version that is not live, so its purge is guarded. */
  lemma PendingIsGuarded(b: Block, t: GcTask)
    requires VersionInv(b) && Marked(b, t)
    ensures Guard(b, PurgeOf(t))
  {
  }

  lemma ClearGuarded(b: Block, t: GcTask)
    ensures Guard(b, ClearOf(t))
  {
  }

  /** Purging one task leaves the marks of all others. */
  lemma PurgeKeepsMark(b: Block, t: GcTask, u: GcTask)
    requires Marked(b, t) && Marked(b, u) && t.userKey == u.userKey && t != u
    ensures Marked(Apply(b, PurgeOf(t)).0, u)
  {
  }

  lemma ClearKeepsMark(b: Block, t: GcTask, u: GcTask)
    requires Marked(b, u)
    ensures Marked(Apply(b, ClearOf(t)).0, u)
  {
  }

  /** A guarded gc transaction changes nothing that clients see, of any key. */
  lemma GcStep(kv: Map, k: bytes, step: Step)
    requires forall x: bytes :: VersionInv(BlockOf(kv, x))
    requires (step.Purge? || step.ClearGc?) && Guard(BlockOf(kv, k), step)
    ensures forall x: bytes :: var c := BlockOf(Stepped(kv, k, [step]), x);
              VersionInv(c) && See(c) == See(BlockOf(kv, x))
    ensures BlockOf(Stepped(kv, k, [step]), k) == Apply(BlockOf(kv, k), step).0
    ensures forall x: bytes :: x != k ==> BlockOf(Stepped(kv, k, [step]), x) == BlockOf(kv, x)
  {
    hide BlockOf, VersionInv, See, Stepped, Run, Apply, Guard;
    RunOne(BlockOf(kv, k), step);
    GcRefines(BlockOf(kv, k), step);
    forall x: bytes
      ensures VersionInv(BlockOf(Stepped(kv, k, [step]), x))
      ensures See(BlockOf(Stepped(kv, k, [step]), x)) == See(BlockOf(kv, x))
      ensures x != k ==> BlockOf(Stepped(kv, k, [step]), x) == BlockOf(kv, x)
    {
      SteppedBlock(kv, k, [step], x);
    }
    SteppedBlock(kv, k, [step], k);
  }

  /** A client shows on its own key what its accepted steps do, and on no other key anything. */
  lemma CommandStep(kv: Map, k: bytes, steps: seq<Step>, x: bytes)
    requires forall y: bytes :: VersionInv(BlockOf(kv, y))
    requires Client(BlockOf(kv, k), steps)
    ensures var c := BlockOf(Stepped(kv, k, steps), x); var b := BlockOf(kv, x);
            VersionInv(c) && See(c) == if x == k then IdealRun(See(b), Done(b, steps)) else See(b)
  {
    hide BlockOf, VersionInv, See, Stepped, Run, Done, IdealRun, GuardedRun;
    SteppedBlock(kv, k, steps, x);
    if x == k {
      RunRefines(BlockOf(kv, k), steps);
    }
  }

  // ----- the workers -----

  /** A worker's part of the invariant outlives a transaction that keeps the marks it relies on. */
  lemma WorkerFrame(kv: Map, after: Map, w: WorkerState, i: nat, pool: Pool)
    requires WorkerInv(kv, w, i, pool) && forall u :: Holds(w, u) && Pending(kv, u) ==> Pending(after, u)
    ensures WorkerInv(after, w, i, pool)
  {
    hide Pending, TaskBytes, Home, WorkerShape;
  }

  /** Where a worker's tasks go in each of its own moves. */
  lemma AddHolds(w: WorkerState, t: GcTask, capacity: nat)
    requires WorkerShape(w, capacity) && (Holds(w, t) ==> TaskBytes(t) in w.known)
    ensures WorkerShape(Add(w, t, capacity), capacity) && Add(w, t, capacity).phase == w.phase
    ensures forall u :: Holds(Add(w, t, capacity), u) ==> Holds(w, u) || u == t
    ensures forall u :: Holds(w, u) ==> Holds(Add(w, t, capacity), u)
    ensures Add(w, t, capacity).known == if w.waiting.Some? then w.known else w.known + {TaskBytes(t)}
  {
    hide TaskBytes;
    var q := w.queue + [t];
    assert forall u :: u in q <==> u in w.queue || u == t;
  }

  lemma ReceiveHolds(w: WorkerState, capacity: nat)
    requires WorkerShape(w, capacity) && forall t :: Holds(w, t) ==> TaskBytes(t) in w.known
    ensures WorkerShape(Receive(w), capacity)
    ensures forall u :: Holds(Receive(w), u) <==> Holds(w, u)
  {
    hide TaskBytes;
    if w.phase.Idle? && w.queue != [] {
      var rest := w.queue[1..];
      assert forall u :: u in rest ==> u in w.queue;
      assert w.queue[0] in w.queue && w.queue[0] !in rest;
      assert w.queue == [w.queue[0]] + rest;
      var r := Receive(w);
      assert forall u :: u in r.queue <==> u in rest || w.waiting == Some(u);
    }
  }

  /** Purging one task leaves every other task pending. */
  lemma PurgeLeavesOthers(kv: Map, t: GcTask, u: GcTask)
    requires Pending(kv, t) && Pending(kv, u) && t != u
    ensures Pending(Stepped(kv, t.userKey, [PurgeOf(t)]), u)
  {
    hide BlockOf, Stepped, Run, Apply, Marked;
    SteppedBlock(kv, t.userKey, [PurgeOf(t)], u.userKey);
    RunOne(BlockOf(kv, t.userKey), PurgeOf(t));
    if u.userKey == t.userKey {
      PurgeKeepsMark(BlockOf(kv, t.userKey), t, u);
    }
  }

  /** ... and that task not. */
  lemma PurgeEndsPending(kv: Map, t: GcTask)
    ensures !Pending(Stepped(kv, t.userKey, [PurgeOf(t)]), t)
  {
    hide BlockOf, Stepped, Run;
    SteppedBlock(kv, t.userKey, [PurgeOf(t)], t.userKey);
    RunOne(BlockOf(kv, t.userKey), PurgeOf(t));
  }

  lemma ClearLeavesMarks(kv: Map, t: GcTask, u: GcTask)
    requires Pending(kv, u)
    ensures Pending(Stepped(kv, t.userKey, [ClearOf(t)]), u)
  {
    hide BlockOf, Stepped, Run, Apply, Marked;
    SteppedBlock(kv, t.userKey, [ClearOf(t)], u.userKey);
    RunOne(BlockOf(kv, t.userKey), ClearOf(t));
    if u.userKey == t.userKey {
      ClearKeepsMark(BlockOf(kv, t.userKey), t, u);
    }
  }

  lemma ClientLeavesMarks(kv: Map, k: bytes, steps: seq<Step>, u: GcTask)
    requires Pending(kv, u) && VersionInv(BlockOf(kv, u.userKey)) && Client(BlockOf(kv, k), steps)
    ensures Pending(Stepped(kv, k, steps), u)
  {
    hide BlockOf, Stepped, Run, Marked, VersionInv, Client;
    SteppedBlock(kv, k, steps, u.userKey);
    if u.userKey == k {
      ClientKeepsMarks(BlockOf(kv, k), steps, u);
    }
  }

  // ----- every move -----

  /** The one move that ends a task's being pending: the purge by a worker that has taken it. */
  predicate Purges(s: System, m: Move, t: GcTask) {
    m.PurgeData? && m.worker < |s.workers| && s.workers[m.worker].phase == Taken(t)
  }

  lemma PendingUnlessCollected(s: System, m: Move, t: GcTask, pool: Pool)
    requires SystemInv(s, pool) && Fresh(s, m) && Pending(s.kv, t)
    ensures Pending(Next(s, m, pool).kv, t) <==> !Purges(s, m, t)
  {
    hide BlockOf, Stepped, Pending, VersionInv, Home, Client, WorkerShape;
    match m {
      case Command(k, steps) => ClientLeavesMarks(s.kv, k, steps, t);
      case PurgeData(i) =>
        if i < |s.workers| && s.workers[i].phase.Taken? {
          var u := s.workers[i].phase.task;
          assert WorkerInv(s.kv, s.workers[i], i, pool) && Holds(s.workers[i], u);
          if u == t {
            PurgeEndsPending(s.kv, t);
          } else {
            PurgeLeavesOthers(s.kv, u, t);
          }
        }
      case ForgetVersion(i) =>
        if i < |s.workers| && s.workers[i].phase.Purged? {
          ClearLeavesMarks(s.kv, s.workers[i].phase.task, t);
        }
      case _ =>
    }
  }

  /** Every block stays in order, and only clients change what they see. */
  lemma NextBlocks(s: System, m: Move, pool: Pool)
    requires SystemInv(s, pool) && Fresh(s, m)
    ensures forall k: bytes :: VersionInv(BlockOf(Next(s, m, pool).kv, k)) && Shows(s, m, Next(s, m, pool), k)
  {
    hide BlockOf, Stepped, Pending, VersionInv, See, Done, IdealRun, Home, Client, WorkerShape, Guard;
    match m {
      case Command(k, steps) =>
        forall x: bytes
          ensures VersionInv(BlockOf(Next(s, m, pool).kv, x)) && Shows(s, m, Next(s, m, pool), x)
        {
          CommandStep(s.kv, k, steps, x);
        }
      case PurgeData(i) =>
        if i < |s.workers| && s.workers[i].phase.Taken? {
          var t := s.workers[i].phase.task;
          TakenIsGuarded(s, i, pool);
          GcStep(s.kv, t.userKey, PurgeOf(t));
        }
      case ForgetVersion(i) =>
        if i < |s.workers| && s.workers[i].phase.Purged? {
          var t := s.workers[i].phase.task;
          ClearGuarded(BlockOf(s.kv, t.userKey), t);
          GcStep(s.kv, t.userKey, ClearOf(t));
        }
      case _ =>
    }
  }

  lemma TakenIsGuarded(s: System, i: nat, pool: Pool)
    requires SystemInv(s, pool) && i < |s.workers| && s.workers[i].phase.Taken?
    ensures var t := s.workers[i].phase.task; Guard(BlockOf(s.kv, t.userKey), PurgeOf(t))
  {
    hide BlockOf, VersionInv, Home, Guard, TaskBytes, WorkerShape, Marked;
    var t := s.workers[i].phase.task;
    assert WorkerInv(s.kv, s.workers[i], i, pool) && Holds(s.workers[i], t);
    PendingIsGuarded(BlockOf(s.kv, t.userKey), t);
  }

  /** The worker that moves, if it is worker `i`. */
  function Moved(s: System, m: Move, i: nat, pool: Pool): WorkerState
    requires i < |s.workers| == pool.size
  {
    Next(s, m, pool).workers[i]
  }

  /** A worker keeps its shape, and holds no task that it did not hold or was found. */
  lemma MovedHolds(s: System, m: Move, i: nat, pool: Pool)
    requires SystemInv(s, pool) && Fresh(s, m) && i < |s.workers|
    ensures var w, r := s.workers[i], Moved(s, m, i, pool);
            && WorkerShape(r, pool.capacity)
            && (forall u :: Holds(r, u) ==> Holds(w, u) || (m == Found(u) && Home(pool, u) == i))
            && (forall u :: Holds(r, u) ==> TaskBytes(u) in r.known && !Purges(s, m, u))
            && (!r.phase.Idle? ==> Home(pool, r.phase.task) == i)
  {
    hide BlockOf, Stepped, Pending, VersionInv, Home, TaskBytes, Client, Add, Receive;
    var w := s.workers[i];
    assert WorkerInv(s.kv, w, i, pool);
    forall u | Holds(w, u) && Purges(s, m, u) ensures m == PurgeData(i) {
      assert WorkerInv(s.kv, s.workers[m.worker], m.worker, pool) && Holds(s.workers[m.worker], u);
    }
    match m {
      case Found(t) => AddHolds(w, t, pool.capacity);
      case Take(j) => ReceiveHolds(w, pool.capacity); ReceivePhase(w);
      case Release(j) =>
        if j == i {
          FinishHolds(w, pool.capacity);
        }
      case _ =>
    }
  }

  lemma ReceivePhase(w: WorkerState)
    ensures Receive(w).known == w.known
    ensures Receive(w).phase == w.phase || (Receive(w).phase.Taken? && Holds(w, Receive(w).phase.task))
  {
  }

  lemma FinishHolds(w: WorkerState, capacity: nat)
    requires WorkerShape(w, capacity) && forall t :: Holds(w, t) ==> TaskBytes(t) in w.known
    ensures WorkerShape(Finish(w), capacity)
    ensures forall u :: Holds(Finish(w), u) <==> Holds(w, u)
    ensures forall u :: Holds(w, u) ==> TaskBytes(u) in Finish(w).known
  {
    hide TaskBytes;
    if w.phase.Cleared? && w.waiting.None? {
      forall u | Holds(w, u) ensures TaskBytes(u) != TaskBytes(w.phase.task) {
        if TaskBytes(u) == TaskBytes(w.phase.task) {
          TaskBytesInjective(u, w.phase.task);
        }
      }
    }
  }

  lemma NextOneWaits(s: System, m: Move, pool: Pool)
    requires |s.workers| == pool.size && OneWaits(s)
    ensures OneWaits(Next(s, m, pool))
  {
    hide Stepped, TaskBytes, Home;
  }

  /** What a move does to the view of one key. */
  ghost predicate Shows(s: System, m: Move, r: System, k: bytes) {
    var b := BlockOf(s.kv, k);
    See(BlockOf(r.kv, k)) == if m.Command? && m.k == k then IdealRun(See(b), Done(b, m.steps)) else See(b)
  }

  /** With fresh scans, every move keeps the invariant; only clients change what they see. */
  lemma NextKeepsInv(s: System, m: Move, pool: Pool)
    requires SystemInv(s, pool) && Fresh(s, m)
    ensures SystemInv(Next(s, m, pool), pool)
    ensures forall k: bytes :: Shows(s, m, Next(s, m, pool), k)
  {
    hide BlockOf, VersionInv, Pending, WorkerShape, Holds, Home, Next, Fresh, Shows, OneWaits, Purges, TaskBytes;
    NextBlocks(s, m, pool);
    NextOneWaits(s, m, pool);
    var r := Next(s, m, pool);
    forall i | 0 <= i < |r.workers| ensures WorkerInv(r.kv, r.workers[i], i, pool) {
      assert WorkerInv(s.kv, s.workers[i], i, pool);
      MovedHolds(s, m, i, pool);
      forall u | Holds(r.workers[i], u) ensures Pending(r.kv, u) && Home(pool, u) == i {
        assert Holds(s.workers[i], u) || (m == Found(u) && Home(pool, u) == i);
        FoundIsPending(s, m, u);
        PendingUnlessCollected(s, m, u, pool);
      }
    }
  }

  lemma FoundIsPending(s: System, m: Move, u: GcTask)
    requires Fresh(s, m)
    ensures m == Found(u) ==> Pending(s.kv, u)
  {
  }

  // ----- every run -----

  /** The accepted steps of the clients of a run on one key. */
  function Accepted(s: System, moves: seq<Move>, pool: Pool, k: bytes): seq<Step>
    requires |s.workers| == pool.size
    decreases |moves|
  {
    if moves == [] then []
    else
      var m := moves[0];
      (if m.Command? && m.k == k then Done(BlockOf(s.kv, k), m.steps) else [])
      + Accepted(Next(s, m, pool), moves[1..], pool, k)
  }

  lemma {:induction false} IdealConcat(view: View, a: seq<Step>, b: seq<Step>)
    requires ValidView(view)
    ensures ValidView(IdealRun(view, a)) && IdealRun(view, a + b) == IdealRun(IdealRun(view, a), b)
    decreases |a|
  {
    hide Ideal;
    if a == [] {
      assert a + b == b;
    } else {
      assert (a + b)[1..] == a[1..] + b;
      IdealConcat(Ideal(view, a[0]), a[1..], b);
    }
  }

  /**
    Over any interleaving of commands and strings on all keys, scans, the transactions of any
    number of workers and their failures, with fresh scans: each key shows exactly what its own
    accepted commands produce in a store where deletion is immediate.
   */
  lemma {:induction false} SystemRefines(s: System, moves: seq<Move>, pool: Pool, k: bytes)
    requires SystemInv(s, pool) && AllFresh(s, moves, pool)
    ensures SystemInv(NextAll(s, moves, pool), pool)
    ensures See(BlockOf(NextAll(s, moves, pool).kv, k))
            == IdealRun(See(BlockOf(s.kv, k)), Accepted(s, moves, pool, k))
    decreases |moves|
  {
    hide Next, See, Fresh, BlockOf, Done, IdealRun, VersionInv, WorkerInv, OneWaits;
    var view := See(BlockOf(s.kv, k));
    if moves == [] {
      IdealNothing(view);
    } else {
      var m, t, rest := moves[0], Next(s, moves[0], pool), moves[1..];
      NextKeepsInv(s, m, pool);
      SystemRefines(t, rest, pool, k);
      var first := if m.Command? && m.k == k then Done(BlockOf(s.kv, k), m.steps) else [];
      assert Shows(s, m, t, k);
      IdealNothing(view);
      IdealConcat(view, first, Accepted(t, rest, pool, k));
    }
  }

  lemma IdealNothing(view: View)
    requires ValidView(view)
    ensures IdealRun(view, []) == view
  {
  }

  // ----- the data of every key stays in order -----

  /** A client leaves its key in order; the contracts of the commands say which do. */
  ghost predicate Orders(s: System, m: Move) {
    m.Command? ==> BlockInv(Run(BlockOf(s.kv, m.k), m.steps))
  }

  ghost predicate AllOrder(s: System, moves: seq<Move>, pool: Pool)
    requires |s.workers| == pool.size
    decreases |moves|
  {
    moves == [] || (Orders(s, moves[0]) && AllOrder(Next(s, moves[0], pool), moves[1..], pool))
  }

  lemma SteppedStore(kv: Map, k: bytes, steps: seq<Step>)
    requires StoreInv(kv) && BlockInv(Run(BlockOf(kv, k), steps))
    ensures StoreInv(Stepped(kv, k, steps))
  {
    hide BlockOf, BlockInv, Run, Stepped;
    forall x: bytes ensures BlockInv(BlockOf(Stepped(kv, k, steps), x)) {
      SteppedBlock(kv, k, steps, x);
    }
  }

  lemma GcStore(kv: Map, k: bytes, step: Step)
    requires StoreInv(kv) && Guard(BlockOf(kv, k), step) && (step.Purge? || step.ClearGc?)
    ensures StoreInv(Stepped(kv, k, [step]))
  {
    hide BlockOf, BlockInv, Run, Stepped, Guard, Apply;
    RunOne(BlockOf(kv, k), step);
    GcKeepsInv(BlockOf(kv, k), step);
    SteppedStore(kv, k, [step]);
  }

  lemma NextKeepsStore(s: System, m: Move, pool: Pool)
    requires SystemInv(s, pool) && Fresh(s, m) && StoreInv(s.kv) && Orders(s, m)
    ensures StoreInv(Next(s, m, pool).kv)
  {
    hide BlockOf, BlockInv, Stepped, VersionInv, WorkerInv, StoreInv, Client, Home, OneWaits, Guard;
    match m {
      case Command(k, steps) => SteppedStore(s.kv, k, steps);
      case PurgeData(i) =>
        if i < |s.workers| && s.workers[i].phase.Taken? {
          TakenIsGuarded(s, i, pool);
          GcStore(s.kv, s.workers[i].phase.task.userKey, PurgeOf(s.workers[i].phase.task));
        }
      case ForgetVersion(i) =>
        if i < |s.workers| && s.workers[i].phase.Purged? {
          var t := s.workers[i].phase.task;
          ClearGuarded(BlockOf(s.kv, t.userKey), t);
          GcStore(s.kv, t.userKey, ClearOf(t));
        }
      case _ =>
    }
  }

  /** In every state that such a run reaches, every list and every collection of the store is in order. */
  lemma {:induction false} StoreStaysInOrder(s: System, moves: seq<Move>, pool: Pool)
    requires SystemInv(s, pool) && StoreInv(s.kv) && AllFresh(s, moves, pool) && AllOrder(s, moves, pool)
    ensures StoreInv(NextAll(s, moves, pool).kv)
    decreases |moves|
  {
    hide Next, Fresh, StoreInv, Orders, Shows, VersionInv, WorkerInv, OneWaits;
    if moves != [] {
      NextKeepsInv(s, moves[0], pool);
      NextKeepsStore(s, moves[0], pool);
      StoreStaysInOrder(Next(s, moves[0], pool), moves[1..], pool);
    }
  }

  // ----- from the start -----

  function Start(pool: Pool): (s: System)
    ensures |s.workers| == pool.size
  {
    System(map[], seq(pool.size, _ => WorkerState([], {}, Idle, None)))
  }

  lemma StartInOrder(pool: Pool)
    ensures SystemInv(Start(pool), pool) && StoreInv(Start(pool).kv)
    ensures forall k: bytes :: See(BlockOf(Start(pool).kv, k)) == Nothing
  {
    hide VersionInv, BlockInv;
    forall k: bytes ensures BlockOf(Start(pool).kv, k) == map[] {
    }
    EmptyInv();
    BareInv(map[]);
  }

  /** From an empty store and an idle pool: both results, with nothing assumed of the state. */
  lemma ServerIsCorrect(moves: seq<Move>, pool: Pool, k: bytes)
    requires AllFresh(Start(pool), moves, pool)
    ensures See(BlockOf(NextAll(Start(pool), moves, pool).kv, k))
            == IdealRun(Nothing, Accepted(Start(pool), moves, pool, k))
    ensures AllOrder(Start(pool), moves, pool) ==> StoreInv(NextAll(Start(pool), moves, pool).kv)
  {
    hide AllFresh, NextAll, Accepted, AllOrder, StoreInv, See, BlockOf, IdealRun, SystemInv;
    StartInOrder(pool);
    SystemRefines(Start(pool), moves, pool, k);
    if AllOrder(Start(pool), moves, pool) {
      StoreStaysInOrder(Start(pool), moves, pool);
    }
  }

  // ----- the code's transactions are moves -----

  /** What the contract of a command promises makes it a move. */
  lemma CommandIsMove(s: System, after: Map, k: bytes, pool: Pool) returns (steps: seq<Step>)
    requires |s.workers| == pool.size
    requires OnlyBlock(s.kv, after, k) && Reaches(BlockOf(s.kv, k), BlockOf(after, k))
    ensures Fresh(s, Command(k, steps)) && Next(s, Command(k, steps), pool).kv == after
    ensures BlockInv(BlockOf(after, k)) ==> Orders(s, Command(k, steps))
  {
    hide Run, BlockInv, BlockOf, WithBlock, GuardedRun;
    steps :| Commands(steps) && Run(BlockOf(s.kv, k), steps) == BlockOf(after, k);
    CommandsGuarded(BlockOf(s.kv, k), steps);
    SameStore(Stepped(s.kv, k, steps), after, s.kv, k, BlockOf(after, k));
  }

  /** So is a string that is written where there is no collection, and it leaves its key in order. */
  lemma StringIsMove(s: System, k: bytes, ttl: u64, data: bytes, pool: Pool)
    requires |s.workers| == pool.size && !HasColl(BlockOf(s.kv, k))
    ensures var m := Command(k, [SetString(ttl, data)]);
            && Fresh(s, m)
            && BlockOf(Next(s, m, pool).kv, k) == BlockOf(s.kv, k)[Meta := StringVal(ttl, data)]
            && (BlockInv(BlockOf(s.kv, k)) ==> Orders(s, m))
  {
    hide BlockOf, BlockInv, Stepped, Run;
    var b, step := BlockOf(s.kv, k), SetString(ttl, data);
    RunOne(b, step);
    SteppedBlock(s.kv, k, [step], k);
    OneGuarded(b, step);
    if BlockInv(b) {
      StringKeepsInv(b, ttl, data);
    }
  }

  lemma OneGuarded(b: Block, step: Step)
    requires Guard(b, step)
    ensures GuardedRun(b, [step])
  {
    hide Apply, Guard;
    assert [step][1..] == [];
    assert GuardedRun(Apply(b, step).0, []);
  }

  lemma SameStore(a: Map, after: Map, kv: Map, k: bytes, b: Block)
    requires OnlyBlock(kv, after, k) && b == BlockOf(after, k) && a == WithBlock(kv, k, b)
    ensures a == after
  {
    forall key: Key ensures key in a <==> key in after {
      InBlockOf(after, k, key.part);
      assert key == Key(key.ukey, key.part);
    }
    forall key: Key | key in a ensures a[key] == after[key] {
      InBlockOf(after, k, key.part);
      assert key == Key(key.ukey, key.part);
    }
  }

  /** A worker that handles its next task without a pause makes four moves, or fewer if a transaction fails. */
  lemma HandlingIsMoves(s: System, i: nat, pool: Pool)
    requires i < |s.workers| == pool.size && s.workers[i].phase.Idle? && s.workers[i].queue != []
    ensures var w, t := s.workers[i], s.workers[i].queue[0];
            var purged := Stepped(s.kv, t.userKey, [PurgeOf(t)]);
            var s1 := Next(s, Take(i), pool);
            var s2 := Next(s1, PurgeData(i), pool);
            && Next(s1, Fail(i), pool) == With(s, i, GiveUp(Receive(w)))
            && Next(s2, Fail(i), pool) == With(s, i, GiveUp(DataGone(Receive(w)))).(kv := purged)
            && Next(Next(s2, ForgetVersion(i), pool), Release(i), pool)
               == With(s, i, Finish(Forgotten(DataGone(Receive(w))))).(
                    kv := Stepped(purged, t.userKey, [ClearOf(t)]))
  {
    hide Stepped, TaskBytes;
  }
}
