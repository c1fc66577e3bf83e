/**
  The gc worker's two transactions and the version lookup for new collections, as they run
  against the store.
 */
module GcWorker {
  import opened Bytes
  import opened Codec
  import opened Keys
  import opened Values
  import opened Store
  import opened Gc

  method GetVersionForNew(txn: Txn, k: bytes) returns (version: Option<u16>)
    requires VersionInv(BlockOf(txn.kv, k))
    ensures version == VersionForNew(BlockOf(txn.kv, k))
  {
    hide BlockOf;
    var next: u16 := 0;
    var seen := txn.Get(Key(k, Part.Gc));
    if seen.Some? {
      next := if seen.value.version == 0xFFFF then 0 else seen.value.version + 1;
    }
    var pending := txn.Get(Key(k, GcVersion(next)));
    version := if pending.Some? then None else Some(next);
  }

  /** The parts of a block that one family range selects. */
  lemma SelectedParts(kv: Map, dataType: byte, k: bytes, v: u16)
    ensures forall key :: key in Scan(kv, FamilyRange(dataType, k, v)) ==> key.ukey == k
    ensures (set key | key in Scan(kv, FamilyRange(dataType, k, v)) :: key.part)
            == set p | p in BlockOf(kv, k) && p.Data? && p.version == v && DataType(p.slot) == dataType
  {
    hide KeyLess, Ascends, Ascending, FamilyRange;
    var range := FamilyRange(dataType, k, v);
    forall key ensures key in Scan(kv, range)
                       <==> key in kv && key.ukey == k && key.part.Data? && DataType(key.part.slot) == dataType
                               && key.part.version == v
    {
      FamilyRangeExact(dataType, k, v, key);
    }
    forall p | p in BlockOf(kv, k) && p.Data? && p.version == v && DataType(p.slot) == dataType
      ensures p in set key | key in Scan(kv, range) :: key.part
    {
      assert Key(k, p) in Scan(kv, range);
    }
  }

  function WithoutType(b: Block, dataType: byte, v: u16): Block {
    map p | p in b && !(p.Data? && p.version == v && DataType(p.slot) == dataType) :: b[p]
  }

  /** Scan one family of one version and delete every key found. */
  method DeleteFamily(txn: Txn, dataType: byte, k: bytes, v: u16)
    modifies txn
    ensures OnlyBlock(old(txn.kv), txn.kv, k)
    ensures BlockOf(txn.kv, k) == WithoutType(old(BlockOf(txn.kv, k)), dataType, v)
  {
    hide BlockOf, KeyLess, Ascends, Ascending, FamilyRange;
    SelectedParts(txn.kv, dataType, k, v);
    var keys := txn.ScanAll(FamilyRange(dataType, k, v));
    txn.DeleteAll(keys, k);
  }

  /** First transaction of a task: delete the data of the version, then its gc-version key. */
  method PurgeVersion(txn: Txn, k: bytes, kind: Kind, v: u16)
    modifies txn
    ensures OnlyBlock(old(txn.kv), txn.kv, k)
    ensures BlockOf(txn.kv, k) == Apply(old(BlockOf(txn.kv, k)), Purge(kind, v)).0
  {
    hide BlockOf, WithoutType, Without;
    ghost var b := BlockOf(txn.kv, k);
    FamiliesOf(b, kind, v);
    match kind {
      case Hash =>
        DeleteFamily(txn, DATA_TYPE_META, k, v);
        DeleteFamily(txn, DATA_TYPE_HASH, k, v);
      case List =>
        DeleteFamily(txn, DATA_TYPE_LIST, k, v);
      case Set =>
        DeleteFamily(txn, DATA_TYPE_META, k, v);
        DeleteFamily(txn, DATA_TYPE_SET, k, v);
      case Zset =>
        DeleteFamily(txn, DATA_TYPE_META, k, v);
        DeleteFamily(txn, DATA_TYPE_SCORE, k, v);
        DeleteFamily(txn, DATA_TYPE_ZSET, k, v);
    }
    txn.Delete(Key(k, GcVersion(v)));
  }

  lemma PurgeKeepsGcKey(b: Block, kind: Kind, v: u16)
    ensures var c := Apply(b, Purge(kind, v)).0;
            (Part.Gc in c <==> Part.Gc in b) && (Part.Gc in b ==> c[Part.Gc] == b[Part.Gc])
  {
  }

  /** The families a purge scans are all slots of the type. */
  lemma FamiliesOf(b: Block, kind: Kind, v: u16)
    ensures kind.Hash? ==> WithoutType(WithoutType(b, DATA_TYPE_META, v), DATA_TYPE_HASH, v) == Without(b, kind, v)
    ensures kind.List? ==> WithoutType(b, DATA_TYPE_LIST, v) == Without(b, kind, v)
    ensures kind.Set? ==> WithoutType(WithoutType(b, DATA_TYPE_META, v), DATA_TYPE_SET, v) == Without(b, kind, v)
    ensures kind.Zset? ==>
              WithoutType(WithoutType(WithoutType(b, DATA_TYPE_META, v), DATA_TYPE_SCORE, v), DATA_TYPE_ZSET, v)
              == Without(b, kind, v)
  {
  }

  /** Second transaction of a task: forget the remembered version if it is this one. */
  method ClearGcKey(txn: Txn, k: bytes, v: u16)
    requires Part.Gc in BlockOf(txn.kv, k) ==> BlockOf(txn.kv, k)[Part.Gc].Version?
    modifies txn
    ensures OnlyBlock(old(txn.kv), txn.kv, k)
    ensures BlockOf(txn.kv, k) == Apply(old(BlockOf(txn.kv, k)), ClearGc(v)).0
  {
    hide BlockOf;
    var seen := txn.Get(Key(k, Part.Gc));
    if seen.Some? && seen.value.version == v {
      txn.Delete(Key(k, Part.Gc));
    }
  }

  // ----- the worker's queue -----

  datatype GcTask = GcTask(kind: Kind, userKey: bytes, version: u16)

  /** The identity of a task in the set of known tasks. */
  function TaskBytes(t: GcTask): bytes {
    [TypeByte(t.kind)] + t.userKey + Be16(t.version)
  }

  lemma TaskBytesInjective(a: GcTask, b: GcTask)
    requires TaskBytes(a) == TaskBytes(b)
    ensures a == b
  {
    hide Be16;
    var x, y := TaskBytes(a), TaskBytes(b);
    assert x[0] == TypeByte(a.kind) && y[0] == TypeByte(b.kind);
    assert x[1..|x| - 2] == a.userKey && y[1..|y| - 2] == b.userKey;
    assert x[|x| - 2..] == Be16(a.version) && y[|y| - 2..] == Be16(b.version);
    Be16Order(a.version, b.version);
  }

  /** Where a worker is with the task it received. */
  datatype Phase = Idle | Taken(task: GcTask) | Purged(task: GcTask) | Cleared(task: GcTask)

  /** `waiting` is a task whose sender waits for room in the queue and holds the lock on the known tasks. */
  datatype WorkerState = WorkerState(queue: seq<GcTask>, known: set<bytes>, phase: Phase, waiting: Option<GcTask>)

  /** Queue a task unless it is known; if the queue is full, wait. */
  function Add(w: WorkerState, t: GcTask, capacity: nat): WorkerState {
    if w.waiting.Some? || TaskBytes(t) in w.known then w
    else
      var known := w.known + {TaskBytes(t)};
      if |w.queue| < capacity then w.(queue := w.queue + [t], known := known)
      else w.(waiting := Some(t), known := known)
  }

  /** An idle worker receives the next task; a waiting one takes the place that becomes free. */
  function Receive(w: WorkerState): WorkerState {
    if w.phase.Idle? && w.queue != [] then
      var freed := w.queue[1..] + if w.waiting.Some? then [w.waiting.value] else [];
      w.(queue := freed, phase := Taken(w.queue[0]), waiting := None)
    else w
  }

  /** The first transaction is committed. */
  function DataGone(w: WorkerState): WorkerState {
    if w.phase.Taken? then w.(phase := Purged(w.phase.task)) else w
  }

  /** The second one too. */
  function Forgotten(w: WorkerState): WorkerState {
    if w.phase.Purged? then w.(phase := Cleared(w.phase.task)) else w
  }

  /** The task is no longer known; this needs the lock. */
  function Finish(w: WorkerState): WorkerState {
    if w.phase.Cleared? && w.waiting.None? then w.(known := w.known - {TaskBytes(w.phase.task)}, phase := Idle) else w
  }

  /** A transaction gave up: the task stays known. */
  function GiveUp(w: WorkerState): WorkerState {
    if w.phase.Taken? || w.phase.Purged? then w.(phase := Idle) else w
  }

  datatype Outcome = BothCommitted | FirstFailed | SecondFailed

  class Worker {
    const capacity: nat
    var queue: seq<GcTask>
    var known: set<bytes>
    var waiting: Option<GcTask>

    /** Between two tasks the worker is idle. */
    function State(): WorkerState
      reads this
    {
      WorkerState(queue, known, Idle, waiting)
    }

    /** No task is queued twice, every queued task is known, and a sender waits only for room. */
    ghost predicate Valid()
      reads this
    {
      && |queue| <= capacity
      && (forall i, j :: 0 <= i < j < |queue| ==> queue[i] != queue[j])
      && (forall i :: 0 <= i < |queue| ==> TaskBytes(queue[i]) in known)
      && (waiting.Some? ==>
            |queue| == capacity && TaskBytes(waiting.value) in known && waiting.value !in queue)
    }

    constructor (capacity: nat)
      ensures Valid() && this.capacity == capacity && State() == WorkerState([], {}, Idle, None)
    {
      this.capacity := capacity;
      queue, known, waiting := [], {}, None;
    }

    /** Called with the lock on the known tasks, so no other sender waits. */
    method AddTask(t: GcTask)
      requires Valid() && waiting.None?
      modifies this
      ensures Valid() && State() == Add(old(State()), t, capacity)
    {
      hide TaskBytes;
      if TaskBytes(t) !in known {
        known := known + {TaskBytes(t)};
        if |queue| < capacity {
          queue := queue + [t];
        } else {
          waiting := Some(t);
        }
      }
    }

    /** Receive one task; a waiting sender gets the place that becomes free. */
    method TakeTask() returns (t: GcTask)
      requires Valid() && queue != []
      modifies this
      ensures Valid() && waiting.None? && t == old(queue[0]) && t !in queue
      ensures WorkerState(queue, known, Taken(t), waiting) == Receive(old(State()))
    {
      hide TaskBytes;
      t := queue[0];
      queue := queue[1..];
      if waiting.Some? {
        queue := queue + [waiting.value];
        waiting := None;
      }
    }

    /** Receive one task and handle it in two transactions, either of which may fail. */
    method HandleNext(txn: Txn, outcome: Outcome) returns (t: GcTask)
      requires Valid() && queue != []
      requires forall k: bytes :: Part.Gc in BlockOf(txn.kv, k) ==> BlockOf(txn.kv, k)[Part.Gc].Version?
      modifies this, txn
      ensures Valid() && t == old(queue[0])
      ensures var taken := Receive(old(State()));
              match outcome
              case BothCommitted => State() == Finish(Forgotten(DataGone(taken)))
              case FirstFailed => State() == GiveUp(taken)
              case SecondFailed => State() == GiveUp(DataGone(taken))
      ensures OnlyBlock(old(txn.kv), txn.kv, t.userKey)
      ensures var b, c := old(BlockOf(txn.kv, t.userKey)), BlockOf(txn.kv, t.userKey);
              match outcome
              case BothCommitted => c == Apply(Apply(b, Purge(t.kind, t.version)).0, ClearGc(t.version)).0
              case FirstFailed => c == b
              case SecondFailed => c == Apply(b, Purge(t.kind, t.version)).0
    {
      hide BlockOf, TaskBytes, Receive, Apply;
      t := TakeTask();
      if outcome.FirstFailed? {
        return;
      }
      PurgeVersion(txn, t.userKey, t.kind, t.version);
      if outcome.SecondFailed? {
        return;
      }
      PurgeKeepsGcKey(old(BlockOf(txn.kv, t.userKey)), t.kind, t.version);
      ClearGcKey(txn, t.userKey, t.version);
      known := known - {TaskBytes(t)};
      forall i | 0 <= i < |queue| ensures TaskBytes(queue[i]) != TaskBytes(t) {
        if TaskBytes(queue[i]) == TaskBytes(t) {
          TaskBytesInjective(queue[i], t);
        }
      }
    }
  }
}
