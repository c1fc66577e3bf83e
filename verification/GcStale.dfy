/**
  Runs in which the gc goes wrong: a scan that was overtaken by the workers makes one of them
  purge a live collection, and a full queue blocks the master and a worker for good.
 */
module GcStale {
  import opened Bytes
  import opened Codec
  import opened Keys
  import opened Values
  import opened Store
  import opened Gc
  import opened GcWorker
  import opened GcRuns
  import opened GcSystem
  import opened GcProgress

  lemma {:induction false} OneMore(s: System, moves: seq<Move>, m: Move, pool: Pool)
    requires |s.workers| == pool.size
    ensures NextAll(s, moves + [m], pool) == Next(NextAll(s, moves, pool), m, pool)
    ensures AllFresh(s, moves, pool) && Fresh(NextAll(s, moves, pool), m) ==> AllFresh(s, moves + [m], pool)
    decreases |moves|
  {
    hide Next, Fresh;
    if moves == [] {
      var one := [m];
      assert moves + [m] == one && one[1..] == [];
      assert NextAll(Next(s, m, pool), one[1..], pool) == Next(s, m, pool);
      assert AllFresh(Next(s, m, pool), one[1..], pool);
    } else {
      assert (moves + [m])[1..] == moves[1..] + [m];
      OneMore(Next(s, moves[0], pool), moves[1..], m, pool);
    }
  }

  /** Append a fresh move to a run that ends in `s`. */
  lemma More(moves: seq<Move>, m: Move, s: System, pool: Pool) returns (longer: seq<Move>)
    requires NextAll(Start(pool), moves, pool) == s && AllFresh(Start(pool), moves, pool) && Fresh(s, m)
    ensures longer == moves + [m] && NextAll(Start(pool), longer, pool) == Next(s, m, pool)
    ensures AllFresh(Start(pool), longer, pool)
  {
    hide NextAll, AllFresh, Next, Fresh;
    longer := moves + [m];
    OneMore(Start(pool), moves, m, pool);
  }

  lemma StartIs(pool: Pool)
    ensures NextAll(Start(pool), [], pool) == Start(pool) && AllFresh(Start(pool), [], pool)
  {
  }

  /** The pool at its start with nothing but one key stored. */
  function Holding(pool: Pool, k: bytes, b: Block): (s: System)
    ensures |s.workers| == pool.size
  {
    Start(pool).(kv := WithBlock(map[], k, b))
  }

  lemma HoldingBlock(pool: Pool, k: bytes, b: Block, step: Step)
    ensures BlockOf(Holding(pool, k, b).kv, k) == b
    ensures Stepped(Holding(pool, k, b).kv, k, [step]) == Holding(pool, k, Apply(b, step).0).kv
  {
    hide BlockOf, Run, Apply;
    BlockOfWithBlock(map[], k, b, k);
    RunOne(b, step);
  }

  lemma EmptyHolding(pool: Pool, k: bytes)
    ensures Start(pool) == Holding(pool, k, map[])
  {
    assert WithBlock(map[], k, map[]) == map[];
  }

  lemma OneCommand(pool: Pool, k: bytes, b: Block, step: Step)
    requires IsCommand(step)
    ensures Next(Holding(pool, k, b), Command(k, [step]), pool) == Holding(pool, k, Apply(b, step).0)
    ensures Fresh(Holding(pool, k, b), Command(k, [step]))
  {
    hide Apply, WithBlock, Stepped, BlockOf;
    HoldingBlock(pool, k, b, step);
    OneGuarded(b, step);
  }

  /** Create a collection under version `v` and delete it: the version is pending and remembered. */
  lemma CreateAndDelete(moves: seq<Move>, k: bytes, meta: Value, puts: Items, b: Block, v: u16, pool: Pool)
    returns (longer: seq<Move>, c: Block)
    requires WellFormed(Write(meta, puts, {})) && VersionInv(b) && Meta !in b && VersionForNew(b) == Some(v)
    requires AllFresh(Start(pool), moves, pool) && NextAll(Start(pool), moves, pool) == Holding(pool, k, b)
    ensures AllFresh(Start(pool), longer, pool) && NextAll(Start(pool), longer, pool) == Holding(pool, k, c)
    ensures VersionInv(c) && Meta !in c && Gc in c && c[Gc] == Version(v) && Marked(c, GcTask(KindOf(meta), k, v))
    ensures forall w :: w != v ==> (GcVersion(w) in c <==> GcVersion(w) in b)
    ensures forall u: GcTask :: Marked(b, u) ==> Marked(c, u)
  {
    hide Install, Contents, VersionInv, Without, NextAll, AllFresh, Apply, Stepped, Holding, Start, Fresh, Next, Marked,
         VersionForNew;
    var write := Write(meta, puts, {});
    Creates(b, meta, puts, v);
    var b1 := Apply(b, write).0;
    DeletesLater(b1);
    c := Apply(b1, Del(true)).0;
    OneCommand(pool, k, b, write);
    longer := More(moves, Command(k, [write]), Holding(pool, k, b), pool);
    OneCommand(pool, k, b1, Del(true));
    longer := More(longer, Command(k, [Del(true)]), Holding(pool, k, b1), pool);
    forall u: GcTask | Marked(b, u) ensures Marked(c, u) {
      StepKeepsMark(b, write, u);
      StepKeepsMark(b1, Del(true), u);
    }
    IsMarked(c, GcTask(KindOf(meta), k, v));
  }

  lemma IsMarked(b: Block, t: GcTask)
    requires GcVersion(t.version) in b && b[GcVersion(t.version)] == TypeTag(t.kind)
    ensures Marked(b, t)
  {
  }

  /** The moves that find and collect a task. */
  function Handling(t: GcTask, pool: Pool): seq<Move> {
    var i := Home(pool, t);
    [Found(t), Take(i), PurgeData(i), ForgetVersion(i), Release(i)]
  }

  /** ... applied to a pool that holds nothing else. */
  lemma Handled(k: bytes, b: Block, t: GcTask, pool: Pool)
    requires t.userKey == k
    ensures var s, moves := Holding(pool, k, b), Handling(t, pool);
            var s2 := Next(Next(s, moves[0], pool), moves[1], pool);
            var s3 := Next(s2, moves[2], pool);
            var s4 := Next(s3, moves[3], pool);
            var c := Apply(Apply(b, PurgeOf(t)).0, ClearOf(t)).0;
            && BlockOf(s3.kv, k) == Apply(b, PurgeOf(t)).0
            && s4 == With(Holding(pool, k, c), Home(pool, t), WorkerState([], {TaskBytes(t)}, Cleared(t), None))
            && Next(s4, moves[4], pool) == Holding(pool, k, c)
  {
    hide Apply, WithBlock, Stepped, TaskBytes, Home;
    var i, moves := Home(pool, t), Handling(t, pool);
    var c := Apply(b, PurgeOf(t)).0;
    HoldingBlock(pool, k, b, PurgeOf(t));
    HoldingBlock(pool, k, c, ClearOf(t));
    var idle := WorkerState([], {}, Idle, None);
    var taken := WorkerState([], {TaskBytes(t)}, Taken(t), None);
    assert Receive(Add(idle, t, pool.capacity)) == taken;
    assert Finish(Forgotten(DataGone(taken))) == idle;
    var s := Holding(pool, k, b);
    var s2 := Next(Next(s, moves[0], pool), moves[1], pool);
    assert s2 == With(s, i, taken);
    var s3 := Next(s2, moves[2], pool);
    assert s3 == With(Holding(pool, k, c), i, DataGone(taken));
    var s5 := Next(Next(s3, moves[3], pool), moves[4], pool);
    assert s5.workers == s.workers;
  }

  /** Create, delete, find, collect and create again: version 0 is live and all scans were fresh. */
  lemma Recreated(k: bytes, meta: Value, puts: Items, pool: Pool) returns (moves: seq<Move>, found: nat, b: Block)
    requires WellFormed(Write(meta, puts, {}))
    ensures found <= |moves| && AllFresh(Start(pool), moves, pool)
    ensures Pending(NextAll(Start(pool), moves[..found], pool).kv, GcTask(KindOf(meta), k, 0))
    ensures NextAll(Start(pool), moves, pool) == Holding(pool, k, b) && VersionInv(b)
    ensures Meta in b && b[Meta] == WithVersion(meta, 0) && Contents(b, 0) == puts
  {
    hide Install, Contents, VersionInv, Without, NextAll, AllFresh, Apply, Marked, Holding, Start, Next, BlockOf;
    var t, write := GcTask(KindOf(meta), k, 0), Write(meta, puts, {});
    var b2: Block;
    StartIs(pool);
    EmptyHolding(pool, k);
    EmptyInv();
    moves, b2 := CreateAndDelete([], k, meta, puts, map[], 0, pool);
    ghost var early := moves;
    found := |moves|;
    MarkedCollects(b2, t);
    var b4 := Apply(Apply(b2, PurgeOf(t)).0, ClearOf(t)).0;
    Handled(k, b2, t, pool);
    var five, s := Handling(t, pool), Holding(pool, k, b2);
    HoldingBlock(pool, k, b2, PurgeOf(t));
    moves := More(moves, five[0], s, pool);
    s := Next(s, five[0], pool);
    moves := More(moves, five[1], s, pool);
    s := Next(s, five[1], pool);
    moves := More(moves, five[2], s, pool);
    s := Next(s, five[2], pool);
    moves := More(moves, five[3], s, pool);
    s := Next(s, five[3], pool);
    moves := More(moves, five[4], s, pool);
    Creates(b4, meta, puts, 0);
    OneCommand(pool, k, b4, write);
    moves := More(moves, Command(k, [write]), Holding(pool, k, b4), pool);
    b := Apply(b4, write).0;
    assert moves[..found] == early;
  }

  lemma MarkedCollects(b: Block, t: GcTask)
    requires VersionInv(b) && Meta !in b && Gc in b && b[Gc] == Version(0) && Marked(b, t) && t.version == 0
    ensures var c := Apply(Apply(b, PurgeOf(t)).0, ClearOf(t)).0;
            VersionInv(c) && Meta !in c && VersionForNew(c) == Some(0)
  {
    hide Apply, VersionInv;
    Collects(b, t.kind, 0);
  }

  /**
    A scan that was overtaken loses data, however many workers there are: queueing a task whose
    gc-version key was stored earlier but is gone by now makes its worker purge the live
    collection, whatever it contains.
   */
  lemma StaleScanLosesData(k: bytes, meta: Value, puts: Items, pool: Pool)
    requires WellFormed(Write(meta, puts, {})) && puts != map[]
    ensures var t := GcTask(KindOf(meta), k, 0); var i := Home(pool, t);
            exists moves: seq<Move>, found: nat ::
              && found <= |moves| && AllFresh(Start(pool), moves, pool)
              && Pending(NextAll(Start(pool), moves[..found], pool).kv, t)
              && var s := NextAll(Start(pool), moves, pool);
              && See(BlockOf(s.kv, k)) == Coll(WithVersion(meta, 0), puts)
              && See(BlockOf(Next(Next(Next(s, Found(t), pool), Take(i), pool), PurgeData(i), pool).kv, k))
                 == Coll(WithVersion(meta, 0), map[])
  {
    hide NextAll, AllFresh, Contents, VersionInv, Apply, Next, Holding, Start, BlockOf;
    var moves, found, b := Recreated(k, meta, puts, pool);
    var t := GcTask(KindOf(meta), k, 0);
    Handled(k, b, t, pool);
    HoldingBlock(pool, k, b, PurgeOf(t));
    LiveSlots(b, 0);
    PurgesAll(b, t.kind, 0);
  }

  /** Everything under the live version is of the live type. */
  lemma LiveSlots(b: Block, v: u16)
    requires VersionInv(b) && HasColl(b) && b[Meta].version == v
    ensures forall s :: s in Contents(b, v) ==> Of(KindOf(b[Meta]), s)
  {
    ContentsAt(b, v);
    forall s | s in Contents(b, v) ensures Of(KindOf(b[Meta]), s) {
      assert Data(v, s) in b && Owned(b, v, s);
    }
  }

  // ----- a full queue -----

  const TINY: Pool := Pool(1, 1, _ => 0)

  /** Three deleted versions of one key, pending at once. */
  lemma ThreePending(k: bytes, meta: Value) returns (moves: seq<Move>, b: Block)
    requires WellFormed(Write(meta, map[], {}))
    ensures AllFresh(Start(TINY), moves, TINY) && NextAll(Start(TINY), moves, TINY) == Holding(TINY, k, b)
    ensures forall v: u16 :: v < 3 ==> Marked(b, GcTask(KindOf(meta), k, v))
  {
    hide VersionInv, NextAll, AllFresh, Holding, Start, Fresh, Next, Marked;
    StartIs(TINY);
    EmptyHolding(TINY, k);
    EmptyInv();
    moves, b := CreateAndDelete([], k, meta, map[], map[], 0, TINY);
    moves, b := CreateAndDelete(moves, k, meta, map[], b, 1, TINY);
    moves, b := CreateAndDelete(moves, k, meta, map[], b, 2, TINY);
  }

  /** One worker and a queue of one: a third version blocks the worker that has just collected the first. */
  lemma DeadlockExample(k: bytes, meta: Value)
    requires WellFormed(Write(meta, map[], {}))
    ensures exists moves: seq<Move> ::
              AllFresh(Start(TINY), moves, TINY) && AnyStuck(NextAll(Start(TINY), moves, TINY))
  {
    hide VersionInv, NextAll, AllFresh, Holding, Start, Marked, Apply, BlockOf, Next;
    var moves, b := ThreePending(k, meta);
    var t0, t1, t2 := GcTask(KindOf(meta), k, 0), GcTask(KindOf(meta), k, 1), GcTask(KindOf(meta), k, 2);
    var four := Handling(t0, TINY);
    Handled(k, b, t0, TINY);
    HoldingBlock(TINY, k, b, PurgeOf(t0));
    var s := Holding(TINY, k, b);
    moves := More(moves, four[0], s, TINY);
    s := Next(s, four[0], TINY);
    moves := More(moves, four[1], s, TINY);
    s := Next(s, four[1], TINY);
    moves := More(moves, four[2], s, TINY);
    s := Next(s, four[2], TINY);
    moves := More(moves, four[3], s, TINY);
    s := Next(s, four[3], TINY);
    var c := Apply(Apply(b, PurgeOf(t0)).0, ClearOf(t0)).0;
    HoldingBlock(TINY, k, c, ClearOf(t0));
    StillMarked(b, t0, t1);
    StillMarked(b, t0, t2);
    assert BlockOf(s.kv, k) == c;
    TwoMore(s, t0, t1, t2);
    moves := More(moves, Found(t1), s, TINY);
    moves := More(moves, Found(t2), Next(s, Found(t1), TINY), TINY);
  }

  lemma StillMarked(b: Block, t: GcTask, u: GcTask)
    requires Marked(b, t) && Marked(b, u) && t.userKey == u.userKey && t != u
    ensures Marked(Apply(Apply(b, PurgeOf(t)).0, ClearOf(t)).0, u)
  {
    hide Apply;
    PurgeKeepsMark(b, t, u);
    ClearKeepsMark(Apply(b, PurgeOf(t)).0, t, u);
  }

  lemma TwoMore(s: System, t: GcTask, u: GcTask, v: GcTask)
    requires t != u && t != v && u != v
    requires s.workers == [WorkerState([], {TaskBytes(t)}, Cleared(t), None)]
    ensures AnyStuck(Next(Next(s, Found(u), TINY), Found(v), TINY)) && Next(s, Found(u), TINY).kv == s.kv
  {
    hide TaskBytes;
    forall x: GcTask, y: GcTask | x != y ensures TaskBytes(x) != TaskBytes(y) {
      if TaskBytes(x) == TaskBytes(y) {
        TaskBytesInjective(x, y);
      }
    }
    var s2 := Next(Next(s, Found(u), TINY), Found(v), TINY);
    assert Stuck(s2.workers[0]);
  }
}
