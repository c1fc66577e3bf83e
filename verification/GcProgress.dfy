/**
  Which deleted versions can still be collected. A task that failed is never tried again; a
  full queue can block the master and a worker for good, because the master waits for room
  with the lock that the worker needs to finish. Everything else can be collected.
 */
module GcProgress {
  import opened Codec
  import opened Store
  import opened Gc
  import opened GcWorker
  import opened GcSystem

  // ----- blocked for good -----

  /** The worker needs the lock to finish; the sender that holds it waits for the worker to receive. */
  predicate Stuck(w: WorkerState) {
    w.waiting.Some? && w.phase.Cleared?
  }

  predicate AnyStuck(s: System) {
    exists i :: 0 <= i < |s.workers| && Stuck(s.workers[i])
  }

  /** A stuck worker never moves again, and neither does the master. */
  lemma StuckStays(s: System, m: Move, i: nat, pool: Pool)
    requires i < |s.workers| == pool.size && Stuck(s.workers[i])
    ensures Next(s, m, pool).workers[i] == s.workers[i]
    ensures m.Found? ==> Next(s, m, pool) == s
  {
    hide Stepped, Home;
  }

  lemma {:induction false} DeadlockIsForever(s: System, moves: seq<Move>, i: nat, pool: Pool)
    requires i < |s.workers| == pool.size && Stuck(s.workers[i])
    ensures NextAll(s, moves, pool).workers[i] == s.workers[i]
    decreases |moves|
  {
    hide Next, Stuck;
    if moves != [] {
      StuckStays(s, moves[0], i, pool);
      DeadlockIsForever(Next(s, moves[0], pool), moves[1..], i, pool);
    }
  }

  // ----- lost versions -----

  /**
    No worker holds the task and it is known: it failed. Or a worker is stuck that would have to
    move first: the task's own, if it holds the task; any, if the task has yet to be found, for
    then the master is stuck too.
   */
  predicate Lost(s: System, t: GcTask, pool: Pool)
    requires |s.workers| == pool.size
  {
    var w := s.workers[Home(pool, t)];
    if Holds(w, t) then Stuck(w)
    else if TaskBytes(t) !in w.known || w.phase == Cleared(t) then AnyStuck(s)
    else if w.phase == Purged(t) then w.waiting.Some? || AnyStuck(s)
    else true
  }

  lemma AnyStuckStays(s: System, m: Move, pool: Pool)
    requires |s.workers| == pool.size && AnyStuck(s)
    ensures AnyStuck(Next(s, m, pool))
  {
    hide Next, Stuck;
    var i :| 0 <= i < |s.workers| && Stuck(s.workers[i]);
    StuckStays(s, m, i, pool);
  }

  /** The tasks a worker loses from the known ones: none but the one it has finished. */
  lemma KnownStays(s: System, m: Move, t: GcTask, pool: Pool)
    requires |s.workers| == pool.size && TaskBytes(t) in s.workers[Home(pool, t)].known
    requires s.workers[Home(pool, t)].phase != Cleared(t)
    ensures TaskBytes(t) in Next(s, m, pool).workers[Home(pool, t)].known
  {
    hide Stepped, Home, TaskBytes;
    var w := s.workers[Home(pool, t)];
    if w.phase.Cleared? && TaskBytes(w.phase.task) == TaskBytes(t) {
      TaskBytesInjective(w.phase.task, t);
    }
  }

  /** Not purged by any worker, if its own worker does not have it. */
  lemma NotPurged(s: System, m: Move, t: GcTask, pool: Pool)
    requires SystemInv(s, pool) && s.workers[Home(pool, t)].phase != Taken(t)
    ensures !Purges(s, m, t)
  {
    hide SystemInv, Home;
    if Purges(s, m, t) {
      TakenAtHome(s, m.worker, t, pool);
    }
  }

  lemma TakenAtHome(s: System, j: nat, t: GcTask, pool: Pool)
    requires SystemInv(s, pool) && j < |s.workers| && s.workers[j].phase == Taken(t)
    ensures Home(pool, t) == j
  {
    hide Pending, TaskBytes, VersionInv, Home, WorkerShape;
    assert WorkerInv(s.kv, s.workers[j], j, pool) && Holds(s.workers[j], t);
  }

  lemma KnownNotHeldStays(s: System, m: Move, t: GcTask, pool: Pool)
    requires SystemInv(s, pool) && Fresh(s, m)
    requires var w := s.workers[Home(pool, t)]; TaskBytes(t) in w.known && !Holds(w, t)
    ensures !Holds(Next(s, m, pool).workers[Home(pool, t)], t)
  {
    hide Pending, VersionInv, Home, WorkerShape, Fresh, Holds, Next, TaskBytes, Purges;
    MovedHolds(s, m, Home(pool, t), pool);
    if m == Found(t) {
      FoundKnown(s, t, pool);
    }
  }

  lemma FoundKnown(s: System, t: GcTask, pool: Pool)
    requires |s.workers| == pool.size && TaskBytes(t) in s.workers[Home(pool, t)].known
    ensures Next(s, Found(t), pool) == s
  {
  }

  lemma LostStays(s: System, m: Move, t: GcTask, pool: Pool)
    requires SystemInv(s, pool) && Fresh(s, m) && Pending(s.kv, t) && Lost(s, t, pool)
    ensures Lost(Next(s, m, pool), t, pool) && Pending(Next(s, m, pool).kv, t)
  {
    hide Pending, VersionInv, Home, TaskBytes, WorkerInv, OneWaits, Fresh, Client, Stepped, AnyStuck;
    var i := Home(pool, t);
    var w, r := s.workers[i], Next(s, m, pool);
    NotPurged(s, m, t, pool);
    PendingUnlessCollected(s, m, t, pool);
    if AnyStuck(s) {
      AnyStuckStays(s, m, pool);
    }
    if Holds(w, t) {
      StuckStays(s, m, i, pool);
    } else if TaskBytes(t) in w.known {
      KnownNotHeldStays(s, m, t, pool);
      PhaseOf(s, m, t, pool);
      if w.phase != Cleared(t) {
        KnownStays(s, m, t, pool);
      }
    } else {
      StuckFindsNothing(s, m, t, pool);
    }
  }

  /** How the phase of a known task that no worker holds can change. */
  lemma PhaseOf(s: System, m: Move, t: GcTask, pool: Pool)
    requires SystemInv(s, pool) && Fresh(s, m)
    requires var w := s.workers[Home(pool, t)]; TaskBytes(t) in w.known && !Holds(w, t)
    ensures var w, r := s.workers[Home(pool, t)], Next(s, m, pool).workers[Home(pool, t)];
            && (r.phase == Purged(t) ==> w.phase == Purged(t) && (w.waiting.Some? ==> r.waiting.Some?))
            && (r.phase == Cleared(t) ==>
                  w.phase == Cleared(t) || (w.phase == Purged(t) && (w.waiting.Some? ==> AnyStuck(Next(s, m, pool)))))
            && (w.phase == Cleared(t) && r.phase != Cleared(t) ==> TaskBytes(t) !in r.known)
  {
    hide Pending, VersionInv, Home, WorkerInv, OneWaits, Client, Stepped;
  }

  lemma StuckFindsNothing(s: System, m: Move, t: GcTask, pool: Pool)
    requires SystemInv(s, pool) && Fresh(s, m) && AnyStuck(s)
    requires var w := s.workers[Home(pool, t)]; TaskBytes(t) !in w.known && !Holds(w, t)
    ensures var r := Next(s, m, pool).workers[Home(pool, t)]; TaskBytes(t) !in r.known && !Holds(r, t)
  {
    hide Pending, VersionInv, Home, WorkerShape, Client, Stepped, TaskBytes;
    var i :| 0 <= i < |s.workers| && Stuck(s.workers[i]);
    if m.Found? {
      StuckStays(s, m, i, pool);
    } else {
      MovedHolds(s, m, Home(pool, t), pool);
    }
  }

  lemma {:induction false} LostForever(s: System, moves: seq<Move>, t: GcTask, pool: Pool)
    requires SystemInv(s, pool) && AllFresh(s, moves, pool) && Pending(s.kv, t) && Lost(s, t, pool)
    ensures Pending(NextAll(s, moves, pool).kv, t) && Lost(NextAll(s, moves, pool), t, pool)
    decreases |moves|
  {
    hide Lost, Pending, Next, Fresh, VersionInv, WorkerInv, OneWaits, Shows;
    if moves != [] {
      LostStays(s, moves[0], t, pool);
      NextKeepsInv(s, moves[0], pool);
      LostForever(Next(s, moves[0], pool), moves[1..], t, pool);
    }
  }

  // ----- all others can be collected -----

  /** A run with fresh scans after which the version is not pending. */
  ghost predicate Collected(s: System, moves: seq<Move>, t: GcTask, pool: Pool)
    requires |s.workers| == pool.size
  {
    AllFresh(s, moves, pool) && !Pending(NextAll(s, moves, pool).kv, t)
  }

  lemma Prepend(s: System, m: Move, rest: seq<Move>, t: GcTask, pool: Pool) returns (moves: seq<Move>)
    requires |s.workers| == pool.size && Fresh(s, m) && Collected(Next(s, m, pool), rest, t, pool)
    ensures Collected(s, moves, t, pool)
  {
    hide Next, Fresh, Pending;
    moves := [m] + rest;
    assert moves[1..] == rest;
  }

  /** A move that keeps a task pending leaves a good state. */
  lemma Onward(s: System, m: Move, t: GcTask, pool: Pool)
    requires SystemInv(s, pool) && Pending(s.kv, t) && Fresh(s, m) && !m.PurgeData?
    ensures SystemInv(Next(s, m, pool), pool) && Pending(Next(s, m, pool).kv, t)
  {
    hide SystemInv, Pending, Fresh, Next, Shows;
    NextKeepsInv(s, m, pool);
    PendingUnlessCollected(s, m, t, pool);
  }

  function IndexOf(q: seq<GcTask>, t: GcTask): (i: nat)
    requires t in q
    ensures i < |q| && q[i] == t
  {
    if q[0] == t then 0 else 1 + IndexOf(q[1..], t)
  }

  /** How many moves of its worker a held task is away from being purged. */
  function Distance(w: WorkerState, t: GcTask): nat
    requires Holds(w, t)
  {
    if w.phase == Taken(t) then 1
    else 2 * (if t in w.queue then IndexOf(w.queue, t) + 1 else |w.queue| + 1) + if w.phase.Idle? then 0 else 1
  }

  lemma {:induction false} IndexOfFirst(q: seq<GcTask>, t: GcTask, more: seq<GcTask>)
    requires t in q
    ensures IndexOf(q + more, t) == IndexOf(q, t)
  {
    if q[0] != t {
      assert (q + more)[1..] == q[1..] + more;
      IndexOfFirst(q[1..], t, more);
    }
  }

  /** Receiving brings every held task nearer. */
  lemma ReceiveIsNearer(w: WorkerState, t: GcTask, capacity: nat)
    requires WorkerShape(w, capacity) && capacity > 0 && Holds(w, t) && w.phase.Idle?
    requires forall u :: Holds(w, u) ==> TaskBytes(u) in w.known
    ensures Holds(Receive(w), t) && Distance(Receive(w), t) < Distance(w, t) && !Receive(w).phase.Cleared?
  {
    hide TaskBytes;
    ReceiveHolds(w, capacity);
    var rest := w.queue[1..];
    var more := if w.waiting.Some? then [w.waiting.value] else [];
    assert Receive(w).queue == rest + more;
    if t in w.queue && w.queue[0] != t {
      assert w.queue == [w.queue[0]] + rest;
      IndexOfFirst(rest, t, more);
    }
  }

  /** A held task whose worker is not stuck: the worker clears what is before it and purges it. */
  lemma {:induction false} CollectHeld(s: System, t: GcTask, pool: Pool) returns (moves: seq<Move>)
    requires SystemInv(s, pool) && Pending(s.kv, t)
    requires var w := s.workers[Home(pool, t)]; Holds(w, t) && !Stuck(w)
    ensures Collected(s, moves, t, pool)
    decreases Distance(s.workers[Home(pool, t)], t)
  {
    hide Pending, VersionInv, Home, TaskBytes, WorkerShape, Stepped, Collected, Receive;
    var i := Home(pool, t);
    var w := s.workers[i];
    assert WorkerInv(s.kv, w, i, pool);
    if w.phase == Taken(t) {
      moves := [PurgeData(i)];
      PendingUnlessCollected(s, moves[0], t, pool);
      OneMove(s, moves[0], t, pool);
    } else {
      var m := if w.phase.Idle? then Take(i) else if w.phase.Cleared? then Release(i) else Fail(i);
      Onward(s, m, t, pool);
      if w.phase.Idle? {
        ReceiveIsNearer(w, t, pool.capacity);
      }
      var rest := CollectHeld(Next(s, m, pool), t, pool);
      moves := Prepend(s, m, rest, t, pool);
    }
  }

  lemma OneMove(s: System, m: Move, t: GcTask, pool: Pool)
    requires |s.workers| == pool.size && Fresh(s, m) && !Pending(Next(s, m, pool).kv, t)
    ensures Collected(s, [m], t, pool)
  {
    hide Next, Fresh, Pending;
    assert [m][1..] == [];
    assert AllFresh(Next(s, m, pool), [], pool) && NextAll(Next(s, m, pool), [], pool) == Next(s, m, pool);
  }

  /** A task that is not known, with a free master: the next scan finds it. */
  lemma CollectFound(s: System, t: GcTask, pool: Pool) returns (moves: seq<Move>)
    requires SystemInv(s, pool) && Pending(s.kv, t) && MasterFree(s)
    requires var w := s.workers[Home(pool, t)]; TaskBytes(t) !in w.known && !w.phase.Cleared?
    ensures Collected(s, moves, t, pool)
  {
    hide Pending, VersionInv, Home, TaskBytes, WorkerShape, Stepped, Collected, WorkerInv;
    Onward(s, Found(t), t, pool);
    var rest := CollectHeld(Next(s, Found(t), pool), t, pool);
    moves := Prepend(s, Found(t), rest, t, pool);
  }

  lemma CollectFree(s: System, t: GcTask, pool: Pool) returns (moves: seq<Move>)
    requires SystemInv(s, pool) && Pending(s.kv, t) && MasterFree(s)
    requires var w := s.workers[Home(pool, t)]; TaskBytes(t) !in w.known || w.phase == Cleared(t)
    ensures Collected(s, moves, t, pool)
  {
    hide Pending, VersionInv, Home, TaskBytes, WorkerShape, Stepped, Collected, WorkerInv, OneWaits;
    var i := Home(pool, t);
    if s.workers[i].phase.Cleared? {
      var m := Release(i);
      Onward(s, m, t, pool);
      var rest := CollectFound(Next(s, m, pool), t, pool);
      moves := Prepend(s, m, rest, t, pool);
    } else {
      moves := CollectFound(s, t, pool);
    }
  }

  /** A task that is not known, or about to be: first the master gets free, if it waits at a worker that can move. */
  lemma CollectUnknown(s: System, t: GcTask, pool: Pool) returns (moves: seq<Move>)
    requires SystemInv(s, pool) && Pending(s.kv, t) && !AnyStuck(s)
    requires var w := s.workers[Home(pool, t)]; TaskBytes(t) !in w.known || w.phase == Cleared(t)
    ensures Collected(s, moves, t, pool)
  {
    hide Pending, VersionInv, Home, TaskBytes, Stepped, Collected, WorkerInv, Receive;
    if MasterFree(s) {
      moves := CollectFree(s, t, pool);
    } else {
      var j :| 0 <= j < |s.workers| && s.workers[j].waiting.Some?;
      assert !Stuck(s.workers[j]);
      if s.workers[j].phase.Idle? {
        moves := CollectWaiting(s, j, t, pool);
      } else {
        Onward(s, Fail(j), t, pool);
        var rest := CollectWaiting(Next(s, Fail(j), pool), j, t, pool);
        moves := Prepend(s, Fail(j), rest, t, pool);
      }
    }
  }

  lemma CollectWaiting(s: System, j: nat, t: GcTask, pool: Pool) returns (moves: seq<Move>)
    requires SystemInv(s, pool) && Pending(s.kv, t)
    requires j < |s.workers| && s.workers[j].waiting.Some? && s.workers[j].phase.Idle?
    requires var w := s.workers[Home(pool, t)]; TaskBytes(t) !in w.known || w.phase == Cleared(t)
    ensures Collected(s, moves, t, pool)
  {
    hide Pending, VersionInv, Home, TaskBytes, Stepped, Collected;
    assert WorkerInv(s.kv, s.workers[j], j, pool);
    Onward(s, Take(j), t, pool);
    var rest := CollectFree(Next(s, Take(j), pool), t, pool);
    moves := Prepend(s, Take(j), rest, t, pool);
  }

  lemma CollectAny(s: System, t: GcTask, pool: Pool) returns (moves: seq<Move>)
    requires SystemInv(s, pool) && Pending(s.kv, t) && !Lost(s, t, pool)
    ensures Collected(s, moves, t, pool)
  {
    hide Pending, VersionInv, Home, TaskBytes, Stepped, Collected, WorkerInv, OneWaits;
    var i := Home(pool, t);
    var w := s.workers[i];
    if Holds(w, t) {
      moves := CollectHeld(s, t, pool);
    } else if TaskBytes(t) !in w.known || w.phase == Cleared(t) {
      moves := CollectUnknown(s, t, pool);
    } else {
      var m := ForgetVersion(i);
      Onward(s, m, t, pool);
      var rest := CollectUnknown(Next(s, m, pool), t, pool);
      moves := Prepend(s, m, rest, t, pool);
    }
  }

  /** A deleted version can still be collected, in some run with fresh scans, if and only if it is not lost. */
  lemma CollectableIff(s: System, t: GcTask, pool: Pool)
    requires SystemInv(s, pool) && Pending(s.kv, t)
    ensures (exists moves :: Collected(s, moves, t, pool)) <==> !Lost(s, t, pool)
  {
    hide VersionInv, WorkerInv, OneWaits, Pending, Lost, AllFresh, NextAll;
    if Lost(s, t, pool) {
      forall moves ensures !Collected(s, moves, t, pool) {
        if AllFresh(s, moves, pool) {
          LostForever(s, moves, t, pool);
        }
      }
    } else {
      var moves := CollectAny(s, t, pool);
    }
  }

  // ----- what fails -----

  /** Giving up a task loses it, whichever of its transactions failed. */
  lemma FailLoses(s: System, i: nat, pool: Pool)
    requires SystemInv(s, pool) && i < |s.workers| && (s.workers[i].phase.Taken? || s.workers[i].phase.Purged?)
    ensures Lost(Next(s, Fail(i), pool), s.workers[i].phase.task, pool)
  {
    hide Pending, TaskBytes, Home, VersionInv;
    assert WorkerInv(s.kv, s.workers[i], i, pool);
  }

  /**
    A task whose first transaction failed: in every later run its version stays pending, so it is
    neither collected nor handed out again.
   */
  lemma FailedIsNeverRetried(s: System, i: nat, moves: seq<Move>, pool: Pool)
    requires SystemInv(s, pool) && i < |s.workers| && s.workers[i].phase.Taken?
    requires AllFresh(Next(s, Fail(i), pool), moves, pool)
    ensures var t, e := s.workers[i].phase.task, NextAll(Next(s, Fail(i), pool), moves, pool);
            Lost(e, t, pool) && Pending(e.kv, t) && VersionForNew(BlockOf(e.kv, t.userKey)) != Some(t.version)
  {
    hide VersionInv, Home, TaskBytes, WorkerShape, OneWaits, NextAll, AllFresh, Lost, BlockOf, Shows;
    var t := s.workers[i].phase.task;
    assert WorkerInv(s.kv, s.workers[i], i, pool) && Holds(s.workers[i], t);
    FailLoses(s, i, pool);
    Onward(s, Fail(i), t, pool);
    LostForever(Next(s, Fail(i), pool), moves, t, pool);
  }

  // ----- what blocks -----

  /**
    How the master and a worker come to block each other: the master finds a new task for a full
    queue while the worker has only its task to strike off, or the worker gets that far while
    the master waits.
   */
  lemma BlocksIff(s: System, m: Move, pool: Pool)
    requires SystemInv(s, pool) && !AnyStuck(s)
    ensures AnyStuck(Next(s, m, pool))
            <==> match m
                 case Found(t) =>
                   var w := s.workers[Home(pool, t)];
                   MasterFree(s) && TaskBytes(t) !in w.known && |w.queue| == pool.capacity && w.phase.Cleared?
                 case ForgetVersion(i) => i < |s.workers| && s.workers[i].phase.Purged? && s.workers[i].waiting.Some?
                 case _ => false
  {
    hide Pending, TaskBytes, Home, VersionInv, Stepped;
    var r := Next(s, m, pool);
    match m {
      case Found(t) =>
        var i := Home(pool, t);
        assert WorkerInv(s.kv, s.workers[i], i, pool);
        if MasterFree(s) && TaskBytes(t) !in s.workers[i].known && |s.workers[i].queue| == pool.capacity
           && s.workers[i].phase.Cleared? {
          assert Stuck(r.workers[i]);
        } else {
          forall j | 0 <= j < |r.workers| ensures !Stuck(r.workers[j]) {
            assert !Stuck(s.workers[j]);
          }
        }
      case ForgetVersion(i) =>
        if i < |s.workers| && s.workers[i].phase.Purged? && s.workers[i].waiting.Some? {
          assert Stuck(r.workers[i]);
        } else {
          forall j | 0 <= j < |r.workers| ensures !Stuck(r.workers[j]) {
            assert !Stuck(s.workers[j]);
          }
        }
      case _ =>
        forall j | 0 <= j < |r.workers| ensures !Stuck(r.workers[j]) {
          assert !Stuck(s.workers[j]);
        }
    }
  }

  ghost predicate Frees(s: System, moves: seq<Move>, pool: Pool)
    requires |s.workers| == pool.size
  {
    AllFresh(s, moves, pool) && MasterFree(NextAll(s, moves, pool))
  }

  /** The master can go on, in some run, if and only if no worker is stuck. */
  lemma MasterFreesIff(s: System, pool: Pool)
    requires SystemInv(s, pool)
    ensures (exists moves :: Frees(s, moves, pool)) <==> !AnyStuck(s)
  {
    hide Pending, TaskBytes, Home, VersionInv, Stepped, WorkerInv, NextAll, AllFresh;
    if AnyStuck(s) {
      var i :| 0 <= i < |s.workers| && Stuck(s.workers[i]);
      forall moves ensures !Frees(s, moves, pool) {
        DeadlockIsForever(s, moves, i, pool);
        assert NextAll(s, moves, pool).workers[i].waiting.Some?;
      }
    } else if MasterFree(s) {
      NoMove(s, pool);
    } else {
      var j :| 0 <= j < |s.workers| && s.workers[j].waiting.Some?;
      assert !Stuck(s.workers[j]);
      FailThenTake(s, j, pool);
    }
  }

  lemma NoMove(s: System, pool: Pool)
    requires |s.workers| == pool.size && MasterFree(s)
    ensures Frees(s, [], pool)
  {
  }

  /** A worker that is not stuck gives up what it has and receives, so that the sender gets its place. */
  lemma FailThenTake(s: System, j: nat, pool: Pool)
    requires SystemInv(s, pool) && j < |s.workers| && s.workers[j].waiting.Some? && !s.workers[j].phase.Cleared?
    ensures Frees(s, [Fail(j), Take(j)], pool)
  {
    hide Pending, TaskBytes, Home, VersionInv, Stepped;
    assert WorkerInv(s.kv, s.workers[j], j, pool);
    var s1 := Next(s, Fail(j), pool);
    var s2 := Next(s1, Take(j), pool);
    assert [Fail(j), Take(j)][1..] == [Take(j)] && [Take(j)][1..] == [];
    assert NextAll(s2, [], pool) == s2 && AllFresh(s2, [], pool);
    assert NextAll(s1, [Take(j)], pool) == s2 && AllFresh(s1, [Take(j)], pool);
    forall i | 0 <= i < |s2.workers| ensures s2.workers[i].waiting.None? {
    }
  }
}
