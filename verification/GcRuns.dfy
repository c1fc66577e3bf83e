/**
  Deletion over the whole store, with every user key and every gc task interleaved, and
  the runs that show why the guards on the steps are needed.
 */
module GcRuns {
  import opened Bytes
  import opened Codec
  import opened Keys
  import opened Values
  import opened Store
  import opened Gc

  function WithBlock(kv: Map, k: bytes, b: Block): Map {
    map key | key in (set x | x in kv && x.ukey != k) + (set p | p in b :: Key(k, p))
      :: if key.ukey == k then b[key.part] else kv[key]
  }

  lemma BlockOfWithBlock(kv: Map, k: bytes, b: Block, other: bytes)
    ensures BlockOf(WithBlock(kv, k, b), other) == if other == k then b else BlockOf(kv, other)
  {
    var after := WithBlock(kv, k, b);
    forall p
      ensures p in BlockOf(after, other) <==> if other == k then p in b else p in BlockOf(kv, other)
      ensures p in BlockOf(after, other) ==>
                BlockOf(after, other)[p] == if other == k then b[p] else BlockOf(kv, other)[p]
    {
      InBlockOf(after, other, p);
      InBlockOf(kv, other, p);
    }
  }

  /** One command or gc transaction on one user key. */
  datatype Event = Event(k: bytes, step: Step)

  function StoreRun(kv: Map, events: seq<Event>): Map
    decreases |events|
  {
    if events == [] then kv
    else
      var e := events[0];
      StoreRun(WithBlock(kv, e.k, Apply(BlockOf(kv, e.k), e.step).0), events[1..])
  }

  function StepsOf(events: seq<Event>, k: bytes): seq<Step> {
    if events == [] then []
    else (if events[0].k == k then [events[0].step] else []) + StepsOf(events[1..], k)
  }

  /** Keys do not interfere: each key's block is the result of its own steps. */
  lemma {:induction false} RunOfBlock(kv: Map, events: seq<Event>, k: bytes)
    ensures BlockOf(StoreRun(kv, events), k) == Run(BlockOf(kv, k), StepsOf(events, k))
    decreases |events|
  {
    hide Apply, BlockOf, WithBlock;
    if events != [] {
      var e := events[0];
      var next := WithBlock(kv, e.k, Apply(BlockOf(kv, e.k), e.step).0);
      BlockOfWithBlock(kv, e.k, Apply(BlockOf(kv, e.k), e.step).0, k);
      RunOfBlock(next, events[1..], k);
      if e.k == k {
        assert StepsOf(events, k)[1..] == StepsOf(events[1..], k);
      } else {
        assert StepsOf(events, k) == StepsOf(events[1..], k);
      }
    }
  }

  /**
    From an empty store, after any interleaving of writes, deletions, expirations and gc
    transactions over all keys, each key shows what its own accepted commands would have
    produced in a store where deletion is immediate; its live version is not pending and
    all of its data belongs to the live version or to a pending one.
   */
  lemma AsyncDeletionIsImmediate(events: seq<Event>, k: bytes)
    requires GuardedRun(map[], StepsOf(events, k))
    ensures VersionInv(BlockOf(StoreRun(map[], events), k))
    ensures See(BlockOf(StoreRun(map[], events), k)) == IdealRun(Nothing, Done(map[], StepsOf(events, k)))
  {
    hide Run, Done, See, VersionInv, GuardedRun, IdealRun, StoreRun, StepsOf;
    RunOfBlock(map[], events, k);
    EmptyInv();
    assert See(map[]) == Nothing by { SeeEmpty(); }
    assert BlockOf(map[], k) == map[];
    RunRefines(map[], StepsOf(events, k));
  }

  // ----- commands interleaved with the gc -----

  /** One change of a key's block: a command ran on it, or a gc transaction that is allowed to. */
  ghost predicate Moves(b: Block, c: Block) {
    || Reaches(b, c)
    || exists step: Step :: (step.Purge? || step.ClearGc?) && Guard(b, step) && c == Apply(b, step).0
  }

  lemma {:induction false} GuardedConcat(b: Block, s: seq<Step>, t: seq<Step>)
    requires GuardedRun(b, s) && GuardedRun(Run(b, s), t)
    ensures GuardedRun(b, s + t)
    decreases |s|
  {
    hide Apply, Guard;
    if s == [] {
      assert s + t == t;
    } else {
      assert (s + t)[1..] == s[1..] + t;
      GuardedConcat(Apply(b, s[0]).0, s[1..], t);
    }
  }

  /** The steps that one move stands for: those of its command, or the one gc transaction. */
  ghost predicate Explains(b: Block, c: Block, steps: seq<Step>) {
    && GuardedRun(b, steps) && Run(b, steps) == c
    && (Commands(steps) || (|steps| == 1 && (steps[0].Purge? || steps[0].ClearGc?)))
  }

  lemma MoveSteps(b: Block, c: Block) returns (steps: seq<Step>)
    requires Moves(b, c)
    ensures Explains(b, c, steps)
  {
    hide Apply;
    if Reaches(b, c) {
      steps :| Commands(steps) && Run(b, steps) == c;
      CommandsGuarded(b, steps);
    } else {
      var step: Step :| (step.Purge? || step.ClearGc?) && Guard(b, step) && c == Apply(b, step).0;
      steps := [step];
      assert steps[1..] == [];
      assert Run(Apply(b, step).0, []) == Apply(b, step).0;
      assert GuardedRun(b, steps) && Run(b, steps) == c;
    }
  }

  function Flat(parts: seq<seq<Step>>): seq<Step> {
    if parts == [] then [] else Flat(parts[..|parts| - 1]) + parts[|parts| - 1]
  }

  /** Each move of a history is explained by its own steps, in order. */
  ghost predicate Explained(history: seq<Block>, parts: seq<seq<Step>>) {
    |history| == |parts| + 1 && forall i :: 0 <= i < |parts| ==> Explains(history[i], history[i + 1], parts[i])
  }

  /**
    A whole history of one key: each move is explained by steps of its own, every state is in
    order, each move shows what its accepted steps do with immediate deletion, and so does the
    whole history.
   */
  lemma {:induction false} HistoryRefines(history: seq<Block>) returns (parts: seq<seq<Step>>)
    requires history != [] && history[0] == map[]
    requires forall i :: 0 <= i < |history| - 1 ==> Moves(history[i], history[i + 1])
    ensures Explained(history, parts)
    ensures forall i :: 0 <= i < |history| ==> VersionInv(history[i])
    ensures forall i :: 0 <= i < |parts| ==>
              See(history[i + 1]) == IdealRun(See(history[i]), Done(history[i], parts[i]))
    ensures var last, steps := history[|history| - 1], Flat(parts);
            && GuardedRun(map[], steps) && Run(map[], steps) == last
            && See(last) == IdealRun(Nothing, Done(map[], steps))
    decreases |history|
  {
    hide Run, Done, See, VersionInv, GuardedRun, IdealRun, Moves, Explains;
    EmptyInv();
    SeeEmpty();
    EmptyRun();
    if |history| == 1 {
      parts := [];
      RunRefines(map[], []);
    } else {
      var init, b, c := history[..|history| - 1], history[|history| - 2], history[|history| - 1];
      var before := HistoryRefines(init);
      assert init[|init| - 1] == b;
      var more := MoveSteps(b, c);
      parts := before + [more];
      assert parts[..|parts| - 1] == before;
      ExplainedRun(b, c, more);
      RunRefines(b, more);
      assert forall i :: 0 <= i < |init| ==> history[i] == init[i];
      GuardedConcat(map[], Flat(before), more);
      RunConcat(map[], Flat(before), more);
      RunRefines(map[], Flat(parts));
    }
  }

  lemma ExplainedRun(b: Block, c: Block, steps: seq<Step>)
    requires Explains(b, c, steps)
    ensures GuardedRun(b, steps) && Run(b, steps) == c
  {
  }

  lemma EmptyRun()
    ensures GuardedRun(map[], []) && Run(map[], []) == map[]
  {
  }

  // ----- the guards are needed -----

  /** In a good state, a purge is invisible exactly when it does not hit data of the live version. */
  lemma PurgeInvisibleIff(b: Block, kind: Kind, v: u16)
    requires VersionInv(b)
    ensures See(b) == See(Apply(b, Purge(kind, v)).0)
            <==> !(HasColl(b) && b[Meta].version == v && exists s :: s in Contents(b, v) && Of(kind, s))
  {
    var c := Apply(b, Purge(kind, v)).0;
    if HasColl(b) {
      var w := b[Meta].version;
      ContentsAt(b, w);
      ContentsAt(c, w);
      if !(w == v && exists s :: s in Contents(b, v) && Of(kind, s)) {
        SameContents(b, c, w);
      } else {
        var s :| s in Contents(b, v) && Of(kind, s);
        assert s !in Contents(c, v);
      }
    }
  }

  /** A purge breaks the invariant exactly when it drops a pending mark but not all the data under it. */
  lemma PurgeKeepsInvIff(b: Block, kind: Kind, v: u16)
    requires VersionInv(b)
    ensures VersionInv(Apply(b, Purge(kind, v)).0)
            <==> !(GcVersion(v) in b && exists s :: s in Contents(b, v) && !Of(kind, s))
  {
    var c := Apply(b, Purge(kind, v)).0;
    ContentsAt(b, v);
    if GcVersion(v) in b && exists s :: s in Contents(b, v) && !Of(kind, s) {
      var s :| s in Contents(b, v) && !Of(kind, s);
      assert Data(v, s) in c && !Owned(c, v, s);
    } else {
      forall w, s | Data(w, s) in c ensures Owned(c, w, s) {
        assert Data(w, s) in b && Owned(b, w, s);
      }
    }
  }

  /** Creating a collection where version `v` is free. */
  lemma Creates(b: Block, meta: Value, puts: Items, v: u16)
    requires VersionInv(b) && WellFormed(Write(meta, puts, {})) && Meta !in b && VersionForNew(b) == Some(v)
    ensures var c := Apply(b, Write(meta, puts, {})).0;
            && VersionInv(c) && Meta in c && c[Meta] == WithVersion(meta, v) && Contents(c, v) == puts
            && (forall p: Part :: !p.Data? && p != Meta ==> (p in c <==> p in b) && (p in c ==> c[p] == b[p]))
  {
    hide Contents, VersionInv;
    WriteRefines(b, meta, puts, {});
    InstallContents(b, WithVersion(meta, v), puts, {});
    FreshVersionEmpty(b, v);
    assert (Contents(b, v) - {}) + puts == puts;
  }

  /** Deleting later leaves the version pending and remembers it. */
  lemma DeletesLater(b: Block)
    requires VersionInv(b) && HasColl(b)
    ensures var c, v := Apply(b, Del(true)).0, b[Meta].version;
            && VersionInv(c) && Meta !in c && Gc in c && c[Gc] == Version(v)
            && GcVersion(v) in c && c[GcVersion(v)] == TypeTag(KindOf(b[Meta]))
            && (forall w :: w != v ==> (GcVersion(w) in c <==> GcVersion(w) in b))
  {
    DelRefines(b, true);
  }

  /** Both gc transactions of the last deleted version free it again. */
  lemma Collects(b: Block, kind: Kind, v: u16)
    requires VersionInv(b) && Meta !in b && Gc in b && b[Gc] == Version(v)
    requires GcVersion(v) in b && b[GcVersion(v)] == TypeTag(kind)
    ensures Guard(b, Purge(kind, v))
    ensures var c := Apply(Apply(b, Purge(kind, v)).0, ClearGc(v)).0;
            && VersionInv(c) && Meta !in c && Gc !in c && GcVersion(v) !in c
            && (forall w :: w != v ==> (GcVersion(w) in c <==> GcVersion(w) in b))
  {
    GcRefines(b, Purge(kind, v));
    GcRefines(Apply(b, Purge(kind, v)).0, ClearGc(v));
  }

  /**
    Without the guard the protocol loses data: a task handled twice (the worker does not
    re-read the gc-version key) purges the collection that was created in between. This
    holds for every collection and every contents.
   */
  lemma StaleTaskLosesData(meta: Value, puts: Items)
    requires WellFormed(Write(meta, puts, {})) && puts != map[]
    ensures var write, purge := Write(meta, puts, {}), Purge(KindOf(meta), 0);
            var before := Run(map[], [write, Del(true), purge, ClearGc(0), write]);
            && GuardedRun(map[], [write, Del(true), purge, ClearGc(0), write])
            && See(before) == Coll(WithVersion(meta, 0), puts)
            && See(Apply(before, purge).0) == Coll(WithVersion(meta, 0), map[])
  {
    hide Install, Contents, VersionInv, Without;
    var kind := KindOf(meta);
    var write, purge := Write(meta, puts, {}), Purge(kind, 0);
    EmptyInv();
    Creates(map[], meta, puts, 0);
    var b1 := Apply(map[], write).0;
    DeletesLater(b1);
    var b2 := Apply(b1, Del(true)).0;
    Collects(b2, kind, 0);
    var b4 := Apply(Apply(b2, purge).0, ClearGc(0)).0;
    Creates(b4, meta, puts, 0);
    var b5 := Apply(b4, write).0;
    FiveSteps(write, Del(true), purge, ClearGc(0), write);
    PurgesAll(b5, kind, 0);
  }

  lemma PurgesAll(b: Block, kind: Kind, v: u16)
    requires forall s :: s in Contents(b, v) ==> Of(kind, s)
    ensures var c := Apply(b, Purge(kind, v)).0;
            Contents(c, v) == map[] && (Meta in c <==> Meta in b) && (Meta in b ==> c[Meta] == b[Meta])
  {
    var c := Apply(b, Purge(kind, v)).0;
    ContentsAt(b, v);
    ContentsAt(c, v);
  }

  /**
    A creation can be refused while 65535 versions are free: when a later version is
    collected before version 0, the remembered version is forgotten and 0 is tried again.
   */
  lemma RefusedWhileFree(meta: Value, puts: Items)
    requires WellFormed(Write(meta, puts, {}))
    ensures var write, kind := Write(meta, puts, {}), KindOf(meta);
            var b := Apply(Apply(Apply(map[], write).0, Del(true)).0, write).0;
            var c := Apply(Apply(Apply(b, Del(true)).0, Purge(kind, 1)).0, ClearGc(1)).0;
            && Guard(Apply(b, Del(true)).0, Purge(kind, 1))
            && (forall v :: GcVersion(v) in c <==> v == 0)
            && Meta !in c
            && !Apply(c, write).1
  {
    hide Install, Contents, VersionInv, Without;
    var write := Write(meta, puts, {});
    EmptyInv();
    Creates(map[], meta, puts, 0);
    var b1 := Apply(map[], write).0;
    DeletesLater(b1);
    var b2 := Apply(b1, Del(true)).0;
    Creates(b2, meta, puts, 1);
    var b := Apply(b2, write).0;
    DeletesLater(b);
    Collects(Apply(b, Del(true)).0, KindOf(meta), 1);
  }

  /** A string write leaves a key in order exactly when it does not orphan data of a live collection. */
  lemma SetStringKeepsInvIff(b: Block, ttl: u64, data: bytes)
    requires VersionInv(b)
    ensures VersionInv(Apply(b, SetString(ttl, data)).0) <==> !(HasColl(b) && Contents(b, b[Meta].version) != map[])
  {
    var c := Apply(b, SetString(ttl, data)).0;
    if HasColl(b) && Contents(b, b[Meta].version) != map[] {
      var v := b[Meta].version;
      ContentsAt(b, v);
      var s :| s in Contents(b, v);
      assert Data(v, s) in c && !Owned(c, v, s);
    } else {
      forall v, s | Data(v, s) in c ensures Owned(c, v, s) {
        assert Data(v, s) in b && Owned(b, v, s);
        if HasColl(b) && v == b[Meta].version {
          ContentsAt(b, v);
        }
      }
    }
  }

  /** Overwriting a collection with a string and deleting the string brings the old contents back. */
  lemma StringOverwriteResurrects(meta: Value, puts: Items, again: Items, ttl: u64, data: bytes, later: bool)
    requires WellFormed(Write(meta, puts, {})) && WellFormed(Write(meta, again, {}))
    ensures var b := Apply(Apply(Apply(map[], Write(meta, puts, {})).0, SetString(ttl, data)).0, Del(later)).0;
            && See(b) == Nothing
            && See(Apply(b, Write(meta, again, {})).0) == Coll(WithVersion(meta, 0), puts + again)
  {
    hide Install, Contents, VersionInv, Without;
    EmptyInv();
    Creates(map[], meta, puts, 0);
    var b1 := Apply(map[], Write(meta, puts, {})).0;
    var b := Apply(Apply(b1, SetString(ttl, data)).0, Del(later)).0;
    SameContents(b1, b, 0);
    InstallContents(b, WithVersion(meta, 0), again, {});
    assert (Contents(b, 0) - {}) + again == puts + again;
  }

  lemma EmptyInv()
    ensures VersionInv(map[])
  {
  }

  lemma SeeEmpty()
    ensures See(map[]) == Nothing
  {
  }

  lemma FiveSteps(a: Step, b: Step, c: Step, d: Step, e: Step)
    ensures var s := Apply(Apply(Apply(Apply(map[], a).0, b).0, c).0, d).0;
            && Run(map[], [a, b, c, d, e]) == Apply(s, e).0
            && (Guard(map[], a) && Guard(Apply(map[], a).0, b) && Guard(Apply(Apply(map[], a).0, b).0, c)
                && Guard(Apply(Apply(Apply(map[], a).0, b).0, c).0, d) && Guard(s, e)
                ==> GuardedRun(map[], [a, b, c, d, e]))
  {
    hide Apply, Guard;
    var b1 := Apply(map[], a).0;
    var b2 := Apply(b1, b).0;
    var b3 := Apply(b2, c).0;
    var b4 := Apply(b3, d).0;
    assert [a, b, c, d, e][1..] == [b, c, d, e] && [b, c, d, e][1..] == [c, d, e] && [c, d, e][1..] == [d, e]
            && [d, e][1..] == [e];
    assert [e][1..] == [];
    assert Run(b4, [e]) == Apply(b4, e).0;
    assert Run(b3, [d, e]) == Run(b4, [e]);
    assert Run(b2, [c, d, e]) == Run(b3, [d, e]);
    assert Run(b1, [b, c, d, e]) == Run(b2, [c, d, e]);
    assert GuardedRun(b4, [e]) == Guard(b4, e);
    assert GuardedRun(b3, [d, e]) == (Guard(b3, d) && GuardedRun(b4, [e]));
    assert GuardedRun(b2, [c, d, e]) == (Guard(b2, c) && GuardedRun(b3, [d, e]));
    assert GuardedRun(b1, [b, c, d, e]) == (Guard(b1, b) && GuardedRun(b2, [c, d, e]));
  }
}
