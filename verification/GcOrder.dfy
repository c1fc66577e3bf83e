/**
  When a creation is refused for want of a version. The code only tries the version after the
  one it remembers, so it may refuse while others are free; if versions are collected oldest
  first, it refuses only when all 65536 are waiting to be collected.
 */
module GcOrder {
  import opened Bytes
  import opened Codec
  import opened Keys
  import opened Values
  import opened Store
  import opened Gc

  const VERSIONS: nat := 0x1_0000

  ghost predicate NonePending(b: Block) {
    forall v :: GcVersion(v) !in b
  }

  ghost predicate AllPending(b: Block) {
    forall v :: GcVersion(v) in b
  }

  /** A new collection is refused exactly when the one version that is tried is still pending. */
  lemma RefusedIff(b: Block, meta: Value, puts: Items, dels: set<Slot>)
    requires WellFormed(Write(meta, puts, dels)) && Meta !in b
    ensures !Apply(b, Write(meta, puts, dels)).1 <==> GcVersion(NextVersion(b)) in b
  {
  }

  // ----- versions go round -----

  function After(v: u16): u16 {
    if v == 0xFFFF then 0 else v + 1
  }

  /** How many deletions ago `v` was deleted, if `latest` was the latest and versions were handed out in turn. */
  function Age(latest: u16, v: u16): (n: nat)
    ensures n < VERSIONS
  {
    if v <= latest then latest - v else latest - v + VERSIONS
  }

  lemma AgeAfter(latest: u16, v: u16)
    ensures Age(After(latest), v) == if v == After(latest) then 0 else Age(latest, v) + 1
  {
  }

  /** The pending versions are the `n` latest ones. */
  ghost predicate Latest(b: Block, latest: u16, n: nat) {
    n <= VERSIONS && forall v :: GcVersion(v) in b <==> Age(latest, v) < n
  }

  /**
    Either nothing is pending, or the pending versions are the last ones up to the remembered
    one, and a live collection has the version after it.
   */
  ghost predicate Orderly(b: Block) {
    || NonePending(b)
    || (&& Gc in b && b[Gc].Version? && (exists n: nat :: Latest(b, b[Gc].version, n))
        && (HasColl(b) ==> b[Meta].version == After(b[Gc].version)))
  }

  /** In an orderly block a creation is refused if and only if all versions are pending. */
  lemma RefusedOnlyWhenFull(b: Block)
    requires Orderly(b)
    ensures VersionForNew(b) == None <==> AllPending(b)
  {
    if !NonePending(b) {
      var g := b[Gc].version;
      var n: nat :| Latest(b, g, n);
      assert Age(g, After(g)) == VERSIONS - 1;
      if VersionForNew(b) == None {
        forall v ensures GcVersion(v) in b {
          assert Age(g, v) < VERSIONS;
        }
      }
    } else {
      assert GcVersion(0) !in b;
    }
  }

  // ----- what keeps it -----

  /** Collecting oldest first: no pending version is older, and a version is forgotten only when it is collected. */
  ghost predicate OldestFirst(b: Block, step: Step) {
    match step
    case Purge(_, v) =>
      GcVersion(v) in b && Gc in b && b[Gc].Version? ==>
        forall w :: GcVersion(w) in b ==> Age(b[Gc].version, w) <= Age(b[Gc].version, v)
    case ClearGc(v) => GcVersion(v) !in b
    case _ => true
  }

  lemma PurgeKeepsOrder(b: Block, kind: Kind, v: u16)
    requires Orderly(b) && OldestFirst(b, Purge(kind, v))
    ensures Orderly(Apply(b, Purge(kind, v)).0)
  {
    hide Age, After;
    var c := Apply(b, Purge(kind, v)).0;
    assert forall w :: GcVersion(w) in c <==> GcVersion(w) in b && w != v;
    if GcVersion(v) in b {
      var g := b[Gc].version;
      var n: nat :| Latest(b, g, n);
      forall w ensures Age(g, w) < n - 1 <==> GcVersion(w) in c {
        assert GcVersion(v) in b <==> Age(g, v) < n;
        OldestIsLast(b, g, n, v);
        AgeInjective(g, v, w);
      }
      OldestIsLast(b, g, n, v);
      assert Latest(c, g, n - 1);
    } else {
      assert NonePending(b) ==> NonePending(c);
      if !NonePending(b) {
        var n: nat :| Latest(b, b[Gc].version, n);
        assert Latest(c, c[Gc].version, n);
      }
    }
  }

  lemma AgeInjective(g: u16, v: u16, w: u16)
    ensures Age(g, v) == Age(g, w) <==> v == w
  {
  }

  /** The oldest of the `n` latest versions has age `n - 1`. */
  lemma OldestIsLast(b: Block, g: u16, n: nat, v: u16)
    requires Latest(b, g, n) && GcVersion(v) in b
    requires forall w :: GcVersion(w) in b ==> Age(g, w) <= Age(g, v)
    ensures n > 0 && Age(g, v) == n - 1
  {
    var last: u16 := if g >= n - 1 then g - (n - 1) else g - (n - 1) + VERSIONS;
    assert Age(g, last) == n - 1;
    assert GcVersion(last) in b;
  }

  lemma ClearKeepsOrder(b: Block, v: u16)
    requires Orderly(b) && OldestFirst(b, ClearGc(v))
    ensures Orderly(Apply(b, ClearGc(v)).0)
  {
    var c := Apply(b, ClearGc(v)).0;
    assert forall w :: GcVersion(w) in c <==> GcVersion(w) in b;
    if !NonePending(b) {
      RememberedIsPending(b);
      assert c == b;
    }
  }

  lemma RememberedIsPending(b: Block)
    requires Orderly(b) && !NonePending(b)
    ensures Gc in b && b[Gc].Version? && GcVersion(b[Gc].version) in b
  {
    var n: nat :| Latest(b, b[Gc].version, n);
    var v :| GcVersion(v) in b;
    assert Age(b[Gc].version, v) < n;
  }

  lemma DelKeepsOrder(b: Block, later: bool)
    requires VersionInv(b) && Orderly(b)
    ensures Orderly(Apply(b, Del(later)).0)
  {
    hide Age, After;
    var c := Apply(b, Del(later)).0;
    if HasColl(b) && later {
      var v := b[Meta].version;
      assert Meta !in c && Gc in c && c[Gc] == Version(v);
      assert forall w :: GcVersion(w) in c <==> GcVersion(w) in b || w == v;
      if NonePending(b) {
        forall w ensures GcVersion(w) in c <==> Age(v, w) < 1 {
          AgeZero(v, w);
        }
        assert Latest(c, v, 1);
      } else {
        var g := b[Gc].version;
        var n: nat :| Latest(b, g, n);
        assert GcVersion(v) !in b && Age(g, v) >= n;
        forall w ensures GcVersion(w) in c <==> Age(v, w) < n + 1 {
          AgeAfter(g, w);
        }
        assert Latest(c, v, n + 1);
      }
    } else {
      SamePending(b, c);
    }
  }

  lemma AgeZero(v: u16, w: u16)
    ensures Age(v, w) == 0 <==> w == v
  {
  }

  /** Nothing about versions changes but, perhaps, that a live collection is gone. */
  lemma SamePending(b: Block, c: Block)
    requires Orderly(b) && (forall w :: GcVersion(w) in c <==> GcVersion(w) in b)
    requires Gc in b ==> Gc in c && c[Gc] == b[Gc]
    requires HasColl(c) ==> HasColl(b) && b[Meta].version == c[Meta].version
    ensures Orderly(c)
  {
    hide Age, After;
    if !NonePending(b) {
      var n: nat :| Latest(b, b[Gc].version, n);
      assert Latest(c, c[Gc].version, n);
    }
  }

  lemma WriteKeepsOrder(b: Block, meta: Value, puts: Items, dels: set<Slot>)
    requires WellFormed(Write(meta, puts, dels)) && Orderly(b)
    ensures Orderly(Apply(b, Write(meta, puts, dels)).0)
  {
    hide Age, Latest;
    var c := Apply(b, Write(meta, puts, dels)).0;
    assert forall w :: GcVersion(w) in c <==> GcVersion(w) in b;
    if HasColl(b) {
      SamePending(b, c);
    } else if !NonePending(b) {
      var n: nat :| Latest(b, b[Gc].version, n);
      LatestSame(b, c, b[Gc].version, n);
    }
  }

  lemma LatestSame(b: Block, c: Block, g: u16, n: nat)
    requires Latest(b, g, n) && forall w :: GcVersion(w) in c <==> GcVersion(w) in b
    ensures Latest(c, g, n)
  {
  }

  lemma StepKeepsOrder(b: Block, step: Step)
    requires VersionInv(b) && Orderly(b) && Guard(b, step) && OldestFirst(b, step)
    ensures Orderly(Apply(b, step).0)
  {
    hide Orderly, OldestFirst, Apply, VersionInv;
    match step {
      case Write(meta, puts, dels) => WriteKeepsOrder(b, meta, puts, dels);
      case SetString(ttl, data) => StringKeepsOrder(b, ttl, data);
      case Del(later) => DelKeepsOrder(b, later);
      case Purge(kind, v) => PurgeKeepsOrder(b, kind, v);
      case ClearGc(v) => ClearKeepsOrder(b, v);
    }
  }

  lemma StringKeepsOrder(b: Block, ttl: u64, data: bytes)
    requires Orderly(b)
    ensures Orderly(Apply(b, SetString(ttl, data)).0)
  {
    SamePending(b, Apply(b, SetString(ttl, data)).0);
  }

  // ----- every run -----

  ghost predicate OrderedRun(b: Block, steps: seq<Step>)
    decreases |steps|
  {
    steps == [] || (OldestFirst(b, steps[0]) && OrderedRun(Apply(b, steps[0]).0, steps[1..]))
  }

  /**
    After any run of writes, deletions and gc transactions that collects oldest first, a
    creation is refused if and only if all 65536 versions are pending.
   */
  lemma {:induction false} OrderedRunFillsUp(b: Block, steps: seq<Step>)
    requires VersionInv(b) && Orderly(b) && GuardedRun(b, steps) && OrderedRun(b, steps)
    ensures Orderly(Run(b, steps))
    ensures VersionForNew(Run(b, steps)) == None <==> AllPending(Run(b, steps))
    decreases |steps|
  {
    hide Apply, VersionInv, Guard, Orderly, OldestFirst, AllPending, VersionForNew;
    if steps == [] {
      RefusedOnlyWhenFull(b);
    } else {
      StepRefines(b, steps[0]);
      StepKeepsOrder(b, steps[0]);
      OrderedRunFillsUp(Apply(b, steps[0]).0, steps[1..]);
    }
  }
}
