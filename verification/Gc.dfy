/**
  Versioned deletion. Deleting a large collection only drops its meta key and leaves a
  gc-version key behind; workers purge the old version later, in two transactions. This
  module gives every step as a function on the block of one user key and proves that, in
  every run, clients see what they would see if deletion were immediate.
 */
module Gc {
  import opened Bytes
  import opened Codec
  import opened Keys
  import opened Values
  import opened Store

  type Items = map<Slot, Value>

  /** The data families of a collection type: what its purge and its synchronous delete scan. */
  predicate Of(kind: Kind, s: Slot) {
    match kind
    case Hash => s.Counter? || s.Field?
    case List => s.Elem?
    case Set => s.Counter? || s.Member?
    case Zset => s.Counter? || s.Scored? || s.Ranked?
  }

  predicate IsColl(v: Value) {
    v.ListMeta? || (v.CollMeta? && !v.kind.List?)
  }

  function KindOf(meta: Value): Kind
    requires IsColl(meta)
  {
    if meta.ListMeta? then List else meta.kind
  }

  function WithVersion(meta: Value, v: u16): Value
    requires IsColl(meta)
  {
    match meta
    case ListMeta(ttl, _, left, right) => ListMeta(ttl, v, left, right)
    case CollMeta(kind, ttl, _, slots) => CollMeta(kind, ttl, v, slots)
  }

  predicate HasColl(b: Block) {
    Meta in b && IsColl(b[Meta])
  }

  /** The contents stored under one version. */
  function Contents(b: Block, v: u16): Items {
    map p | p in b && p.Data? && p.version == v :: p.slot := b[p]
  }

  // ----- choosing a version for a new collection -----

  function NextVersion(b: Block): u16 {
    if Gc in b && b[Gc].Version? then (if b[Gc].version == 0xFFFF then 0 else b[Gc].version + 1) else 0
  }

  /** `get_version_for_new`; `None` is the version-exhausted error. */
  function VersionForNew(b: Block): Option<u16> {
    if GcVersion(NextVersion(b)) in b then None else Some(NextVersion(b))
  }

  // ----- the invariant -----

  /** The values under meta and gc keys have the right type. */
  ghost predicate Typed(b: Block) {
    && (Meta in b ==> IsMeta(b[Meta]))
    && (Gc in b ==> b[Gc].Version?)
    && (forall v :: GcVersion(v) in b ==> b[GcVersion(v)].TypeTag?)
  }

  predicate Owned(b: Block, v: u16, s: Slot) {
    || (HasColl(b) && b[Meta].version == v && Of(KindOf(b[Meta]), s))
    || (GcVersion(v) in b && b[GcVersion(v)].TypeTag? && Of(b[GcVersion(v)].kind, s))
  }

  /** The live version is not pending, and every data key belongs to the live version or to a pending one. */
  ghost predicate VersionInv(b: Block) {
    && Typed(b)
    && (HasColl(b) ==> GcVersion(b[Meta].version) !in b)
    && (forall v, s :: Data(v, s) in b ==> Owned(b, v, s))
  }

  // ----- the steps -----

  datatype AnyStep =
    | Write(meta: Value, puts: Items, dels: set<Slot>)
    | SetString(ttl: u64, data: bytes)
    | Del(later: bool)
    | Purge(kind: Kind, version: u16)
    | ClearGc(version: u16)

  /** A command writes slots of its own type only. */
  predicate WellFormed(step: AnyStep) {
    step.Write? ==> IsColl(step.meta) && forall s :: s in step.puts ==> Of(KindOf(step.meta), s)
  }

  type Step = step: AnyStep | WellFormed(step) witness ClearGc(0)

  function Install(b: Block, meta: Value, puts: Items, dels: set<Slot>): Block
    requires IsColl(meta)
  {
    var v := meta.version;
    map p | p in b.Keys + {Meta} + (set s | s in puts :: Data(v, s))
            && !(p.Data? && p.version == v && p.slot in dels && p.slot !in puts)
      :: if p.Meta? then meta
         else if p.Data? && p.version == v && p.slot in puts then puts[p.slot]
         else b[p]
  }

  function Without(b: Block, kind: Kind, v: u16): Block {
    map p | p in b && !(p.Data? && p.version == v && Of(kind, p.slot)) :: b[p]
  }

  /** The block after a step, and whether the step did its work (a refused write changes nothing). */
  function Apply(b: Block, step: Step): (Block, bool) {
    match step
    case Write(meta, puts, dels) =>
      if Meta !in b then
        match VersionForNew(b)
        case None => (b, false)
        case Some(v) => (Install(b, WithVersion(meta, v), puts, dels), true)
      else if !IsColl(b[Meta]) || KindOf(b[Meta]) != KindOf(meta) then (b, false)
      else (Install(b, WithVersion(meta, b[Meta].version), puts, dels), true)
    case SetString(ttl, data) => (b[Meta := StringVal(ttl, data)], true)
    case Del(later) =>
      if !HasColl(b) then (b - {Meta}, true)
      else
        var kind, v := KindOf(b[Meta]), b[Meta].version;
        if later then ((b - {Meta})[Gc := Version(v)][GcVersion(v) := TypeTag(kind)], true)
        else (Without(b - {Meta}, kind, v), true)
    case Purge(kind, v) => (Without(b, kind, v) - {GcVersion(v)}, true)
    case ClearGc(v) => (if Gc in b && b[Gc] == Version(v) then b - {Gc} else b, true)
  }

  // ----- what clients see, and the store with immediate deletion -----

  datatype View = Nothing | Str(ttl: u64, data: bytes) | Coll(meta: Value, items: Items)

  predicate ValidView(view: View) {
    view.Coll? ==> IsColl(view.meta)
  }

  function See(b: Block): (view: View)
    ensures ValidView(view)
  {
    if HasColl(b) then Coll(WithVersion(b[Meta], 0), Contents(b, b[Meta].version))
    else if Meta in b && b[Meta].StringVal? then Str(b[Meta].ttl, b[Meta].data)
    else Nothing
  }

  /** The same step on a store without versions, where deletion is immediate and gc does nothing. */
  function Ideal(view: View, step: Step): (after: View)
    requires ValidView(view)
    ensures ValidView(after)
  {
    match step
    case Write(meta, puts, dels) =>
      if view.Nothing? then Coll(WithVersion(meta, 0), puts)
      else if view.Str? || KindOf(view.meta) != KindOf(meta) then view
      else Coll(WithVersion(meta, 0), (view.items - dels) + puts)
    case SetString(ttl, data) => Str(ttl, data)
    case Del(_) => Nothing
    case Purge(_, _) => view
    case ClearGc(_) => view
  }

  /**
    A purge may run on any version that is not live and not pending under another type;
    a string may not overwrite a collection.
   */
  predicate Guard(b: Block, step: Step) {
    match step
    case SetString(_, _) => !HasColl(b)
    case Purge(kind, v) =>
      && !(HasColl(b) && b[Meta].version == v)
      && (GcVersion(v) in b ==> b[GcVersion(v)] == TypeTag(kind))
    case _ => true
  }

  // ----- one step -----

  /** A version handed out for a new collection holds no data: a new collection starts empty. */
  lemma FreshVersionEmpty(b: Block, v: u16)
    requires VersionInv(b) && Meta !in b && VersionForNew(b) == Some(v)
    ensures Contents(b, v) == map[]
    ensures forall s :: Data(v, s) !in b
  {
    forall s ensures Data(v, s) !in b {
      assert !Owned(b, v, s);
    }
  }

  lemma InstallContents(b: Block, meta: Value, puts: Items, dels: set<Slot>)
    requires IsColl(meta)
    ensures Contents(Install(b, meta, puts, dels), meta.version) == (Contents(b, meta.version) - dels) + puts
    ensures Meta in Install(b, meta, puts, dels) && Install(b, meta, puts, dels)[Meta] == meta
  {
    hide Contents;
    var v, c := meta.version, Install(b, meta, puts, dels);
    ContentsAt(b, v);
    ContentsAt(c, v);
    assert forall s :: Data(v, s) in c <==> s in puts || (Data(v, s) in b && s !in dels);
  }

  lemma ContentsAt(b: Block, v: u16)
    ensures forall s :: s in Contents(b, v) <==> Data(v, s) in b
    ensures forall s :: s in Contents(b, v) ==> Contents(b, v)[s] == b[Data(v, s)]
  {
    forall s | Data(v, s) in b ensures s in Contents(b, v) && Contents(b, v)[s] == b[Data(v, s)] {
      assert Data(v, s).slot == s;
    }
  }

  lemma InstallKeepsInv(b: Block, meta: Value, puts: Items, dels: set<Slot>)
    requires VersionInv(b) && IsColl(meta) && forall s :: s in puts ==> Of(KindOf(meta), s)
    requires HasColl(b) ==> KindOf(b[Meta]) == KindOf(meta) && b[Meta].version == meta.version
    requires !HasColl(b) ==> Meta !in b && VersionForNew(b) == Some(meta.version)
    ensures VersionInv(Install(b, meta, puts, dels))
  {
    var c := Install(b, meta, puts, dels);
    forall v, s | Data(v, s) in c ensures Owned(c, v, s) {
      if !(v == meta.version && s in puts) {
        assert Data(v, s) in b && Owned(b, v, s);
      }
    }
  }

  lemma WriteRefines(b: Block, meta: Value, puts: Items, dels: set<Slot>)
    requires VersionInv(b) && WellFormed(Write(meta, puts, dels))
    ensures var (c, done) := Apply(b, Write(meta, puts, dels));
            VersionInv(c) && See(c) == if done then Ideal(See(b), Write(meta, puts, dels)) else See(b)
  {
    hide Install, Contents;
    var (c, done) := Apply(b, Write(meta, puts, dels));
    if done {
      var v := if Meta in b then b[Meta].version else NextVersion(b);
      var m := WithVersion(meta, v);
      InstallKeepsInv(b, m, puts, dels);
      InstallContents(b, m, puts, dels);
      if Meta !in b {
        FreshVersionEmpty(b, v);
      }
    }
  }

  lemma SameContents(b: Block, c: Block, v: u16)
    requires forall s :: (Data(v, s) in b <==> Data(v, s) in c) && (Data(v, s) in b ==> b[Data(v, s)] == c[Data(v, s)])
    ensures Contents(b, v) == Contents(c, v)
  {
    ContentsAt(b, v);
    ContentsAt(c, v);
  }

  lemma GcRefines(b: Block, step: Step)
    requires VersionInv(b) && Guard(b, step) && (step.Purge? || step.ClearGc?)
    ensures VersionInv(Apply(b, step).0) && Apply(b, step).1
    ensures See(Apply(b, step).0) == See(b)
  {
    var c := Apply(b, step).0;
    forall v, s | Data(v, s) in c ensures Owned(c, v, s) {
      assert Data(v, s) in b && Owned(b, v, s);
    }
    if HasColl(b) {
      SameContents(b, c, b[Meta].version);
    }
  }

  lemma DelRefines(b: Block, later: bool)
    requires VersionInv(b)
    ensures VersionInv(Apply(b, Del(later)).0)
    ensures See(Apply(b, Del(later)).0) == Nothing
  {
    var c := Apply(b, Del(later)).0;
    forall v, s | Data(v, s) in c ensures Owned(c, v, s) {
      assert Data(v, s) in b && Owned(b, v, s);
    }
  }

  /** Every step keeps the invariant and shows clients exactly what immediate deletion would. */
  lemma StepRefines(b: Block, step: Step)
    requires VersionInv(b) && Guard(b, step)
    ensures VersionInv(Apply(b, step).0)
    ensures See(Apply(b, step).0) == if Apply(b, step).1 then Ideal(See(b), step) else See(b)
  {
    match step {
      case Write(meta, puts, dels) => WriteRefines(b, meta, puts, dels);
      case SetString(_, _) =>
        var c := Apply(b, step).0;
        forall v, s | Data(v, s) in c ensures Owned(c, v, s) {
          assert Data(v, s) in b && Owned(b, v, s);
        }
      case Del(later) => DelRefines(b, later);
      case Purge(_, _) => GcRefines(b, step);
      case ClearGc(_) => GcRefines(b, step);
    }
  }

  // ----- every run -----

  function Run(b: Block, steps: seq<Step>): Block
    decreases |steps|
  {
    if steps == [] then b else Run(Apply(b, steps[0]).0, steps[1..])
  }

  /** The steps of a run that were not refused. */
  function Done(b: Block, steps: seq<Step>): seq<Step>
    decreases |steps|
  {
    if steps == [] then []
    else (if Apply(b, steps[0]).1 then [steps[0]] else []) + Done(Apply(b, steps[0]).0, steps[1..])
  }

  predicate GuardedRun(b: Block, steps: seq<Step>)
    decreases |steps|
  {
    steps == [] || (Guard(b, steps[0]) && GuardedRun(Apply(b, steps[0]).0, steps[1..]))
  }

  function IdealRun(view: View, steps: seq<Step>): View
    requires ValidView(view)
    decreases |steps|
  {
    if steps == [] then view else IdealRun(Ideal(view, steps[0]), steps[1..])
  }

  /** Over any interleaving, the invariant holds and clients see the run with immediate deletion. */
  lemma {:induction false} RunRefines(b: Block, steps: seq<Step>)
    requires VersionInv(b) && GuardedRun(b, steps)
    ensures VersionInv(Run(b, steps))
    ensures See(Run(b, steps)) == IdealRun(See(b), Done(b, steps))
    decreases |steps|
  {
    hide Apply, Ideal, Guard, IsMeta;
    if steps != [] {
      var c, rest := Apply(b, steps[0]).0, steps[1..];
      StepRefines(b, steps[0]);
      RunRefines(c, rest);
      var tail := Done(c, rest);
      if Apply(b, steps[0]).1 {
        assert Done(b, steps)[1..] == tail;
      } else {
        assert Done(b, steps) == tail;
      }
    }
  }

  // ----- commands as steps -----

  /** Writes and deletions: what the commands do, as opposed to the gc. */
  predicate IsCommand(step: Step) {
    step.Write? || step.Del?
  }

  predicate Commands(steps: seq<Step>) {
    forall i :: 0 <= i < |steps| ==> IsCommand(steps[i])
  }

  /** A block that commands lead to. */
  ghost predicate Reaches(b: Block, c: Block) {
    exists steps: seq<Step> :: Commands(steps) && Run(b, steps) == c
  }

  /** As it was, or nothing, or a collection of the given type. */
  predicate Stays(b: Block, c: Block, kind: Kind) {
    c == b || Meta !in c || (HasColl(c) && KindOf(c[Meta]) == kind)
  }

  /** What every command on a type does to the block of its key. */
  ghost predicate Served(kind: Kind, b: Block, c: Block) {
    Reaches(b, c) && Stays(b, c, kind)
  }

  lemma ReachesSelf(b: Block)
    ensures Reaches(b, b)
  {
    assert Run(b, []) == b;
  }

  lemma {:induction false} RunConcat(b: Block, s: seq<Step>, t: seq<Step>)
    ensures Run(b, s + t) == Run(Run(b, s), t)
    decreases |s|
  {
    hide Apply;
    if s == [] {
      assert s + t == t;
    } else {
      assert (s + t)[1..] == s[1..] + t;
      RunConcat(Apply(b, s[0]).0, s[1..], t);
    }
  }

  lemma ReachesTrans(a: Block, b: Block, c: Block)
    requires Reaches(a, b) && Reaches(b, c)
    ensures Reaches(a, c)
  {
    hide Apply, Run;
    var s: seq<Step> :| Commands(s) && Run(a, s) == b;
    var t: seq<Step> :| Commands(t) && Run(b, t) == c;
    RunConcat(a, s, t);
  }

  lemma ReachesByStep(b: Block, step: Step)
    requires IsCommand(step)
    ensures Reaches(b, Apply(b, step).0)
  {
    hide Apply;
    var steps := [step];
    assert steps[1..] == [];
    assert Run(b, steps) == Apply(b, step).0;
  }

  /** Nothing differs but the meta key and the data of version `v`. */
  ghost predicate OnlyVersion(before: Block, after: Block, v: u16) {
    forall p :: p != Meta && !(p.Data? && p.version == v) ==>
      (p in before <==> p in after) && (p in before ==> before[p] == after[p])
  }

  /** Whatever a command does to the version it works under, it amounts to one write. */
  lemma ReachesByWrite(b: Block, c: Block, v: u16)
    requires OnlyVersion(b, c, v) && HasColl(c) && c[Meta].version == v
    requires if Meta in b then HasColl(b) && KindOf(b[Meta]) == KindOf(c[Meta]) && b[Meta].version == v
             else VersionForNew(b) == Some(v)
    requires forall s :: Data(v, s) in c ==> Of(KindOf(c[Meta]), s)
    ensures Reaches(b, c)
  {
    hide Contents, Of, Install, Reaches, OnlyVersion;
    ContentsAt(c, v);
    var step := Write(c[Meta], Contents(c, v), Contents(b, v).Keys);
    InstallAll(b, c, v);
    assert WithVersion(c[Meta], v) == c[Meta];
    ReachesByStep(b, step);
  }

  lemma InstallAll(b: Block, c: Block, v: u16)
    requires OnlyVersion(b, c, v) && HasColl(c) && c[Meta].version == v
    ensures Install(b, c[Meta], Contents(c, v), Contents(b, v).Keys) == c
  {
    hide Contents;
    ContentsAt(b, v);
    ContentsAt(c, v);
  }

  /** Removing everything under the live version amounts to a deletion. */
  lemma ReachesByDel(b: Block, c: Block, v: u16)
    requires VersionInv(b) && OnlyVersion(b, c, v) && HasColl(b) && b[Meta].version == v
    requires Meta !in c && forall s :: Data(v, s) !in c
    ensures Reaches(b, c)
  {
    forall s | Data(v, s) in b ensures Of(KindOf(b[Meta]), s) {
      assert Owned(b, v, s);
    }
    assert Without(b - {Meta}, KindOf(b[Meta]), v) == c;
    ReachesByStep(b, Del(false));
  }

  /** Commands need no guard. */
  lemma {:induction false} CommandsGuarded(b: Block, steps: seq<Step>)
    requires Commands(steps)
    ensures GuardedRun(b, steps)
    decreases |steps|
  {
    hide Apply;
    if steps != [] {
      CommandsGuarded(Apply(b, steps[0]).0, steps[1..]);
    }
  }
}
