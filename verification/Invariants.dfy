/**
  What holds of a key's block whatever its type, and of the whole store: commands of every
  type and the gc keep it.
 */
module Invariants {
  import opened Bytes
  import opened Keys
  import opened Values
  import opened Store
  import opened Gc
  import Counters
  import ListWindow
  import Collection

  ghost predicate BlockInv(b: Block) {
    ListWindow.ListInv(b) && Collection.CollInv(b)
  }

  ghost predicate StoreInv(kv: Map) {
    forall k: bytes :: BlockInv(BlockOf(kv, k))
  }

  lemma BareInv(b: Block)
    requires VersionInv(b) && Meta !in b
    ensures BlockInv(b)
  {
  }

  // ----- commands -----

  /** A list command leaves no collection of another type behind, so it keeps what those commands rely on. */
  lemma ListCommandKeepsInv(b: Block, c: Block)
    requires BlockInv(b) && ListWindow.ListInv(c) && Served(Kind.List, b, c)
    ensures BlockInv(c)
  {
    hide VersionInv, Collection.Counted, Reaches;
  }

  /** And the other way round. */
  lemma CollCommandKeepsInv(b: Block, c: Block, kind: Collection.CollKind)
    requires BlockInv(b) && Collection.CollInv(c) && Served(kind, b, c)
    ensures BlockInv(c)
  {
    hide VersionInv, Collection.Counted, Reaches;
  }

  /** A string that does not overwrite a collection keeps both. */
  lemma StringKeepsInv(b: Block, ttl: u64, data: bytes)
    requires BlockInv(b) && !HasColl(b)
    ensures BlockInv(Apply(b, SetString(ttl, data)).0)
  {
    StepRefines(b, SetString(ttl, data));
  }

  // ----- the gc -----

  /** The data under one version is the same. */
  ghost predicate SameData(b: Block, c: Block, v: u16) {
    forall s :: (Data(v, s) in b <==> Data(v, s) in c) && (Data(v, s) in b ==> b[Data(v, s)] == c[Data(v, s)])
  }

  /** Nothing differs of the live collection: its meta key and its data are the same. */
  ghost predicate SameLive(b: Block, c: Block) {
    && (Meta in b <==> Meta in c) && (Meta in b ==> b[Meta] == c[Meta])
    && (HasColl(b) ==> SameData(b, c, b[Meta].version))
  }

  lemma GcKeepsLive(b: Block, step: Step)
    requires VersionInv(b) && Guard(b, step) && (step.Purge? || step.ClearGc?)
    ensures SameLive(b, Apply(b, step).0) && VersionInv(Apply(b, step).0)
  {
    GcRefines(b, step);
  }

  lemma LiveList(b: Block, c: Block)
    requires ListWindow.ListInv(b) && VersionInv(c) && SameLive(b, c)
    ensures ListWindow.ListInv(c) && ListWindow.Elements(c) == ListWindow.Elements(b)
  {
    hide VersionInv;
    if ListWindow.HasList(b) {
      var v := b[Meta].version;
      forall i: u64 ensures ListWindow.ElemPart(v, i) in c <==> ListWindow.ElemPart(v, i) in b {
      }
      forall i: u64 | ListWindow.ElemPart(v, i) in b
        ensures c[ListWindow.ElemPart(v, i)] == b[ListWindow.ElemPart(v, i)]
      {
      }
    }
  }

  lemma SameShape(b: Block, c: Block, v: u16, kind: Collection.CollKind)
    requires Collection.Shaped(b, v, kind) && SameData(b, c, v)
    ensures Collection.Shaped(c, v, kind)
  {
    hide Collection.ValidCode;
  }

  lemma SameEntries(b: Block, c: Block, v: u16, kind: Collection.CollKind)
    requires SameData(b, c, v)
    ensures Collection.Entries(b, v, kind) == Collection.Entries(c, v, kind)
    ensures Counters.Total(b, v) == Counters.Total(c, v)
  {
    hide Collection.Entries, Counters.Total;
    Counters.TotalSame(b, c, v);
    Collection.EntriesAt(b, v, kind);
    Collection.EntriesAt(c, v, kind);
  }

  lemma LiveColl(b: Block, c: Block)
    requires Collection.CollInv(b) && VersionInv(c) && SameLive(b, c)
    ensures Collection.CollInv(c) && Collection.Stored(c) == Collection.Stored(b)
  {
    hide VersionInv, Collection.Entries, Counters.Total, Collection.Shaped;
    if Collection.HasShared(b) {
      SameShape(b, c, b[Meta].version, b[Meta].kind);
      SameEntries(b, c, b[Meta].version, b[Meta].kind);
    }
  }

  /** A guarded gc transaction keeps the invariant, the elements of a list and the items of a collection. */
  lemma GcKeepsInv(b: Block, step: Step)
    requires BlockInv(b) && Guard(b, step) && (step.Purge? || step.ClearGc?)
    ensures BlockInv(Apply(b, step).0)
    ensures ListWindow.Elements(Apply(b, step).0) == ListWindow.Elements(b)
    ensures Collection.Stored(Apply(b, step).0) == Collection.Stored(b)
  {
    hide VersionInv, Apply, Guard, ListWindow.Elements, Collection.Stored, SameLive;
    var c := Apply(b, step).0;
    GcKeepsLive(b, step);
    LiveList(b, c);
    LiveColl(b, c);
  }
}
