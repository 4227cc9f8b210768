/**
 * The two-generation heap: a nursery and a tenured space, each with a to-space
 * and a from-space, and what a collection does to them.
 *
 * N1 is the part of the nursery before the checkpoint (objects that survived
 * one collection), N0 the part after it.
 */
module Generations {
  import opened Evacuation
  import opened Layout
  import opened Arenas

  /** An object must have room for the forwarding pointer that may overwrite it: a vtable word and a destination. */
  const MIN_OBJECT: nat := 16

  /** A remembered pointer: field slot of object parent. */
  datatype Entry = Entry(parent: Addr, slot: nat)

  predicate Disjoint(a: Arena, b: Arena) { a.hi <= b.lo || b.hi <= a.lo }

  /** The four spaces do not overlap; the two spaces of a generation have the same reserve. */
  predicate Spaces(n: Arena, nf: Arena, t: Arena, tf: Arena) {
    && n.Ok() && nf.Ok() && t.Ok() && tf.Ok()
    && Disjoint(n, nf) && Disjoint(n, t) && Disjoint(n, tf)
    && Disjoint(nf, t) && Disjoint(nf, tf) && Disjoint(t, tf)
    && n.hi - n.lo == nf.hi - nf.lo && t.hi - t.lo == tf.hi - tf.lo
  }

  /** x is outside all four spaces: null, or an object the collector does not own. */
  predicate External(n: Arena, nf: Arena, t: Arena, tf: Arena, x: Addr) {
    !n.Contains(x) && !nf.Contains(x) && !t.Contains(x) && !tf.Contains(x)
  }

  // ---------------------------------------------------------------------------
  // Between collections
  // ---------------------------------------------------------------------------

  ghost predicate HeapObjects(mem: Mem<nat>, n: Arena, t: Arena) {
    && (forall a :: a in mem ==> n.Allocated(a) || t.Allocated(a))
    && (forall a :: a in mem ==> mem[a].Obj? && MIN_OBJECT <= mem[a].hdr)
  }

  ghost predicate HeapTiles(mem: Mem<nat>, n: Arena, t: Arena) {
    Tiled(mem, n.lo, n.checkpoint) && Tiled(mem, n.checkpoint, n.free) && Tiled(mem, t.lo, t.free)
  }

  ghost predicate HeapPointers(mem: Mem<nat>, n: Arena, nf: Arena, t: Arena, tf: Arena) {
    forall a, i :: a in mem && mem[a].Obj? && 0 <= i < |mem[a].fields| ==>
      mem[a].fields[i] in mem || External(n, nf, t, tf, mem[a].fields[i])
  }

  /** The heap between collections: whole objects end to end, and no pointer that leads nowhere. */
  ghost predicate HeapOk(mem: Mem<nat>, n: Arena, nf: Arena, t: Arena, tf: Arena) {
    Spaces(n, nf, t, tf) && HeapObjects(mem, n, t) && HeapTiles(mem, n, t) && HeapPointers(mem, n, nf, t, tf)
  }

  /** Field i of object a is a pointer from tenured to nursery, or from N1 to N0. */
  predicate CrossesGenerations(mem: Mem<nat>, n: Arena, t: Arena, a: Addr, i: nat)
    requires a in mem && mem[a].Obj? && i < |mem[a].fields|
  {
    var c := mem[a].fields[i];
    n.Contains(c) && (t.Contains(a) || (n.IsBeforeCheckpoint(a) && !n.IsBeforeCheckpoint(c)))
  }

  /** Every pointer that crosses generations is remembered. */
  ghost predicate Remembered(mem: Mem<nat>, n: Arena, t: Arena, log: seq<Entry>) {
    forall a, i :: a in mem && mem[a].Obj? && 0 <= i < |mem[a].fields| && CrossesGenerations(mem, n, t, a, i) ==>
      Entry(a, i) in log
  }

  /** Every entry names a field of an allocated object in tenured space or N1. */
  ghost predicate EntryOk(mem: Mem<nat>, n: Arena, t: Arena, en: Entry) {
    && en.parent in mem && mem[en.parent].Obj? && en.slot < |mem[en.parent].fields|
    && (t.Contains(en.parent) || n.IsBeforeCheckpoint(en.parent))
  }

  ghost predicate LogOk(mem: Mem<nat>, n: Arena, t: Arena, log: seq<Entry>) {
    forall en :: en in log ==> EntryOk(mem, n, t, en)
  }

  // ---------------------------------------------------------------------------
  // During a collection
  // ---------------------------------------------------------------------------

  /**
   * What stays fixed during one collection: the from-spaces, where in tenured
   * to-space the copies of this collection begin, and whether it is a full one.
   */
  datatype Cycle = Cycle(nf: Arena, tf: Arena, tBase: nat, full: bool)

  /** x lies after the checkpoint of nursery from-space: a copy of it stays in the nursery. */
  predicate InN0(c: Cycle, x: Addr) { c.nf.Allocated(x) && !c.nf.IsBeforeCheckpoint(x) }

  predicate InFrom(c: Cycle, x: Addr) { c.nf.Allocated(x) || (c.full && c.tf.Allocated(x)) }

  ghost predicate Regions(e: Evac<nat>, c: Cycle, n: Arena, t: Arena) {
    && t.lo <= c.tBase <= t.free && (c.full ==> c.tBase == t.lo)
    && (forall a :: a in e.mem0 ==> (a in e.from <==> InFrom(c, a)))
    && (forall a :: a in e.mem0 && a !in e.from ==> t.lo <= a < c.tBase)
  }

  /** A copy of an N0 object is in nursery to-space; every other copy is in tenured to-space. */
  predicate Placed(c: Cycle, n: Arena, t: Arena, original: Addr, copy: Addr) {
    if InN0(c, original) then n.Allocated(copy) else c.tBase <= copy < t.free
  }

  ghost predicate Placement(e: Evac<nat>, c: Cycle, n: Arena, t: Arena) {
    forall d :: d in e.src ==> Placed(c, n, t, e.src[d], d)
  }

  ghost predicate Zones(e: Evac<nat>, c: Cycle, n: Arena, t: Arena) {
    Spaces(n, c.nf, t, c.tf) && Regions(e, c, n, t) && Placement(e, c, n, t)
  }

  /** Sizes are kept by copies, and an object that has not moved has not changed at all. */
  ghost predicate Headers(e: Evac<nat>) {
    && (forall a :: a in e.mem0 ==> e.mem0[a].Obj? && MIN_OBJECT <= e.mem0[a].hdr)
    && (forall a :: a in e.from && a in e.mem && e.mem[a].Obj? ==> a in e.mem0 && e.mem[a] == e.mem0[a])
    && (forall d :: d in e.mem && d !in e.from ==>
          Origin(e, d) in e.mem0 && e.mem[d].Obj? && e.mem0[Origin(e, d)].Obj? &&
            e.mem[d].hdr == e.mem0[Origin(e, d)].hdr)
  }

  ghost predicate Tiles(e: Evac<nat>, c: Cycle, n: Arena, t: Arena) {
    && Tiled(e.mem0, c.nf.lo, c.nf.checkpoint) && Tiled(e.mem0, c.nf.checkpoint, c.nf.free)
    && (c.full ==> Tiled(e.mem0, c.tf.lo, c.tf.free))
    && Tiled(e.mem, n.lo, n.free) && Tiled(e.mem, t.lo, c.tBase) && Tiled(e.mem, c.tBase, t.free)
  }

  ghost function CopiedSet<H>(e: Evac<H>): set<Addr> {
    set a | a in e.from && Copied(e, a)
  }

  /** The to-spaces hold exactly the bytes of what was copied, and there is room for everything else. */
  ghost predicate Budget(e: Evac<nat>, c: Cycle, n: Arena, t: Arena) {
    && n.free - n.lo == Bytes(e.mem0, CopiedSet(e), c.nf.checkpoint, c.nf.free)
    && t.free - c.tBase == Bytes(e.mem0, CopiedSet(e), c.nf.lo, c.nf.checkpoint)
                           + (if c.full then Bytes(e.mem0, CopiedSet(e), c.tf.lo, c.tf.free) else 0)
    && c.tBase + (c.nf.checkpoint - c.nf.lo) + (if c.full then c.tf.free - c.tf.lo else 0) <= t.hi
  }

  /** Every pointer the collection may meet leads to an object of the heap or outside the four spaces. */
  ghost predicate Pointers(e: Evac<nat>, c: Cycle, n: Arena, t: Arena) {
    && (forall a, i :: a in e.mem0 && e.mem0[a].Obj? && 0 <= i < |e.mem0[a].fields| ==>
          e.mem0[a].fields[i] in e.mem0 || External(n, c.nf, t, c.tf, e.mem0[a].fields[i]))
    && (forall s :: s in e.starts ==> s in e.mem0 || External(n, c.nf, t, c.tf, s))
  }

  ghost predicate Collecting(e: Evac<nat>, c: Cycle, n: Arena, t: Arena) {
    Inv(e) && Zones(e, c, n, t) && Headers(e) && Tiles(e, c, n, t) && Budget(e, c, n, t) && Pointers(e, c, n, t)
  }

  /** a' is a with z more bytes handed out. */
  predicate Bumped(a: Arena, a': Arena, z: nat) {
    a'.Ok() && a' == a.(free := a.free + z, committed := a'.committed)
  }

  /** The to-spaces after copying x. */
  predicate BumpedFor(e: Evac<nat>, c: Cycle, x: Addr, n: Arena, t: Arena, n': Arena, t': Arena)
    requires x in e.mem0 && e.mem0[x].Obj?
  {
    if InN0(c, x) then Bumped(n, n', Stride(e.mem0, x)) && t' == t
    else n' == n && Bumped(t, t', Stride(e.mem0, x))
  }

  function Destination(c: Cycle, x: Addr, n: Arena, t: Arena): Addr {
    if InN0(c, x) then n.free else t.free
  }

  predicate Known(e: Evac<nat>, c: Cycle, n: Arena, t: Arena, x: Addr) {
    x in e.mem || External(n, c.nf, t, c.tf, x)
  }

  /** A pointer in hand is in from-space exactly when its address lies in the reserve of a from-space. */
  lemma FromByAddress(e: Evac<nat>, c: Cycle, n: Arena, t: Arena, x: Addr)
    requires Collecting(e, c, n, t) && Known(e, c, n, t, x)
    ensures x in e.from <==> (c.nf.Contains(x) || c.tf.Contains(x))
    ensures x in e.from ==> (InN0(c, x) <==> !c.tf.Contains(x) && !c.nf.IsBeforeCheckpoint(x))
    ensures x in e.from ==> x in e.mem
    ensures c.nf.IsBeforeCheckpoint(x) ==> !c.tf.Contains(x)
  {
    hide Inv, Headers, Tiles, Budget, Pointers;
    ForwardsOf(e, c, n, t);
    hide Collecting;
    if x in e.src {
      assert Placed(c, n, t, e.src[x], x);
    } else if x in e.mem {
      assert x in e.from <==> InFrom(c, x);
    }
  }

  lemma ForwardsOf(e: Evac<nat>, c: Cycle, n: Arena, t: Arena)
    requires Collecting(e, c, n, t)
    ensures Forwards(e) && Zones(e, c, n, t) && Headers(e)
  {
  }

  lemma FieldIsKnown(e: Evac<nat>, c: Cycle, n: Arena, t: Arena, d: Addr, i: nat)
    requires Inv(e) && Zones(e, c, n, t) && Pointers(e, c, n, t)
    requires d in e.mem && d !in e.from && e.mem[d].Obj? && i < |e.mem[d].fields|
    ensures Known(e, c, n, t, e.mem[d].fields[i])
  {
    assert Faithful(e, d);
    var x := e.mem0[Origin(e, d)].fields[i];
    assert FieldOk(e, x, e.mem[d].fields[i]);
    if x in e.from { assert Accounted(e, x); }
  }

  // ---------------------------------------------------------------------------
  // Copying one object keeps everything
  // ---------------------------------------------------------------------------

  /** No allocation of copied objects can exhaust the to-spaces. */
  lemma RoomForCopy(e: Evac<nat>, c: Cycle, n: Arena, t: Arena, x: Addr)
    requires Collecting(e, c, n, t) && x in e.from && !Copied(e, x)
    ensures x in e.mem0 && e.mem0[x].Obj?
    ensures x in e.mem && e.mem[x] == e.mem0[x] && n.Ok() && t.Ok() && 0 < e.mem0[x].hdr
    ensures InN0(c, x) ==> n.free + Stride(e.mem0, x) <= n.hi
    ensures !InN0(c, x) ==> t.free + Stride(e.mem0, x) <= t.hi
  {
    assert Accounted(e, x);
    hide AllocPadding, Arena.Aligned, Tiled, Bytes, Placement, AllFaithful, OnlyLive, Accounted;
    var S := CopiedSet(e);
    BytesAtMost(e.mem0, S + {x}, c.nf.lo, c.nf.checkpoint);
    BytesAtMost(e.mem0, S + {x}, c.nf.checkpoint, c.nf.free);
    if c.full { BytesAtMost(e.mem0, S + {x}, c.tf.lo, c.tf.free); }
    BytesWith(e.mem0, S, x, c.nf.lo, c.nf.checkpoint);
    BytesWith(e.mem0, S, x, c.nf.checkpoint, c.nf.free);
    if c.full { BytesWith(e.mem0, S, x, c.tf.lo, c.tf.free); }
  }

  /** A pointer that is not into from-space is its own destination. */
  lemma OutsideStays(e: Evac<nat>, c: Cycle, n: Arena, t: Arena, x: Addr)
    requires Collecting(e, c, n, t) && x !in e.from
    ensures Phi(e.mem, x) == x
  {
    PhiOfOutside(e, x);
  }

  /** What a forwarding pointer says: the object has been copied, and its copy is outside from-space. */
  lemma ForwardedMeans(e: Evac<nat>, c: Cycle, n: Arena, t: Arena, x: Addr)
    requires Collecting(e, c, n, t) && x in e.mem && e.mem[x].Fwd?
    ensures x in e.from && Copied(e, x)
    ensures e.mem[x].dest in e.src && e.src[e.mem[x].dest] == x
    ensures e.mem[x].dest in e.mem && e.mem[x].dest !in e.from && e.mem[e.mem[x].dest].Obj?
  {
    hide Headers, Tiles, Budget, Pointers, Zones, OnlyLive;
    if x in e.from {
      assert Accounted(e, x);
    }
    assert Faithful(e, e.mem[x].dest);
  }

  /** Null is never an object, and an incremental collection never moves a tenured one. */
  lemma StaysPut(e: Evac<nat>, c: Cycle, n: Arena, t: Arena, x: Addr)
    requires Collecting(e, c, n, t) && (x == NULL || t.Contains(x) || n.Contains(x))
    ensures x !in e.from
  {
    hide Headers, Tiles, Budget, Pointers, AllFaithful, OnlyLive, Placement, Arena.Aligned;
  }

  lemma ObjectOutside(e: Evac<nat>, c: Cycle, n: Arena, t: Arena, d: Addr)
    requires Collecting(e, c, n, t) && d in e.mem && d !in e.from
    ensures e.mem[d].Obj? && MIN_OBJECT <= e.mem[d].hdr
  {
  }

  /** The space alloc_gc_copy chooses for x is the one the invariant calls for, and it has room. */
  lemma WhereCopied(e: Evac<nat>, c: Cycle, n: Arena, t: Arena, x: Addr)
    requires Collecting(e, c, n, t) && x in e.from && !Copied(e, x)
    ensures x in e.mem0 && e.mem0[x].Obj? && x in e.mem && e.mem[x] == e.mem0[x] && n.Ok() && t.Ok()
    ensures 0 < e.mem0[x].hdr
    ensures InN0(c, x) <==> !c.tf.Contains(x) && !c.nf.IsBeforeCheckpoint(x)
    ensures c.nf.IsBeforeCheckpoint(x) ==> !c.tf.Contains(x)
    ensures (if InN0(c, x) then n.free + Stride(e.mem0, x) <= n.hi else t.free + Stride(e.mem0, x) <= t.hi)
  {
    hide Collecting, Stride, Arena.Aligned, InN0;
    RoomForCopy(e, c, n, t, x);
    FromByAddress(e, c, n, t, x);
  }

  lemma BytesAtMost(mem: Mem<nat>, S: set<Addr>, lo: nat, hi: nat)
    requires Tiled(mem, lo, hi)
    ensures Bytes(mem, S, lo, hi) <= hi - lo
  {
    BytesConserved(mem, S, lo, hi);
  }

  /** Adding x to a set adds its size to the range that holds it and to no other. */
  lemma BytesWith(mem: Mem<nat>, S: set<Addr>, x: Addr, lo: nat, hi: nat)
    requires x !in S && x in mem && mem[x].Obj?
    ensures Bytes(mem, S + {x}, lo, hi) == Bytes(mem, S, lo, hi) + if lo <= x < hi then Stride(mem, x) else 0
  {
    if lo <= x < hi {
      BytesAdd(mem, S, x, lo, hi);
    } else {
      BytesFrame(mem, S + {x}, S, lo, hi);
    }
  }

  lemma DestinationIsFresh(e: Evac<nat>, c: Cycle, n: Arena, t: Arena, x: Addr)
    requires Forwards(e) && Zones(e, c, n, t)
    requires if InN0(c, x) then n.free < n.hi else t.free < t.hi
    ensures Destination(c, x, n, t) !in e.mem
  {
    var d := Destination(c, x, n, t);
    if d in e.mem { NothingBeyondFree(e, c, n, t, d); }
  }

  lemma CopyKeepsZones(e: Evac<nat>, c: Cycle, n: Arena, t: Arena, x: Addr, n': Arena, t': Arena)
    requires Zones(e, c, n, t)
    requires x in e.mem0 && e.mem0[x].Obj? && 0 < e.mem0[x].hdr && BumpedFor(e, c, x, n, t, n', t')
    requires x in e.mem
    ensures Zones(CopyStep(e, x, Destination(c, x, n, t), e.mem[x]), c, n', t')
  {
    var e' := CopyStep(e, x, Destination(c, x, n, t), e.mem[x]);
    forall d | d in e'.src ensures Placed(c, n', t', e'.src[d], d) {
      if d in e.src { assert Placed(c, n, t, e.src[d], d); }
    }
  }

  /** Nothing starts beyond the free pointer of a to-space. */
  lemma NothingBeyondFree(e: Evac<nat>, c: Cycle, n: Arena, t: Arena, a: Addr)
    requires Forwards(e) && Zones(e, c, n, t) && a in e.mem
    ensures !(n.free <= a < n.hi) && !(t.free <= a < t.hi)
    ensures a in e.from ==> !n.Contains(a) && !t.Contains(a)
  {
    if a in e.src {
      assert Placed(c, n, t, e.src[a], a);
    } else {
      assert a in e.from <==> InFrom(c, a);
    }
  }

  /** A range covered before the copy, away from both ends of it, is still covered. */
  lemma CopyKeepsTiled(mem: Mem<nat>, x: Addr, d: Addr, copy: Cell<nat>, lo: nat, hi: nat)
    requires Tiled(mem, lo, hi) && !(lo <= x < hi) && !(lo <= d < hi)
    ensures Tiled(mem[d := copy][x := Fwd(d)], lo, hi)
  {
    TiledFrame(mem, mem[d := copy][x := Fwd(d)], lo, hi);
  }

  lemma CopyExtendsTiled(mem: Mem<nat>, x: Addr, copy: Cell<nat>, lo: nat, free: nat, hi: nat)
    requires Tiled(mem, lo, free) && free !in mem && !(lo <= x < hi) && copy.Obj? && 0 < copy.hdr
    requires free + WithPadding(copy.hdr) <= hi && forall a :: a in mem ==> !(free <= a < hi)
    ensures Tiled(mem[free := copy][x := Fwd(free)], lo, free + WithPadding(copy.hdr))
  {
    hide Tiled, WithPadding;
    var free' := free + WithPadding(copy.hdr);
    PaddingIsMore(copy.hdr);
    TiledAppend(mem, lo, free, copy);
    TiledMeans(mem[free := copy], lo, free');
    TiledFrame(mem[free := copy], mem[free := copy][x := Fwd(free)], lo, free');
  }

  lemma PaddingIsMore(z: nat)
    ensures z <= WithPadding(z)
  {
  }

  lemma TiledMeans(mem: Mem<nat>, lo: nat, hi: nat)
    requires Tiled(mem, lo, hi)
    ensures lo <= hi && forall a :: a in mem && lo <= a < hi ==> mem[a].Obj?
  {
  }

  lemma MemoryGrows(e: Evac<nat>)
    requires Forwards(e)
    ensures e.from <= e.mem0.Keys <= e.mem.Keys
  {
  }

  lemma ToSpacesOf(e: Evac<nat>, c: Cycle, n: Arena, t: Arena)
    requires Zones(e, c, n, t)
    ensures Disjoint(n, t) && n.lo <= n.free <= n.hi && t.lo <= c.tBase <= t.free <= t.hi
  {
  }

  lemma CopyKeepsTiles(e: Evac<nat>, c: Cycle, n: Arena, t: Arena, x: Addr, n': Arena, t': Arena)
    requires Forwards(e) && Zones(e, c, n, t) && Tiles(e, c, n, t)
    requires x in e.from && x in e.mem && e.mem[x] == e.mem0[x]
    requires x in e.mem0 && e.mem0[x].Obj? && 0 < e.mem0[x].hdr && BumpedFor(e, c, x, n, t, n', t')
    ensures Tiles(CopyStep(e, x, Destination(c, x, n, t), e.mem[x]), c, n', t')
  {
    hide AllocPadding, Arena.Aligned, Tiled, Forwards, Zones;
    var d := Destination(c, x, n, t);
    DestinationIsFresh(e, c, n, t, x);
    forall a | a in e.mem ensures !(n.free <= a < n.hi) && !(t.free <= a < t.hi) {
      NothingBeyondFree(e, c, n, t, a);
    }
    NothingBeyondFree(e, c, n, t, x);
    ToSpacesOf(e, c, n, t);
    CopyKeepsTiled(e.mem, x, d, e.mem[x], t.lo, c.tBase);
    if InN0(c, x) {
      CopyExtendsTiled(e.mem, x, e.mem[x], n.lo, n.free, n.hi);
      CopyKeepsTiled(e.mem, x, d, e.mem[x], c.tBase, t.free);
    } else {
      CopyExtendsTiled(e.mem, x, e.mem[x], c.tBase, t.free, t.hi);
      CopyKeepsTiled(e.mem, x, d, e.mem[x], n.lo, n.free);
    }
  }

  lemma CopyKeepsBudget(e: Evac<nat>, c: Cycle, n: Arena, t: Arena, x: Addr, n': Arena, t': Arena)
    requires Forwards(e) && Zones(e, c, n, t) && Headers(e) && Budget(e, c, n, t)
    requires x in e.from && e.mem[x] == e.mem0[x] && BumpedFor(e, c, x, n, t, n', t')
    ensures Budget(CopyStep(e, x, Destination(c, x, n, t), e.mem[x]), c, n', t')
  {
    hide AllocPadding, Arena.Aligned, Tiled, Bytes, Placement, CopiedSet, Forwards;
    var d := Destination(c, x, n, t);
    MemoryGrows(e);
    assert 0 < Stride(e.mem0, x);
    DestinationIsFresh(e, c, n, t, x);
    assert x in e.mem0 && d !in e.from && !Copied(e, x);
    CopyAddsToCopied(e, c, x, d, e.mem[x]);
    var S := CopiedSet(e);
    BytesWith(e.mem0, S, x, c.nf.lo, c.nf.checkpoint);
    BytesWith(e.mem0, S, x, c.nf.checkpoint, c.nf.free);
    if c.full { BytesWith(e.mem0, S, x, c.tf.lo, c.tf.free); }
  }

  /** The main step: moving x to where the collector puts it keeps the whole invariant. */
  lemma CopyKeepsCollecting(e: Evac<nat>, c: Cycle, n: Arena, t: Arena, x: Addr, n': Arena, t': Arena)
    requires Collecting(e, c, n, t) && x in e.from && !Copied(e, x)
    requires x in e.mem0 && e.mem0[x].Obj? && BumpedFor(e, c, x, n, t, n', t')
    requires Live(e.mem0, e.from, e.starts, x)
    ensures Destination(c, x, n, t) !in e.mem && Destination(c, x, n, t) !in e.from && x in e.mem
    ensures Collecting(CopyStep(e, x, Destination(c, x, n, t), e.mem[x]), c, n', t')
    ensures Extends(e, CopyStep(e, x, Destination(c, x, n, t), e.mem[x]))
  {
    hide AllocPadding, Arena.Aligned, Tiled, Bytes, Placement, Regions, Headers, AllFaithful, OnlyLive, Forwards;
    hide Budget, Tiles, Spaces, Pointers, Extends;
    hide BumpedFor, Live, Destination;
    UncopiedIsOriginal(e, c, n, t, x);
    BumpNeedsRoom(e, c, n, t, x, n', t');
    DestinationIsFresh(e, c, n, t, x);
    FromIsInMemory(e, c, n, t);
    CopyKeepsZones(e, c, n, t, x, n', t');
    CopyKeepsInv(e, x, Destination(c, x, n, t), e.mem[x]);
    CopyKeepsTiles(e, c, n, t, x, n', t');
    CopyKeepsBudget(e, c, n, t, x, n', t');
    CopyKeepsHeaders(e, x, Destination(c, x, n, t));
    CopyKeepsPointers(e, c, n, t, x, n', t');
  }

  lemma FromIsInMemory(e: Evac<nat>, c: Cycle, n: Arena, t: Arena)
    requires Forwards(e)
    ensures e.from <= e.mem.Keys
  {
  }

  lemma UncopiedIsOriginal(e: Evac<nat>, c: Cycle, n: Arena, t: Arena, x: Addr)
    requires Forwards(e) && Headers(e) && x in e.from && !Copied(e, x)
    ensures x in e.mem0 && e.mem0[x].Obj? && MIN_OBJECT <= e.mem0[x].hdr && x in e.mem && e.mem[x] == e.mem0[x]
  {
    assert Accounted(e, x);
  }

  lemma CopyKeepsPointers(e: Evac<nat>, c: Cycle, n: Arena, t: Arena, x: Addr, n': Arena, t': Arena)
    requires Pointers(e, c, n, t) && x in e.mem && x in e.mem0 && e.mem0[x].Obj? && BumpedFor(e, c, x, n, t, n', t')
    ensures Pointers(CopyStep(e, x, Destination(c, x, n, t), e.mem[x]), c, n', t')
  {
  }

  lemma BumpNeedsRoom(e: Evac<nat>, c: Cycle, n: Arena, t: Arena, x: Addr, n': Arena, t': Arena)
    requires x in e.mem0 && e.mem0[x].Obj? && 0 < e.mem0[x].hdr && BumpedFor(e, c, x, n, t, n', t')
    ensures if InN0(c, x) then n.free < n.hi else t.free < t.hi
  {
  }

  lemma CopyKeepsHeaders(e: Evac<nat>, x: Addr, d: Addr)
    requires Forwards(e) && Headers(e) && x in e.from && e.mem[x] == e.mem0[x] && d !in e.mem
    ensures Headers(CopyStep(e, x, d, e.mem[x]))
  {
    hide Forwards;
    FromIsOld(e);
    var e' := CopyStep(e, x, d, e.mem[x]);
    forall b | b in e'.mem && b !in e'.from
      ensures Origin(e', b) in e'.mem0 && e'.mem[b].Obj? && e'.mem0[Origin(e', b)].Obj?
      ensures e'.mem[b].hdr == e'.mem0[Origin(e', b)].hdr
    {
      if b != d { assert b in e.mem && Origin(e', b) == Origin(e, b); }
    }
  }

  lemma FromIsOld(e: Evac<nat>)
    requires Forwards(e)
    ensures e.from <= e.mem0.Keys <= e.mem.Keys && e.src.Keys <= e.mem.Keys && e.src.Keys !! e.mem0.Keys
  {
  }

  lemma FixKeepsLayout(e: Evac<nat>, c: Cycle, n: Arena, t: Arena, d: Addr, i: nat, v: Addr)
    requires Headers(e) && Tiles(e, c, n, t) && Budget(e, c, n, t)
    requires d in e.mem && d !in e.from && e.mem[d].Obj? && i < |e.mem[d].fields|
    ensures Headers(SetField(e, d, i, v)) && Tiles(SetField(e, d, i, v), c, n, t)
    ensures Budget(SetField(e, d, i, v), c, n, t)
  {
    hide AllocPadding, Arena.Aligned, Tiled, Bytes;
    var e' := SetField(e, d, i, v);
    FixKeepsTiled(e.mem, d, i, v, t.lo, c.tBase);
    FixKeepsTiled(e.mem, d, i, v, n.lo, n.free);
    FixKeepsTiled(e.mem, d, i, v, c.tBase, t.free);
    assert CopiedSet(e') == CopiedSet(e);
  }

  lemma FixKeepsTiled(mem: Mem<nat>, d: Addr, i: nat, v: Addr, lo: nat, hi: nat)
    requires Tiled(mem, lo, hi) && d in mem && mem[d].Obj? && i < |mem[d].fields|
    ensures Tiled(mem[d := mem[d].(fields := mem[d].fields[i := v])], lo, hi)
  {
    TiledFrame(mem, mem[d := mem[d].(fields := mem[d].fields[i := v])], lo, hi);
  }

  /** Redirecting one field of an object outside from-space keeps the whole invariant. */
  lemma FixKeepsCollecting(e: Evac<nat>, c: Cycle, n: Arena, t: Arena, d: Addr, i: nat)
    requires Collecting(e, c, n, t)
    requires d in e.mem && d !in e.from && e.mem[d].Obj? && i < |e.mem[d].fields|
    requires Phi(e.mem, e.mem[d].fields[i]) !in e.from
    ensures Collecting(SetField(e, d, i, Phi(e.mem, e.mem[d].fields[i])), c, n, t)
    ensures ExtendsBut(e, SetField(e, d, i, Phi(e.mem, e.mem[d].fields[i])), d)
  {
    var v := Phi(e.mem, e.mem[d].fields[i]);
    FixKeepsInv(e, d, i);
    FixKeepsLayout(e, c, n, t, d, i, v);
  }

  /** What the promotion counter and the termination measure need to know about a copy. */
  lemma CopyAddsToCopied(e: Evac<nat>, c: Cycle, x: Addr, d: Addr, copy: Cell<nat>)
    requires x in e.from && x in e.mem && !Copied(e, x) && d !in e.from
    requires x in e.mem0 && e.mem0[x].Obj?
    ensures CopiedSet(CopyStep(e, x, d, copy)) == CopiedSet(e) + {x}
    ensures e.from - CopiedSet(CopyStep(e, x, d, copy)) < e.from - CopiedSet(e)
    ensures Bytes(e.mem0, CopiedSet(CopyStep(e, x, d, copy)), c.nf.lo, c.nf.checkpoint) ==
      Bytes(e.mem0, CopiedSet(e), c.nf.lo, c.nf.checkpoint)
      + if c.nf.IsBeforeCheckpoint(x) then Stride(e.mem0, x) else 0
  {
    assert CopiedSet(CopyStep(e, x, d, copy)) == CopiedSet(e) + {x};
    BytesWith(e.mem0, CopiedSet(e), x, c.nf.lo, c.nf.checkpoint);
  }

  // ---------------------------------------------------------------------------
  // The gray scan
  // ---------------------------------------------------------------------------

  /** What is left to copy. */
  ghost function Unmoved(e: Evac<nat>): set<Addr> {
    e.from - CopiedSet(e)
  }

  /** The to-spaces only grow, new copies lie in what they grew by, and they grow only when something is copied. */
  ghost predicate Progress(e: Evac<nat>, n: Arena, t: Arena, e': Evac<nat>, n': Arena, t': Arena) {
    && n' == n.(free := n'.free, committed := n'.committed) && n.free <= n'.free
    && t' == t.(free := t'.free, committed := t'.committed) && t.free <= t'.free
    && e.mem.Keys <= e'.mem.Keys && e'.from == e.from
    && (forall a :: a in e.mem && e.mem[a].Fwd? ==> e'.mem[a] == e.mem[a])
    && (n.free < n'.free ==> n.free in e'.mem) && (t.free < t'.free ==> t.free in e'.mem)
    && (forall d :: d in e'.src && d !in e.src ==> n.free <= d < n'.free || t.free <= d < t'.free)
    && Unmoved(e') <= Unmoved(e)
    && (Unmoved(e') == Unmoved(e) ==> n'.free == n.free && t'.free == t.free)
  }

  lemma ProgressTrans(
      e: Evac<nat>, n: Arena, t: Arena, e1: Evac<nat>, n1: Arena, t1: Arena, e2: Evac<nat>, n2: Arena, t2: Arena)
    requires Progress(e, n, t, e1, n1, t1) && Progress(e1, n1, t1, e2, n2, t2)
    ensures Progress(e, n, t, e2, n2, t2)
  {
  }

  lemma ProgressIsReflexive(e: Evac<nat>, n: Arena, t: Arena)
    ensures Progress(e, n, t, e, n, t)
  {
  }

  /** A step that copies something leaves less to copy; one that copies nothing leaves the to-spaces as they are. */
  lemma ProgressShrinks(e: Evac<nat>, n: Arena, t: Arena, e': Evac<nat>, n': Arena, t': Arena)
    requires Progress(e, n, t, e', n', t')
    ensures Unmoved(e') < Unmoved(e) || (Unmoved(e') == Unmoved(e) && n'.free == n.free && t'.free == t.free)
  {
  }

  /** Copying one object is progress. */
  lemma CopyIsProgress(e: Evac<nat>, c: Cycle, n: Arena, t: Arena, x: Addr, n': Arena, t': Arena)
    requires x in e.from && x in e.mem && !Copied(e, x) && x in e.mem0 && e.mem0[x].Obj? && e.mem[x] == e.mem0[x]
    requires 0 < e.mem0[x].hdr && BumpedFor(e, c, x, n, t, n', t')
    requires Destination(c, x, n, t) !in e.from && Destination(c, x, n, t) !in e.mem
    ensures Progress(e, n, t, CopyStep(e, x, Destination(c, x, n, t), e.mem[x]), n', t')
  {
    hide AllocPadding, Arena.Ok;
    CopyAddsToCopied(e, c, x, Destination(c, x, n, t), e.mem[x]);
  }

  /** Every copy is white except those in the gray regions [gn, free) and [gt, free). */
  ghost predicate WhiteBelow(e: Evac<nat>, n: Arena, t: Arena, gn: nat, gt: nat) {
    forall d :: d in e.src ==> Clean(e, d) || gn <= d < n.free || gt <= d < t.free
  }

  /** Every copy is white. */
  ghost predicate White<H>(e: Evac<H>) {
    forall d :: d in e.src ==> Clean(e, d)
  }

  /** A gray pointer is where an object starts, or has caught up with the free pointer. */
  predicate AtObject(mem: Mem<nat>, a: Arena, g: nat) {
    a.lo <= g <= a.free && (g == a.free || g in mem)
  }

  /** Moving objects makes new copies gray and leaves every other copy as it was. */
  lemma NewCopiesAreGray(e: Evac<nat>, n: Arena, t: Arena, e': Evac<nat>, n': Arena, t': Arena, gn: nat, gt: nat)
    requires WhiteBelow(e, n, t, gn, gt) && gn <= n.free && gt <= t.free
    requires Extends(e, e') && Progress(e, n, t, e', n', t') && Forwards(e)
    ensures WhiteBelow(e', n', t', gn, gt)
  {
    forall d | d in e'.src ensures Clean(e', d) || gn <= d < n'.free || gt <= d < t'.free {
      if d in e.src && Clean(e, d) { assert d !in e.from; }
    }
  }

  /** Scanning the object at a gray pointer makes it white and takes the pointer to the next object. */
  lemma ScanKeepsWhite(
      e: Evac<nat>, n: Arena, t: Arena, e': Evac<nat>, n': Arena, t': Arena, gn: nat, gt: nat, d: Addr, gn': nat,
      gt': nat)
    requires WhiteBelow(e, n, t, gn, gt) && gn <= n.free && gt <= t.free
    requires ExtendsBut(e, e', d) && Progress(e, n, t, e', n', t') && Forwards(e) && Clean(e', d)
    requires d !in e.from && gn <= gn' && gt <= gt'
    requires forall b :: b in e'.mem && gn <= b < gn' ==> b == d
    requires forall b :: b in e'.mem && gt <= b < gt' ==> b == d
    requires e'.src.Keys <= e'.mem.Keys
    ensures WhiteBelow(e', n', t', gn', gt')
  {
    forall b | b in e'.src ensures Clean(e', b) || gn' <= b < n'.free || gt' <= b < t'.free {
      if b in e.src && Clean(e, b) { assert b !in e.from; }
    }
  }

  /** From the start of an object in a covered range to its end there is nothing else; its end is the next start. */
  lemma NextObject(mem: Mem<nat>, a: Arena, lo: nat, g: nat)
    requires Tiled(mem, lo, a.free) && a.lo <= lo <= g < a.free && g in mem && mem[g].Obj?
    ensures 0 < Stride(mem, g) && AtObject(mem, a, g + Stride(mem, g))
    ensures forall b :: b in mem && g <= b < g + Stride(mem, g) ==> b == g
  {
    hide AllocPadding;
  }

  /** Scanning an object that the base state did not have yet changes nothing of the base state. */
  lemma ScanExtendsBase(base: Evac<nat>, e: Evac<nat>, e': Evac<nat>, d: Addr)
    requires Extends(base, e) && ExtendsBut(e, e', d) && d !in base.mem
    ensures Extends(base, e')
  {
  }

  /** The coverage of the to-spaces by objects, as the gray scan uses it. */
  lemma ToSpaceTiles(e: Evac<nat>, c: Cycle, n: Arena, t: Arena)
    requires Collecting(e, c, n, t)
    ensures Tiled(e.mem, n.lo, n.free) && Tiled(e.mem, c.tBase, t.free) && Forwards(e)
    ensures n.lo <= n.free <= n.hi && t.lo <= c.tBase <= t.free <= t.hi
    ensures e.src.Keys <= e.mem.Keys
    ensures Disjoint(n, t)
  {
  }

  /** A gray pointer stays at the start of an object, or at the free pointer, as more objects are copied. */
  lemma GrayPointerStays(e: Evac<nat>, n: Arena, t: Arena, e': Evac<nat>, n': Arena, t': Arena, gn: nat, gt: nat)
    requires Progress(e, n, t, e', n', t') && AtObject(e.mem, n, gn) && AtObject(e.mem, t, gt)
    ensures AtObject(e'.mem, n', gn) && AtObject(e'.mem, t', gt)
  {
  }

  /**
   * The state of a gray scan: gn and gt separate what has been scanned from
   * what has not; base is the heap before the scan.
   */
  ghost predicate ScanState(base: Evac<nat>, e: Evac<nat>, c: Cycle, n: Arena, t: Arena, gn: nat, gt: nat) {
    && Extends(base, e) && WhiteBelow(e, n, t, gn, gt)
    && AtObject(e.mem, n, gn) && AtObject(e.mem, t, gt) && c.tBase <= gt
    && forall d :: d in base.mem ==> !(gn <= d < n.hi) && !(gt <= d < t.hi)
  }

  /** Before anything is copied, the free pointers are valid gray pointers. */
  lemma ScanBegins(base: Evac<nat>, c: Cycle, n: Arena, t: Arena, e: Evac<nat>, n': Arena, t': Arena)
    requires Collecting(base, c, n, t) && White(base) && Extends(base, e) && Progress(base, n, t, e, n', t')
    ensures ScanState(base, e, c, n', t', n.free, t.free) && n.free <= n'.free && t.free <= t'.free
  {
    hide Tiled, Clean, Collecting, Forwards, Extends, Live, Phi;
    ToSpaceTiles(base, c, n, t);
    ForwardsOf(base, c, n, t);
    forall d | d in base.mem ensures !(n.free <= d < n.hi) && !(t.free <= d < t.hi) {
      NothingBeyondFree(base, c, n, t, d);
    }
    NewCopiesAreGray(base, n, t, e, n', t', n.free, t.free);
  }

  lemma ScanMonotone(e: Evac<nat>, n: Arena, t: Arena, e': Evac<nat>, n': Arena, t': Arena)
    requires Progress(e, n, t, e', n', t')
    ensures e.mem.Keys <= e'.mem.Keys && n'.lo == n.lo && n'.hi == n.hi && t'.lo == t.lo && t'.hi == t.hi
    ensures n.free <= n'.free && t.free <= t'.free
  {
  }

  /** The object at a gray pointer that has not caught up is a copy, newer than the base state. */
  lemma ScanHead(base: Evac<nat>, e: Evac<nat>, c: Cycle, n: Arena, t: Arena, gn: nat, gt: nat, d: Addr)
    requires Collecting(e, c, n, t) && ScanState(base, e, c, n, t, gn, gt)
    requires (d == gn && gn < n.free) || (d == gt && gt < t.free)
    ensures d in e.mem && d !in e.from && d !in base.mem
  {
    hide Tiled, Clean, Forwards, Extends, WhiteBelow;
    ToSpaceTiles(e, c, n, t);
    StaysPut(e, c, n, t, d);
  }

  /**
   * Scanning the object d at one of the gray pointers and moving that pointer
   * over it keeps the state of the scan.
   */
  lemma ScanStep(
      base: Evac<nat>, c: Cycle, e: Evac<nat>, n: Arena, t: Arena, e': Evac<nat>, n': Arena, t': Arena,
      gn: nat, gt: nat, d: Addr, gn': nat, gt': nat)
    requires Collecting(e, c, n, t) && ScanState(base, e, c, n, t, gn, gt)
    requires (d == gn && gn < n.free) || (d == gt && gt < t.free)
    requires Collecting(e', c, n', t') && ExtendsBut(e, e', d) && Progress(e, n, t, e', n', t') && Clean(e', d)
    requires gn <= gn' && gt <= gt' && AtObject(e'.mem, n', gn') && AtObject(e'.mem, t', gt')
    requires forall b :: b in e'.mem && gn <= b < gn' ==> b == d
    requires forall b :: b in e'.mem && gt <= b < gt' ==> b == d
    ensures ScanState(base, e', c, n', t', gn', gt')
  {
    hide Tiled, Clean, Progress, Collecting;
    ScanHead(base, e, c, n, t, gn, gt, d);
    ToSpaceTiles(e, c, n, t);
    ToSpaceTiles(e', c, n', t');
    hide Forwards, Extends, ExtendsBut, WhiteBelow, Disjoint;
    ScanMonotone(e, n, t, e', n', t');
    ScanExtendsBase(base, e, e', d);
    ScanKeepsWhite(e, n, t, e', n', t', gn, gt, d, gn', gt');
  }

  lemma ScanNurseryStep(
      base: Evac<nat>, c: Cycle, e: Evac<nat>, n: Arena, t: Arena, e': Evac<nat>, n': Arena, t': Arena, gn: nat,
      gt: nat)
    requires Collecting(e, c, n, t) && ScanState(base, e, c, n, t, gn, gt) && gn < n.free
    requires Collecting(e', c, n', t') && ExtendsBut(e, e', gn) && Progress(e, n, t, e', n', t') && Clean(e', gn)
    ensures 0 < Stride(e'.mem, gn) && gn + Stride(e'.mem, gn) <= n'.free
    ensures ScanState(base, e', c, n', t', gn + Stride(e'.mem, gn), gt)
    ensures gn <= n'.free && gt <= t'.free
  {
    hide Tiled, Progress, Collecting, Forwards, Extends, ExtendsBut, WhiteBelow, Disjoint, AllocPadding;
    ToSpaceTiles(e', c, n', t');
    ScanMonotone(e, n, t, e', n', t');
    NextObject(e'.mem, n', n'.lo, gn);
    GrayPointerStays(e, n, t, e', n', t', gn, gt);
    ScanStep(base, c, e, n, t, e', n', t', gn, gt, gn, gn + Stride(e'.mem, gn), gt);
  }

  lemma ScanTenuredStep(
      base: Evac<nat>, c: Cycle, e: Evac<nat>, n: Arena, t: Arena, e': Evac<nat>, n': Arena, t': Arena, gn: nat,
      gt: nat)
    requires Collecting(e, c, n, t) && ScanState(base, e, c, n, t, gn, gt) && gt < t.free
    requires Collecting(e', c, n', t') && ExtendsBut(e, e', gt) && Progress(e, n, t, e', n', t') && Clean(e', gt)
    ensures 0 < Stride(e'.mem, gt) && gt + Stride(e'.mem, gt) <= t'.free
    ensures ScanState(base, e', c, n', t', gn, gt + Stride(e'.mem, gt))
    ensures gn <= n'.free && gt <= t'.free
  {
    hide Tiled, Progress, Collecting, Forwards, Extends, ExtendsBut, WhiteBelow, Disjoint, AllocPadding;
    ToSpaceTiles(e', c, n', t');
    ScanMonotone(e, n, t, e', n', t');
    NextObject(e'.mem, t', c.tBase, gt);
    GrayPointerStays(e, n, t, e', n', t', gn, gt);
    ScanStep(base, c, e, n, t, e', n', t', gn, gt, gt, gn, gt + Stride(e'.mem, gt));
  }

  /** When the gray pointers have caught up, every copy is white. */
  lemma ScanEnds(base: Evac<nat>, e: Evac<nat>, c: Cycle, n: Arena, t: Arena)
    requires ScanState(base, e, c, n, t, n.free, t.free)
    ensures White(e) && Extends(base, e)
  {
  }

  /** A pointer that has been forwarded keeps its destination. */
  lemma ResultStays(e: Evac<nat>, c: Cycle, n: Arena, t: Arena, e': Evac<nat>, n': Arena, t': Arena, x: Addr)
    requires Collecting(e, c, n, t) && Collecting(e', c, n', t') && Progress(e, n, t, e', n', t')
    requires Phi(e.mem, x) !in e.from
    ensures Phi(e'.mem, x) == Phi(e.mem, x)
  {
    hide Headers, Tiles, Budget, Pointers, Zones, OnlyLive, AllFaithful;
    if x in e.from {
      assert Accounted(e, x);
    } else {
      OutsideStays(e, c, n, t, x);
      OutsideStays(e', c, n', t', x);
    }
  }

  lemma FixKeepsCopied(e: Evac<nat>, d: Addr, i: nat, v: Addr)
    requires d in e.mem && d !in e.from && e.mem[d].Obj? && i < |e.mem[d].fields|
    ensures CopiedSet(SetField(e, d, i, v)) == CopiedSet(e)
  {
  }

  /** The next field to be forwarded holds a pointer _forward accepts. */
  lemma FieldIsReady(e: Evac<nat>, c: Cycle, n: Arena, t: Arena, d: Addr, i: nat)
    requires Collecting(e, c, n, t)
    requires d in e.mem && d !in e.from && e.mem[d].Obj? && i < |e.mem[d].fields|
    ensures Known(e, c, n, t, e.mem[d].fields[i])
    ensures e.mem[d].fields[i] in e.from ==> Live(e.mem0, e.from, e.starts, e.mem[d].fields[i])
  {
    hide Headers, Tiles, Budget, Live;
    FieldIsKnown(e, c, n, t, d, i);
    if e.mem[d].fields[i] in e.from { FieldTargetIsLive(e, d, i); }
  }

  // ---------------------------------------------------------------------------
  // Roots
  // ---------------------------------------------------------------------------

  /** What copying the roots needs to know about a root value: it may be met, and if it is in from-space it is live. */
  lemma StartIsReady(e: Evac<nat>, c: Cycle, n: Arena, t: Arena, x: Addr)
    requires Collecting(e, c, n, t) && x in e.starts
    ensures Known(e, c, n, t, x)
    ensures x in e.from ==> Live(e.mem0, e.from, e.starts, x)
    ensures Phi(e.mem, x) !in e.from ==> Known(e, c, n, t, Phi(e.mem, x))
  {
    hide Headers, Tiles, Budget, Zones, Live, AllFaithful, OnlyLive;
    if x in e.from {
      assert Accounted(e, x);
      StartIsLive(e.mem0, e.from, e.starts, x);
    } else {
      OutsideStays(e, c, n, t, x);
    }
  }

  // ---------------------------------------------------------------------------
  // The mutation log during a collection
  // ---------------------------------------------------------------------------

  /** An entry as it was logged before the collection: its parent was in tenured space or N1. */
  predicate Logged(mem0: Mem<nat>, c: Cycle, en: Entry) {
    && en.parent in mem0 && mem0[en.parent].Obj? && en.slot < |mem0[en.parent].fields|
    && !InN0(c, en.parent)
  }

  ghost predicate AllLogged(mem0: Mem<nat>, c: Cycle, log: seq<Entry>) {
    forall k :: 0 <= k < |log| ==> Logged(mem0, c, log[k])
  }

  /** Field i of d is remembered if it points into the nursery. */
  predicate Kept(e: Evac<nat>, n: Arena, to: seq<Entry>, d: Addr, i: nat) {
    && d in e.mem && e.mem[d].Obj? && i < |e.mem[d].fields|
    && (n.Contains(e.mem[d].fields[i]) ==> Entry(d, i) in to)
  }

  /** An entry is settled when its parent is known to survive and its field is redirected, and remembered if need be. */
  predicate Settled(e: Evac<nat>, n: Arena, to: seq<Entry>, en: Entry) {
    if en.parent in e.from then
      Copied(e, en.parent) && Kept(e, n, to, Phi(e.mem, en.parent), en.slot)
    else
      Kept(e, n, to, en.parent, en.slot) && e.mem[en.parent].fields[en.slot] !in e.from
  }

  /** A field of an object that does not move is remembered as soon as it points into nursery to-space. */
  ghost predicate OldKept(e: Evac<nat>, n: Arena, to: seq<Entry>) {
    forall d, i :: d in e.mem0 && d !in e.from && d in e.mem && e.mem[d].Obj? && 0 <= i < |e.mem[d].fields|
      ==> Kept(e, n, to, d, i)
  }

  /** An outgoing entry names a tenured object's field that points into the nursery. */
  predicate KeepOk(e: Evac<nat>, n: Arena, t: Arena, en: Entry) {
    && en.parent in e.mem && en.parent !in e.from && e.mem[en.parent].Obj? && en.slot < |e.mem[en.parent].fields|
    && t.Contains(en.parent) && n.Contains(e.mem[en.parent].fields[en.slot])
  }

  ghost predicate LogState(e: Evac<nat>, n: Arena, t: Arena, to: seq<Entry>) {
    White(e) && OldKept(e, n, to) && forall en :: en in to ==> KeepOk(e, n, t, en)
  }

  /**
   * From e to e' only field i of d may have changed among the objects outside from-space, from a from-
   * space pointer to its new home.
   */
  ghost predicate FixedOnly(e: Evac<nat>, e': Evac<nat>, d: Addr, i: nat) {
    && ExtendsBut(e, e', d) && d in e.mem && d in e'.mem && e.mem[d].Obj? && e'.mem[d].Obj?
    && |e'.mem[d].fields| == |e.mem[d].fields|
    && (forall j :: 0 <= j < |e.mem[d].fields| ==>
          e'.mem[d].fields[j] == e.mem[d].fields[j]
          || (j == i && e.mem[d].fields[j] in e.from && e'.mem[d].fields[j] !in e.from))
  }

  /** A settled entry stays settled. */
  lemma SettledStays(
      e: Evac<nat>, e': Evac<nat>, n: Arena, n': Arena, to: seq<Entry>, to': seq<Entry>, d: Addr, i: nat, en: Entry)
    requires Forwards(e) && Settled(e, n, to, en) && FixedOnly(e, e', d, i) && d in e.mem0 && d !in e.from
    requires n'.lo == n.lo && n'.hi == n.hi && to <= to'
    requires OldKept(e', n', to')
    ensures Settled(e', n', to', en)
  {
    if en.parent in e.from {
      assert Accounted(e, en.parent);
    }
  }

  /** What the log knows is not disturbed by moving objects. */
  lemma LogStateExtends(
      e: Evac<nat>, c: Cycle, n: Arena, t: Arena, to: seq<Entry>, e': Evac<nat>, n': Arena, t': Arena)
    requires Collecting(e, c, n, t) && Extends(e, e') && Progress(e, n, t, e', n', t') && White(e')
    requires LogState(e, n, t, to)
    ensures LogState(e', n', t', to)
  {
    hide Collecting, White, Progress, Zones, Headers, Forwards, OldKept, Extends, KeepOk;
    ForwardsOf(e, c, n, t);
    ScanMonotone(e, n, t, e', n', t');
    assert e.mem0.Keys <= e.mem.Keys by { MemoryGrows(e); }
    OldKeptExtends(e, n, to, e', n');
    forall en | en in to ensures KeepOk(e', n', t', en) {
      KeepOkExtends(e, n, t, en, e', n', t');
    }
  }

  lemma KeepOkExtends(e: Evac<nat>, n: Arena, t: Arena, en: Entry, e': Evac<nat>, n': Arena, t': Arena)
    requires KeepOk(e, n, t, en) && Extends(e, e') && n'.lo == n.lo && n'.hi == n.hi && t'.lo == t.lo && t'.hi == t.hi
    ensures KeepOk(e', n', t', en)
  {
  }

  lemma OldKeptExtends(e: Evac<nat>, n: Arena, to: seq<Entry>, e': Evac<nat>, n': Arena)
    requires Extends(e, e') && OldKept(e, n, to) && n'.lo == n.lo && n'.hi == n.hi && e.mem0.Keys <= e.mem.Keys
    ensures OldKept(e', n', to)
  {
    forall d, i | d in e'.mem0 && d !in e'.from && d in e'.mem && e'.mem[d].Obj? && 0 <= i < |e'.mem[d].fields|
      ensures Kept(e', n', to, d, i)
    {
      assert Kept(e, n, to, d, i);
    }
  }

  /** The parent of an entry that does not move is there, with its field, and the field may be forwarded. */
  lemma TenuredEntryIsReady(e: Evac<nat>, c: Cycle, n: Arena, t: Arena, en: Entry)
    requires Collecting(e, c, n, t) && Logged(e.mem0, c, en) && en.parent !in e.from
    ensures en.parent in e.mem && e.mem[en.parent].Obj? && en.slot < |e.mem[en.parent].fields|
    ensures t.Contains(en.parent) && en.parent !in e.src
    ensures var x := e.mem[en.parent].fields[en.slot];
      Known(e, c, n, t, x) && (x in e.from ==> Live(e.mem0, e.from, e.starts, x))
  {
    ForwardsOf(e, c, n, t);
    assert Faithful(e, en.parent);
    hide Collecting, Live;
    FieldIsReady(e, c, n, t, en.parent, en.slot);
  }

  /** If the field no longer leads into from-space there is nothing left to do. */
  lemma SettleUnchanged(e: Evac<nat>, c: Cycle, n: Arena, t: Arena, to: seq<Entry>, en: Entry)
    requires Collecting(e, c, n, t) && LogState(e, n, t, to) && Logged(e.mem0, c, en) && en.parent !in e.from
    requires en.parent in e.mem && e.mem[en.parent].Obj? && en.slot < |e.mem[en.parent].fields|
    requires e.mem[en.parent].fields[en.slot] !in e.from
    ensures Settled(e, n, to, en) && FixedOnly(e, e, en.parent, en.slot)
  {
    hide Collecting, White;
  }

  function Appended(to: seq<Entry>, keep: bool, en: Entry): seq<Entry> {
    if keep then to + [en] else to
  }

  /**
   * Redirecting the field of an entry whose child has been copied, and keeping the entry if the child
   * stays in the nursery.
   */
  lemma SettleFixed(e: Evac<nat>, c: Cycle, n: Arena, t: Arena, to: seq<Entry>, en: Entry, v: Addr)
    requires Collecting(e, c, n, t) && LogState(e, n, t, to) && Logged(e.mem0, c, en) && en.parent !in e.from
    requires en.parent in e.mem && e.mem[en.parent].Obj? && en.slot < |e.mem[en.parent].fields|
    requires e.mem[en.parent].fields[en.slot] in e.from
    requires v == Phi(e.mem, e.mem[en.parent].fields[en.slot]) && v !in e.from
    ensures var e' := SetField(e, en.parent, en.slot, v); var to' := Appended(to, n.Contains(v), en);
      Collecting(e', c, n, t) && LogState(e', n, t, to') && Settled(e', n, to', en) &&
        FixedOnly(e, e', en.parent, en.slot)
  {
    hide Collecting, Known, Live, Phi;
    TenuredEntryIsReady(e, c, n, t, en);
    FixKeepsCollecting(e, c, n, t, en.parent, en.slot);
    forall x | n.Contains(x) ensures x !in e.from { StaysPut(e, c, n, t, x); }
    FixKeepsLogState(e, n, t, to, en, v);
    FixSettles(e, n, to, en, v);
  }

  lemma FixSettles(e: Evac<nat>, n: Arena, to: seq<Entry>, en: Entry, v: Addr)
    requires en.parent in e.mem && e.mem[en.parent].Obj? && en.slot < |e.mem[en.parent].fields| && en.parent !in e.from
    requires e.mem[en.parent].fields[en.slot] in e.from && v !in e.from
    ensures Settled(SetField(e, en.parent, en.slot, v), n, Appended(to, n.Contains(v), en), en)
    ensures ExtendsBut(e, SetField(e, en.parent, en.slot, v), en.parent) ==>
      FixedOnly(e, SetField(e, en.parent, en.slot, v), en.parent, en.slot)
  {
  }

  lemma FixKeepsLogState(e: Evac<nat>, n: Arena, t: Arena, to: seq<Entry>, en: Entry, v: Addr)
    requires LogState(e, n, t, to)
    requires en.parent in e.mem && e.mem[en.parent].Obj? && en.slot < |e.mem[en.parent].fields|
    requires en.parent !in e.from && en.parent !in e.src && t.Contains(en.parent)
    requires e.mem[en.parent].fields[en.slot] in e.from && v !in e.from
    requires forall x :: n.Contains(x) ==> x !in e.from
    ensures LogState(SetField(e, en.parent, en.slot, v), n, t, Appended(to, n.Contains(v), en))
  {
    var e' := SetField(e, en.parent, en.slot, v);
    var to' := Appended(to, n.Contains(v), en);
    forall d, i | d in e'.mem0 && d !in e'.from && d in e'.mem && e'.mem[d].Obj? && 0 <= i < |e'.mem[d].fields|
      ensures Kept(e', n, to', d, i)
    {
      if d != en.parent || i != en.slot { assert Kept(e, n, to, d, i); }
    }
    forall k | k in to' ensures KeepOk(e', n, t, k) {
      if k in to { assert KeepOk(e, n, t, k); }
    }
    forall d | d in e'.src ensures Clean(e', d) { assert Clean(e, d); }
  }

  lemma ExtendsThenFixed(e: Evac<nat>, e1: Evac<nat>, e2: Evac<nat>, d: Addr, i: nat)
    requires Extends(e, e1) && FixedOnly(e1, e2, d, i) && d in e.mem && d !in e.from
    ensures FixedOnly(e, e2, d, i)
  {
  }

  lemma FixIsProgress(e: Evac<nat>, n: Arena, t: Arena, e1: Evac<nat>, n1: Arena, t1: Arena, d: Addr, i: nat, v: Addr)
    requires Progress(e, n, t, e1, n1, t1)
    requires d in e1.mem && d !in e1.from && e1.mem[d].Obj? && i < |e1.mem[d].fields|
    ensures Progress(e, n, t, SetField(e1, d, i, v), n1, t1)
  {
    FixKeepsCopied(e1, d, i, v);
  }

  /** What forwarding a field does, once its target has been moved. */
  lemma FieldForwarded(
      e0: Evac<nat>, n0: Arena, t0: Arena, e: Evac<nat>, c: Cycle, n: Arena, t: Arena, d: Addr, i: nat, v: Addr)
    requires Collecting(e, c, n, t) && Extends(e0, e) && Progress(e0, n0, t0, e, n, t)
    requires d in e0.mem && d !in e.from && d in e.mem && e.mem[d].Obj? && i < |e.mem[d].fields|
    requires v == Phi(e.mem, e.mem[d].fields[i]) && v !in e.from
    ensures var e' := SetField(e, d, i, v);
      && Collecting(e', c, n, t) && CopiedSet(e') == CopiedSet(e) && ExtendsBut(e0, e', d)
      && Progress(e0, n0, t0, e', n, t)
      && (forall x :: Phi(e'.mem, x) == Phi(e.mem, x))
  {
    hide Collecting, Progress, CopiedSet;
    FixKeepsCollecting(e, c, n, t, d, i);
    FixIsProgress(e0, n0, t0, e, n, t, d, i, v);
    FixKeepsCopied(e, d, i, v);
  }

  /** Where the parent of an entry went when it was moved: to tenured space, with its field. */
  lemma ParentMoved(e: Evac<nat>, c: Cycle, n: Arena, t: Arena, en: Entry)
    requires Collecting(e, c, n, t) && Logged(e.mem0, c, en) && en.parent in e.from && Copied(e, en.parent)
    ensures var d := e.mem[en.parent].dest;
      d in e.mem && d in e.src && d !in e.from && e.mem[d].Obj? && en.slot < |e.mem[d].fields| && t.Contains(d)
  {
    ForwardedMeans(e, c, n, t, en.parent);
    ForwardsOf(e, c, n, t);
    var d := e.mem[en.parent].dest;
    assert Faithful(e, d);
    hide Collecting;
    assert Placed(c, n, t, e.src[d], d);
  }

  lemma LogStateAppends(e: Evac<nat>, n: Arena, t: Arena, to: seq<Entry>, keep: bool, en: Entry)
    requires LogState(e, n, t, to) && (keep ==> KeepOk(e, n, t, en))
    ensures LogState(e, n, t, Appended(to, keep, en))
  {
    hide White;
    var to' := Appended(to, keep, en);
    forall d, i | d in e.mem0 && d !in e.from && d in e.mem && e.mem[d].Obj? && 0 <= i < |e.mem[d].fields|
      ensures Kept(e, n, to', d, i)
    {
      assert Kept(e, n, to, d, i);
    }
  }

  /** The parent has moved, taking its children along: only the entry itself needs to follow. */
  lemma SettleMoved(e: Evac<nat>, c: Cycle, n: Arena, t: Arena, to: seq<Entry>, en: Entry)
    requires Collecting(e, c, n, t) && LogState(e, n, t, to)
    requires Logged(e.mem0, c, en) && en.parent in e.from && Copied(e, en.parent)
    ensures var d := e.mem[en.parent].dest;
      d in e.mem && e.mem[d].Obj? && en.slot < |e.mem[d].fields|
      && var to' := Appended(to, n.Contains(e.mem[d].fields[en.slot]), Entry(d, en.slot));
         LogState(e, n, t, to') && Settled(e, n, to', en)
  {
    hide Collecting, LogState, Logged;
    ParentMoved(e, c, n, t, en);
    var d := e.mem[en.parent].dest;
    LogStateAppends(e, n, t, to, n.Contains(e.mem[d].fields[en.slot]), Entry(d, en.slot));
  }

  // ---------------------------------------------------------------------------
  // One pass over the log
  // ---------------------------------------------------------------------------

  /**
   * The first k entries are settled or deferred; a deferred entry's parent is in
   * from-space, and not copied unless something was rescued during this pass.
   */
  ghost predicate Pass(
      e: Evac<nat>, n: Arena, to: seq<Entry>, defer: seq<Entry>, log: seq<Entry>, k: nat, rescue: nat) {
    && k <= |log|
    && (forall j :: 0 <= j < k ==> Settled(e, n, to, log[j]) || log[j] in defer)
    && (forall en :: en in defer ==> en in log && en.parent in e.from)
    && (rescue == 0 ==> forall en :: en in defer ==> !Copied(e, en.parent))
  }

  lemma PassTenured(
      e: Evac<nat>, n: Arena, to: seq<Entry>, defer: seq<Entry>, log: seq<Entry>, k: nat, rescue: nat,
      e': Evac<nat>, n': Arena, to': seq<Entry>, rescue': nat)
    requires Pass(e, n, to, defer, log, k, rescue) && k < |log| && rescue <= rescue'
    requires Forwards(e) && OldKept(e', n', to') && log[k].parent in e.mem0 && log[k].parent !in e.from
    requires FixedOnly(e, e', log[k].parent, log[k].slot) && to <= to' && n'.lo == n.lo && n'.hi == n.hi
    requires Settled(e', n', to', log[k])
    requires rescue' == rescue ==> CopiedSet(e') == CopiedSet(e)
    ensures Pass(e', n', to', defer, log, k + 1, rescue')
  {
    hide Settled, OldKept;
    forall j | 0 <= j < k + 1 ensures Settled(e', n', to', log[j]) || log[j] in defer {
      if j < k && Settled(e, n, to, log[j]) {
        SettledStays(e, e', n, n', to, to', log[k].parent, log[k].slot, log[j]);
      }
    }
    hide FixedOnly;
    forall en | rescue' == 0 && en in defer ensures !Copied(e', en.parent) {
      assert en.parent in CopiedSet(e') <==> en.parent in CopiedSet(e);
    }
  }

  lemma PassMoved(
      e: Evac<nat>, n: Arena, to: seq<Entry>, defer: seq<Entry>, log: seq<Entry>, k: nat, rescue: nat, to': seq<Entry>)
    requires Pass(e, n, to, defer, log, k, rescue) && k < |log| && to <= to' && Settled(e, n, to', log[k])
    ensures Pass(e, n, to', defer, log, k + 1, rescue)
  {
  }

  lemma PassDefers(
      e: Evac<nat>, n: Arena, to: seq<Entry>, defer: seq<Entry>, log: seq<Entry>, k: nat, rescue: nat)
    requires Pass(e, n, to, defer, log, k, rescue) && k < |log| && log[k].parent in e.from && !Copied(e, log[k].parent)
    ensures Pass(e, n, to, defer + [log[k]], log, k + 1, rescue)
  {
  }

  /** What a whole pass achieves: an entry that is neither settled nor deferred has a parent that is garbage so far. */
  ghost predicate PassDone(e: Evac<nat>, n: Arena, to: seq<Entry>, defer: seq<Entry>, log: seq<Entry>) {
    && (forall en :: en in log ==>
          Settled(e, n, to, en) || en in defer || (en.parent in e.from && !Copied(e, en.parent)))
    && (forall en :: en in defer ==> en in log && en.parent in e.from)
  }

  lemma PassEnds(e: Evac<nat>, n: Arena, to: seq<Entry>, defer: seq<Entry>, log: seq<Entry>, rescue: nat)
    requires Pass(e, n, to, defer, log, |log|, rescue)
    ensures PassDone(e, n, to, if rescue == 0 then [] else defer, log)
  {
  }

  lemma PassBegins(e: Evac<nat>, n: Arena, to: seq<Entry>, log: seq<Entry>)
    ensures Pass(e, n, to, [], log, 0, 0)
  {
  }

  lemma SettledGrows(e: Evac<nat>, n: Arena, to: seq<Entry>, to': seq<Entry>, en: Entry)
    requires Settled(e, n, to, en) && to <= to'
    ensures Settled(e, n, to', en)
  {
  }

  /** A second pass over what the first one deferred completes it. */
  lemma PassesCompose(e: Evac<nat>, n: Arena, to: seq<Entry>, to': seq<Entry>, defer: seq<Entry>, log: seq<Entry>)
    requires PassDone(e, n, to, defer, log) && PassDone(e, n, to', [], defer) && to <= to'
    ensures PassDone(e, n, to', [], log)
  {
    hide Settled;
    forall en | en in log ensures Settled(e, n, to', en) || (en.parent in e.from && !Copied(e, en.parent)) {
      if Settled(e, n, to, en) { SettledGrows(e, n, to, to', en); }
    }
  }

  /** By address alone: a logged parent is in tenured to-space exactly when it does not move. */
  lemma ParentRegion(e: Evac<nat>, c: Cycle, n: Arena, t: Arena, en: Entry)
    requires Collecting(e, c, n, t) && Logged(e.mem0, c, en)
    ensures t.Contains(en.parent) <==> en.parent !in e.from
    ensures en.parent in e.from ==> (Copied(e, en.parent) <==> en.parent in e.mem && e.mem[en.parent].Fwd?)
    ensures en.parent in e.mem0
  {
    if t.Contains(en.parent) {
      StaysPut(e, c, n, t, en.parent);
    } else {
      ForwardsOf(e, c, n, t);
      hide Collecting;
    }
  }

  lemma DeferredAreLogged(mem0: Mem<nat>, c: Cycle, log: seq<Entry>, defer: seq<Entry>)
    requires AllLogged(mem0, c, log) && forall en :: en in defer ==> en in log
    ensures AllLogged(mem0, c, defer)
  {
    hide Logged;
    forall k | 0 <= k < |defer| ensures Logged(mem0, c, defer[k]) {
      assert defer[k] in log;
    }
  }

  lemma NothingIsWhite(e: Evac<nat>)
    requires e.src == map[]
    ensures White(e)
  {
  }
}
