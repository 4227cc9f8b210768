/**
 * How a collection of the two-generation heap begins and ends: the heap between
 * collections gives the invariant a collection needs, and when the roots and the
 * mutation log have been dealt with, what is left is such a heap again.
 */
module Cycles {
  import opened Evacuation
  import opened Layout
  import opened Arenas
  import opened Generations

  // ---------------------------------------------------------------------------
  // The start
  // ---------------------------------------------------------------------------

  /** The objects a collection moves: the nursery's, and in a full collection the tenured ones too. */
  function FromSet(mem: Mem<nat>, c: Cycle): set<Addr> {
    set a | a in mem && InFrom(c, a)
  }

  /** a' is the empty space into which a collection copies. */
  predicate Emptied(a: Arena, a': Arena) {
    a'.Ok() && a'.lo == a.lo && a'.hi == a.hi && a'.free == a.lo && a'.checkpoint == a.lo
  }

  predicate SameButCommitted(a: Arena, a': Arena) {
    a'.Ok() && a' == a.(committed := a'.committed)
  }

  /** From the spaces before the exchange of roles to the spaces after it. */
  predicate Swapped(n0: Arena, nf0: Arena, t0: Arena, tf0: Arena, n: Arena, t: Arena, c: Cycle) {
    && Emptied(nf0, n) && c.nf == n0
    && c.tBase == t.free
    && if c.full then Emptied(tf0, t) && SameButCommitted(t0, c.tf) else SameButCommitted(t0, t) && c.tf == tf0
  }

  /** Promotion has room in tenured space; the original checks this before it moves anything. */
  predicate RoomToPromote(n0: Arena, t0: Arena) {
    t0.free + (n0.checkpoint - n0.lo) <= t0.hi
  }

  lemma {:induction false} BytesOfNothing(mem: Mem<nat>, lo: nat, hi: nat)
    ensures Bytes(mem, {}, lo, hi) == 0
    decreases hi - lo
  {
    hide AllocPadding;
    if lo < hi { BytesOfNothing(mem, lo + 1, hi); }
  }

  lemma CollectionStarts(
      mem: Mem<nat>, n0: Arena, nf0: Arena, t0: Arena, tf0: Arena, n: Arena, t: Arena, c: Cycle, roots: set<Addr>)
    requires HeapOk(mem, n0, nf0, t0, tf0) && Swapped(n0, nf0, t0, tf0, n, t, c) && RoomToPromote(n0, t0)
    requires forall s :: s in roots ==> s in mem || External(n0, nf0, t0, tf0, s)
    ensures var from := FromSet(mem, c);
      Collecting(Evac(mem, mem, from, roots + OldFields(mem, from), map[]), c, n, t)
  {
    hide Bytes, AllocPadding, Arena.Aligned, Tiled;
    var from := FromSet(mem, c);
    var starts := roots + OldFields(mem, from);
    var e := Evac(mem, mem, from, starts, map[]);
    StartInv(mem, from, starts);
    StartZones(mem, n0, nf0, t0, tf0, n, t, c, starts);
    StartTiles(mem, n0, nf0, t0, tf0, n, t, c, starts);
    StartPointers(mem, n0, nf0, t0, tf0, n, t, c, roots);
    NothingCopiedYet(e);
    BytesOfNothing(mem, c.nf.checkpoint, c.nf.free);
    BytesOfNothing(mem, c.nf.lo, c.nf.checkpoint);
    BytesOfNothing(mem, c.tf.lo, c.tf.free);
  }

  lemma NothingCopiedYet(e: Evac<nat>)
    requires forall a :: a in e.mem ==> e.mem[a].Obj?
    ensures CopiedSet(e) == {}
  {
  }

  lemma StartInv(mem: Mem<nat>, from: set<Addr>, starts: set<Addr>)
    requires from <= mem.Keys && OldFields(mem, from) <= starts
    requires forall a :: a in mem ==> mem[a].Obj? && MIN_OBJECT <= mem[a].hdr
    ensures Inv(Evac(mem, mem, from, starts, map[])) && Headers(Evac(mem, mem, from, starts, map[]))
  {
    forall t, i | t in mem && t !in from && 0 <= i < |mem[t].fields| ensures mem[t].fields[i] in starts {
      assert mem[t].fields[i] in OldFields(mem, from);
    }
    InvStart(mem, from, starts);
  }

  lemma StartZones(
      mem: Mem<nat>, n0: Arena, nf0: Arena, t0: Arena, tf0: Arena, n: Arena, t: Arena, c: Cycle, starts: set<Addr>)
    requires HeapOk(mem, n0, nf0, t0, tf0) && Swapped(n0, nf0, t0, tf0, n, t, c)
    ensures Zones(Evac(mem, mem, FromSet(mem, c), starts, map[]), c, n, t)
  {
    hide Tiled, Arena.Aligned;
  }

  lemma StartTiles(
      mem: Mem<nat>, n0: Arena, nf0: Arena, t0: Arena, tf0: Arena, n: Arena, t: Arena, c: Cycle, starts: set<Addr>)
    requires HeapOk(mem, n0, nf0, t0, tf0) && Swapped(n0, nf0, t0, tf0, n, t, c)
    ensures Tiles(Evac(mem, mem, FromSet(mem, c), starts, map[]), c, n, t)
  {
    NothingTiled(mem, n.lo);
    NothingTiled(mem, t.free);
    NothingTiled(mem, t.lo);
    hide Tiled, Arena.Aligned;
  }

  lemma NothingTiled(mem: Mem<nat>, a: nat)
    ensures Tiled(mem, a, a)
  {
  }

  lemma StartPointers(
      mem: Mem<nat>, n0: Arena, nf0: Arena, t0: Arena, tf0: Arena, n: Arena, t: Arena, c: Cycle, roots: set<Addr>)
    requires HeapOk(mem, n0, nf0, t0, tf0) && Swapped(n0, nf0, t0, tf0, n, t, c)
    requires forall s :: s in roots ==> s in mem || External(n0, nf0, t0, tf0, s)
    ensures var from := FromSet(mem, c);
      Pointers(Evac(mem, mem, from, roots + OldFields(mem, from), map[]), c, n, t)
  {
    hide Tiled, Arena.Aligned;
    forall s | s in OldFields(mem, FromSet(mem, c)) ensures s in mem || External(n, c.nf, t, c.tf, s) {
      var a, i :| a in mem && a !in FromSet(mem, c) && mem[a].Obj? && 0 <= i < |mem[a].fields| && s == mem[a].fields[i];
    }
  }

  // ---------------------------------------------------------------------------
  // The end
  // ---------------------------------------------------------------------------

  /** The tenured to-space before the collection, as far as addresses go. */
  function TenuredBefore(c: Cycle, t: Arena): Arena {
    if c.full then c.tf else t
  }

  /** Everything the phases of a collection have established when the log has been forwarded. */
  ghost predicate AllForwarded(
      e: Evac<nat>, c: Cycle, n: Arena, t: Arena, log: seq<Entry>, to: seq<Entry>, roots: set<Addr>, logging: bool) {
    && Collecting(e, c, n, t) && LogState(e, n, t, to) && PassDone(e, n, to, [], log)
    && e.starts == roots + OldFields(e.mem0, e.from)
    && (forall s :: s in roots ==> Phi(e.mem, s) !in e.from)
    && (logging ==> Remembered(e.mem0, c.nf, TenuredBefore(c, t), log))
    && (c.full || logging)
  }

  /** A remembered field of an object that stays was redirected. */
  lemma OldObjectIsClean(
      e: Evac<nat>, c: Cycle, n: Arena, t: Arena, log: seq<Entry>, to: seq<Entry>, roots: set<Addr>, logging: bool,
      d: Addr)
    requires AllForwarded(e, c, n, t, log, to, roots, logging) && d in e.mem && d !in e.from && d !in e.src
    ensures Clean(e, d)
  {
    ForwardsOf(e, c, n, t);
    assert Faithful(e, d);
    hide Collecting, LogState, Headers, Placement, Spaces;
    forall i | 0 <= i < |e.mem[d].fields| ensures e.mem[d].fields[i] !in e.from {
      var x := e.mem0[d].fields[i];
      assert FieldOk(e, x, e.mem[d].fields[i]);
      if x in e.from {
        NurseryByAddress(e, c, n, t, x, d);
        assert CrossesGenerations(e.mem0, c.nf, TenuredBefore(c, t), d, i);
        assert Entry(d, i) in log;
      }
    }
  }

  lemma NurseryByAddress(e: Evac<nat>, c: Cycle, n: Arena, t: Arena, x: Addr, d: Addr)
    requires Collecting(e, c, n, t) && x in e.from && d in e.mem0 && d !in e.from
    ensures !c.full && c.nf.Contains(x) && t.Contains(d)
  {
    ForwardsOf(e, c, n, t);
    hide Collecting, Headers, Placement, Arena.Aligned;
  }

  /** When every phase is done, no pointer into from-space is left anywhere. */
  lemma NothingLeftBehind(
      e: Evac<nat>, c: Cycle, n: Arena, t: Arena, log: seq<Entry>, to: seq<Entry>, roots: set<Addr>, logging: bool)
    requires AllForwarded(e, c, n, t, log, to, roots, logging)
    ensures Finished(e)
  {
    hide Collecting, Clean, Copied, OldKept, KeepOk, PassDone, Remembered;
    ForwardsOf(e, c, n, t);
    InvOf(e, c, n, t);
    hide Inv, Zones, Headers, Forwards;
    forall d | d in e.mem && d !in e.from ensures Clean(e, d) {
      if d !in e.src { OldObjectIsClean(e, c, n, t, log, to, roots, logging, d); }
    }
    forall s | s in e.starts && s in e.from ensures Copied(e, s) {
      if s in roots {
        MovedIsCopied(e, c, n, t, s);
      } else {
        var a, i :| a in e.mem0 && a !in e.from && e.mem0[a].Obj? && 0 <= i < |e.mem0[a].fields| &&
          s == e.mem0[a].fields[i];
        OldFieldWasCopied(e, c, n, t, a, i);
      }
    }
  }

  lemma InvOf(e: Evac<nat>, c: Cycle, n: Arena, t: Arena)
    requires Collecting(e, c, n, t)
    ensures Inv(e)
  {
  }

  lemma MovedIsCopied(e: Evac<nat>, c: Cycle, n: Arena, t: Arena, s: Addr)
    requires Collecting(e, c, n, t) && s in e.from && Phi(e.mem, s) !in e.from
    ensures Copied(e, s)
  {
    ForwardsOf(e, c, n, t);
    hide Collecting;
    assert Accounted(e, s);
  }

  lemma OldFieldWasCopied(e: Evac<nat>, c: Cycle, n: Arena, t: Arena, a: Addr, i: nat)
    requires Collecting(e, c, n, t) && a in e.mem0 && a !in e.from && e.mem0[a].Obj? && i < |e.mem0[a].fields|
    requires e.mem0[a].fields[i] in e.from && (a in e.mem && a !in e.src ==> Clean(e, a))
    ensures Copied(e, e.mem0[a].fields[i])
  {
    ForwardsOf(e, c, n, t);
    assert a in e.mem;
    assert Faithful(e, a);
    assert FieldOk(e, e.mem0[a].fields[i], e.mem[a].fields[i]);
    hide Inv, Zones, Headers, Tiles, Budget, Pointers;
    MovedIsCopied(e, c, n, t, e.mem0[a].fields[i]);
  }

  /**
   * Where a pointer from tenured space into the nursery comes from: before the
   * collection the same field of the same object crossed generations.
   */
  lemma CrossingOrigin(e: Evac<nat>, c: Cycle, n: Arena, t: Arena, d: Addr, i: nat)
    requires Collecting(e, c, n, t) && Finished(e)
    requires d in e.mem && d !in e.from && e.mem[d].Obj? && i < |e.mem[d].fields|
    requires t.Contains(d) && n.Contains(e.mem[d].fields[i]) && d in e.src
    ensures var o := e.src[d];
      o in e.mem0 && e.mem0[o].Obj? && i < |e.mem0[o].fields| && Copied(e, o) && Phi(e.mem, o) == d
      && CrossesGenerations(e.mem0, c.nf, TenuredBefore(c, t), o, i)
  {
    hide Inv, Finished, Headers, Tiles, Budget, Arena.Aligned;
    ForwardsOf(e, c, n, t);
    var o := e.src[d];
    var x := CopiedFrom(e, d, i);
    assert Placed(c, n, t, o, d);
    OriginalIsKnown(e, c, n, t, o, i);
    NurseryComesFromN0(e, c, n, t, x);
  }

  /** The field of a copy leads to where that of the original led. */
  lemma CopiedFrom(e: Evac<nat>, d: Addr, i: nat) returns (x: Addr)
    requires Finished(e) && d in e.mem && e.mem[d].Obj? && i < |e.mem[d].fields| && d in e.src && d !in e.from
    ensures var o := e.src[d];
      && o in e.mem0 && e.mem0[o].Obj? && i < |e.mem0[o].fields| && o in e.from && Copied(e, o) && Phi(e.mem, o) == d
      && x == e.mem0[o].fields[i] && e.mem[d].fields[i] == Phi(e.mem, x)
  {
    var o := e.src[d];
    assert Accounted(e, o) && Faithful(e, d);
    x := e.mem0[o].fields[i];
    ForwardingIsHomomorphism(e, o, i);
  }

  lemma OriginalIsKnown(e: Evac<nat>, c: Cycle, n: Arena, t: Arena, o: Addr, i: nat)
    requires Collecting(e, c, n, t) && o in e.mem0 && e.mem0[o].Obj? && i < |e.mem0[o].fields|
    ensures e.mem0[o].fields[i] in e.mem0 || External(n, c.nf, t, c.tf, e.mem0[o].fields[i])
  {
  }

  /** Only N0 objects are copied into the nursery. */
  lemma NurseryComesFromN0(e: Evac<nat>, c: Cycle, n: Arena, t: Arena, x: Addr)
    requires Collecting(e, c, n, t) && n.Contains(Phi(e.mem, x))
    requires x in e.mem0 || External(n, c.nf, t, c.tf, x)
    ensures InN0(c, x)
  {
    hide Collecting;
    if x in e.from {
      CopyIsPlaced(e, c, n, t, x);
    } else {
      OutsideStays(e, c, n, t, x);
      OldIsNotNursery(e, c, n, t, x);
    }
  }

  /** By where it points, a pointer to a copied object tells which part of the nursery the object came from. */
  lemma CopyIsPlaced(e: Evac<nat>, c: Cycle, n: Arena, t: Arena, x: Addr)
    requires Collecting(e, c, n, t) && x in e.from
    ensures n.Contains(Phi(e.mem, x)) ==> InN0(c, x)
    ensures Copied(e, x) ==>
      if InN0(c, x) then n.Contains(Phi(e.mem, x)) else t.Contains(Phi(e.mem, x)) && !n.Contains(Phi(e.mem, x))
  {
    ForwardsOf(e, c, n, t);
    StaysPutAll(e, c, n, t);
    hide Collecting, Headers, Arena.Aligned, Regions;
    assert Accounted(e, x);
    if Copied(e, x) { assert Placed(c, n, t, x, e.mem[x].dest); }
  }

  lemma StaysPutAll(e: Evac<nat>, c: Cycle, n: Arena, t: Arena)
    requires Collecting(e, c, n, t)
    ensures forall x :: x in e.from ==> !n.Contains(x) && !t.Contains(x)
    ensures t.lo <= c.tBase
  {
    hide Tiles, Budget, Pointers, AllFaithful, OnlyLive, Accounted, Headers, Arena.Aligned, Placement;
    forall x | x in e.from ensures InFrom(c, x) { assert x in e.mem0.Keys; }
  }

  lemma OldIsNotNursery(e: Evac<nat>, c: Cycle, n: Arena, t: Arena, x: Addr)
    requires Collecting(e, c, n, t) && x !in e.from
    requires x in e.mem0 || External(n, c.nf, t, c.tf, x)
    ensures !n.Contains(x)
  {
    ForwardsOf(e, c, n, t);
    hide Collecting, Headers, Arena.Aligned, Placement;
  }

  // ---------------------------------------------------------------------------
  // The heap afterwards
  // ---------------------------------------------------------------------------

  predicate Checkpointed(a: Arena, a': Arena) {
    a'.Ok() && a' == a.(checkpoint := a.free)
  }

  /** t' is tenured to-space after cleanup: only a full collection moves its checkpoint. */
  predicate AfterCleanup(c: Cycle, n: Arena, t: Arena, n': Arena, t': Arena) {
    Checkpointed(n, n') && if c.full then Checkpointed(t, t') else t' == t
  }

  lemma HeapIsOkAgain(e: Evac<nat>, c: Cycle, n: Arena, t: Arena, n': Arena, t': Arena)
    requires Collecting(e, c, n, t) && Finished(e) && AfterCleanup(c, n, t, n', t')
    ensures HeapOk(Remaining(e), n', c.nf, t', c.tf)
  {
    hide Tiled, Arena.Aligned, Collecting, Finished, Remaining;
    var mem' := Remaining(e);
    SpacesOf(e, c, n, t);
    RemainingTiles(e, c, n, t);
    NothingTiled(mem', n.free);
    RemainingIsAllocated(e, c, n, t);
    RemainingIsObjects(e, c, n, t);
    forall a, i | a in mem' && 0 <= i < |mem'[a].fields|
      ensures mem'[a].fields[i] in mem' || External(n', c.nf, t', c.tf, mem'[a].fields[i])
    {
      RemainingFieldIsOk(e, c, n, t, a, i);
    }
  }

  lemma RemainingIsObjects(e: Evac<nat>, c: Cycle, n: Arena, t: Arena)
    requires Collecting(e, c, n, t)
    ensures forall a :: a in Remaining(e) ==>
      a in e.mem && Remaining(e)[a] == e.mem[a] && e.mem[a].Obj? && MIN_OBJECT <= e.mem[a].hdr
  {
    hide Collecting;
    forall a | a in Remaining(e) ensures e.mem[a].Obj? && MIN_OBJECT <= e.mem[a].hdr {
      ObjectOutside(e, c, n, t, a);
    }
  }

  lemma RemainingIsAllocated(e: Evac<nat>, c: Cycle, n: Arena, t: Arena)
    requires Collecting(e, c, n, t)
    ensures forall a :: a in Remaining(e) ==> n.Allocated(a) || t.Allocated(a)
  {
    ForwardsOf(e, c, n, t);
    hide Collecting, Headers, Arena.Aligned;
    forall a | a in Remaining(e) ensures n.Allocated(a) || t.Allocated(a) {
      if a in e.src { assert Placed(c, n, t, e.src[a], a); }
    }
  }

  lemma RemainingFieldIsOk(e: Evac<nat>, c: Cycle, n: Arena, t: Arena, a: Addr, i: nat)
    requires Collecting(e, c, n, t) && Finished(e) && a in Remaining(e) && e.mem[a].Obj? && i < |e.mem[a].fields|
    ensures e.mem[a].fields[i] in Remaining(e) || External(n, c.nf, t, c.tf, e.mem[a].fields[i])
  {
    assert Clean(e, a);
    ForwardsOf(e, c, n, t);
    hide Finished;
    FieldIsKnown(e, c, n, t, a, i);
  }

  lemma RemainingTiles(e: Evac<nat>, c: Cycle, n: Arena, t: Arena)
    requires Collecting(e, c, n, t)
    ensures Tiled(Remaining(e), n.lo, n.free) && Tiled(Remaining(e), t.lo, t.free)
  {
    assert Tiled(e.mem, t.lo, c.tBase);
    ToSpaceTiles(e, c, n, t);
    ForwardsOf(e, c, n, t);
    StaysPutAll(e, c, n, t);
    hide Collecting, Headers, Zones, AllocPadding;
    TiledJoin(e.mem, t.lo, c.tBase, t.free);
    forall a | a in e.mem && a !in e.from ensures e.mem[a].Obj? { ObjectOutside(e, c, n, t, a); }
    TiledFrame(e.mem, Remaining(e), n.lo, n.free);
    TiledFrame(e.mem, Remaining(e), t.lo, t.free);
  }

  /** After a collection the log holds exactly the pointers that cross generations. */
  ghost predicate LogIsExact(mem: Mem<nat>, n: Arena, t: Arena, log: seq<Entry>) {
    && Remembered(mem, n, t, log) && LogOk(mem, n, t, log)
    && forall en :: en in log ==>
         en.parent in mem && mem[en.parent].Obj? && en.slot < |mem[en.parent].fields|
         && CrossesGenerations(mem, n, t, en.parent, en.slot)
  }

  lemma LogIsExactAgain(
      e: Evac<nat>, c: Cycle, n: Arena, t: Arena, log: seq<Entry>, to: seq<Entry>, roots: set<Addr>, n': Arena,
      t': Arena)
    requires AllForwarded(e, c, n, t, log, to, roots, true) && Finished(e) && AfterCleanup(c, n, t, n', t')
    ensures LogIsExact(Remaining(e), n', t', to)
  {
    hide Collecting, Finished, Clean, White, OldKept, PassDone, Arena.Aligned;
    var mem' := Remaining(e);
    forall a, i | a in mem' && mem'[a].Obj? && 0 <= i < |mem'[a].fields| && CrossesGenerations(mem', n', t', a, i)
      ensures Entry(a, i) in to
    {
      CrossingIsRemembered(e, c, n, t, log, to, roots, n', t', a, i);
    }
    forall en | en in to ensures KeepOk(e, n, t, en) {}
  }

  lemma CrossingIsRemembered(
      e: Evac<nat>, c: Cycle, n: Arena, t: Arena, log: seq<Entry>, to: seq<Entry>, roots: set<Addr>,
      n': Arena, t': Arena, a: Addr, i: nat)
    requires AllForwarded(e, c, n, t, log, to, roots, true) && Finished(e) && AfterCleanup(c, n, t, n', t')
    requires a in Remaining(e) && e.mem[a].Obj? && i < |e.mem[a].fields|
    requires CrossesGenerations(Remaining(e), n', t', a, i)
    ensures Entry(a, i) in to
  {
    hide Collecting, Clean, White, Arena.Aligned, Finished;
    RemainingFieldIsOk(e, c, n, t, a, i);
    RemainingIsAllocated(e, c, n, t);
    SpacesOf(e, c, n, t);
    if a in e.src {
      CrossingOrigin(e, c, n, t, a, i);
      assert Entry(e.src[a], i) in log;
    } else {
      ForwardsOf(e, c, n, t);
      assert Kept(e, n, to, a, i);
    }
  }

  lemma SpacesOf(e: Evac<nat>, c: Cycle, n: Arena, t: Arena)
    requires Collecting(e, c, n, t)
    ensures Spaces(n, c.nf, t, c.tf)
  {
  }

  // ---------------------------------------------------------------------------
  // Accounting
  // ---------------------------------------------------------------------------

  /** The objects subject to a collection that nothing keeps alive. */
  ghost function Garbage(e: Evac<nat>): set<Addr> {
    set a | a in e.from && !Live(e.mem0, e.from, e.starts, a)
  }

  /** What a collection reports about itself, in bytes. */
  datatype GcItem = GcItem(
    newAlloc: nat, survive: nat, promote: nat, persist: nat, effort: nat, garbage0: nat, garbage1: nat, garbageN: nat)

  /**
   * Conservation in one from-space range: what was copied out of it and the
   * unreachable objects in it make up all of it.
   */
  lemma CopiedAndGarbage(e: Evac<nat>, lo: nat, hi: nat)
    requires Finished(e) && Tiled(e.mem0, lo, hi)
    requires forall a :: a in e.mem0 && lo <= a < hi ==> a in e.from
    ensures Bytes(e.mem0, CopiedSet(e), lo, hi) + Bytes(e.mem0, Garbage(e), lo, hi) == hi - lo
  {
    hide Tiled, Live, Inv, Clean;
    forall a | a in e.from ensures a in Garbage(e) <==> a !in CopiedSet(e) {
      FinishedCopiedIffLive(e, a);
    }
    hide Finished, Garbage, CopiedSet;
    BytesConserved(e.mem0, CopiedSet(e), lo, hi);
    BytesFrame(e.mem0, e.mem0.Keys - CopiedSet(e), Garbage(e), lo, hi);
  }

  lemma FinishedCopiedIffLive(e: Evac<nat>, a: Addr)
    requires Finished(e) && a in e.from
    ensures (a in CopiedSet(e) <==> Copied(e, a)) && (Copied(e, a) <==> Live(e.mem0, e.from, e.starts, a))
  {
    CopiedIffLive(e, a);
  }

  /** The figures of a collection are exact: each kind of garbage is the unreachable bytes of one region. */
  ghost predicate ItemIsExact(e: Evac<nat>, c: Cycle, item: GcItem) {
    && item.newAlloc == c.nf.free - c.nf.checkpoint
    && item.survive == Bytes(e.mem0, CopiedSet(e), c.nf.checkpoint, c.nf.free)
    && item.promote == Bytes(e.mem0, CopiedSet(e), c.nf.lo, c.nf.checkpoint)
    && item.garbage0 == Bytes(e.mem0, Garbage(e), c.nf.checkpoint, c.nf.free)
    && item.garbage1 == Bytes(e.mem0, Garbage(e), c.nf.lo, c.nf.checkpoint)
    && item.persist == (if c.full then Bytes(e.mem0, CopiedSet(e), c.tf.lo, c.tf.free) else 0)
    && item.garbageN == (if c.full then Bytes(e.mem0, Garbage(e), c.tf.lo, c.tf.free) else 0)
    && item.effort == item.survive + item.promote + item.persist
    && item.survive + item.garbage0 == c.nf.free - c.nf.checkpoint
    && item.promote + item.garbage1 == c.nf.checkpoint - c.nf.lo
    && item.persist + item.garbageN == (if c.full then c.tf.free - c.tf.lo else 0)
  }

  /** No subtraction of the cleanup phase goes below zero, and what it computes is exact. */
  lemma FiguresAreExact(e: Evac<nat>, c: Cycle, n: Arena, t: Arena, promote: nat)
    requires Collecting(e, c, n, t) && Finished(e)
    requires promote == Bytes(e.mem0, CopiedSet(e), c.nf.lo, c.nf.checkpoint)
    ensures n.lo <= n.free && c.tBase <= t.free && t.lo <= t.free && (c.full ==> c.tBase == t.lo)
    ensures c.nf.lo <= c.nf.checkpoint <= c.nf.free && c.tf.lo <= c.tf.free
    ensures n.free - n.lo <= c.nf.free - c.nf.checkpoint && promote <= c.nf.checkpoint - c.nf.lo
    ensures c.full ==> promote <= t.free - t.lo <= c.tf.free - c.tf.lo + promote
    ensures !c.full ==> t.free - c.tBase == promote
    ensures ItemIsExact(e, c, GcItem(
      c.nf.free - c.nf.checkpoint, n.free - n.lo, promote,
      if c.full then t.free - t.lo - promote else 0,
      if c.full then n.free - n.lo + (t.free - t.lo) else n.free - n.lo + promote,
      c.nf.free - c.nf.checkpoint - (n.free - n.lo), c.nf.checkpoint - c.nf.lo - promote,
      if c.full then c.tf.free - c.tf.lo + promote - (t.free - t.lo) else 0))
  {
    hide Collecting, Finished, Tiled, Bytes, Arena.Aligned, Garbage, CopiedSet, Disjoint;
    FromRanges(e, c, n, t);
    BudgetOf(e, c, n, t);
    SpacesOf(e, c, n, t);
    CopiedAndGarbage(e, c.nf.checkpoint, c.nf.free);
    CopiedAndGarbage(e, c.nf.lo, c.nf.checkpoint);
    if c.full { CopiedAndGarbage(e, c.tf.lo, c.tf.free); }
  }

  /** The figures of a collection add up to the bytes that were in use in each region before it. */
  lemma FiguresAddUp(e: Evac<nat>, c: Cycle, item: GcItem)
    requires ItemIsExact(e, c, item)
    ensures item.newAlloc == item.survive + item.garbage0 == c.nf.free - c.nf.checkpoint
    ensures item.promote + item.garbage1 == c.nf.checkpoint - c.nf.lo
    ensures item.persist + item.garbageN == if c.full then c.tf.free - c.tf.lo else 0
    ensures item.effort == item.survive + item.promote + item.persist
  {
  }

  lemma BudgetOf(e: Evac<nat>, c: Cycle, n: Arena, t: Arena)
    requires Collecting(e, c, n, t)
    ensures Budget(e, c, n, t) && Tiles(e, c, n, t) && t.lo <= c.tBase <= t.free && (c.full ==> c.tBase == t.lo)
  {
  }

  lemma FromRanges(e: Evac<nat>, c: Cycle, n: Arena, t: Arena)
    requires Collecting(e, c, n, t)
    ensures forall a :: a in e.mem0 && c.nf.lo <= a < c.nf.free ==> a in e.from
    ensures c.full ==> forall a :: a in e.mem0 && c.tf.lo <= a < c.tf.free ==> a in e.from
  {
    ForwardsOf(e, c, n, t);
    hide Collecting, Headers, Placement, Arena.Aligned, Forwards;
  }

  /** What is outside from-space is what lies in the allocated part of a to-space. */
  lemma RemainingByAddress(e: Evac<nat>, c: Cycle, n: Arena, t: Arena)
    requires Collecting(e, c, n, t)
    ensures Remaining(e) == map a | a in e.mem && (n.Allocated(a) || t.Allocated(a)) :: e.mem[a]
  {
    hide Collecting, Tiled, Forwards, Disjoint;
    RemainingIsAllocated(e, c, n, t);
    StaysPutAll(e, c, n, t);
    ToSpaceTiles(e, c, n, t);
    forall a | a in e.mem ensures a !in e.from <==> n.Allocated(a) || t.Allocated(a) {
      if a !in e.from { assert a in Remaining(e); }
    }
  }

  lemma SpacesAreApart(n: Arena, nf: Arena, t: Arena, tf: Arena)
    requires n.Ok() && nf.Ok() && t.Ok() && tf.Ok() && n.hi - n.lo == nf.hi - nf.lo && t.hi - t.lo == tf.hi - tf.lo
    requires (n.hi <= nf.lo || nf.hi <= n.lo) && (n.hi <= t.lo || t.hi <= n.lo) && (n.hi <= tf.lo || tf.hi <= n.lo)
    requires (nf.hi <= t.lo || t.hi <= nf.lo) && (nf.hi <= tf.lo || tf.hi <= nf.lo) && (t.hi <= tf.lo || tf.hi <= t.lo)
    ensures Spaces(n, nf, t, tf)
  {
  }

  lemma EmptyHeapIsOk(n: Arena, nf: Arena, t: Arena, tf: Arena)
    requires Spaces(n, nf, t, tf) && n.free == n.checkpoint == n.lo && t.free == t.lo
    ensures HeapOk(map[], n, nf, t, tf) && LogOk(map[], n, t, []) && Remembered(map[], n, t, [])
  {
  }

  lemma HeapHasSpaces(mem: Mem<nat>, n: Arena, nf: Arena, t: Arena, tf: Arena)
    requires HeapOk(mem, n, nf, t, tf)
    ensures Spaces(n, nf, t, tf)
  {
  }

  /** The promotion counter of a collection starts from nothing copied. */
  lemma NothingPromotedYet(e: Evac<nat>, c: Cycle, n: Arena, t: Arena)
    requires Collecting(e, c, n, t) && e.src == map[]
    ensures Bytes(e.mem0, CopiedSet(e), c.nf.lo, c.nf.checkpoint) == 0
  {
    hide Collecting, Zones, Headers, Bytes, Disjoint;
    ForwardsOf(e, c, n, t);
    forall a | a in e.from ensures !Copied(e, a) { assert Accounted(e, a); }
    assert CopiedSet(e) == {};
    BytesOfNothing(e.mem0, c.nf.lo, c.nf.checkpoint);
  }

  /** Everything the beginning of a collection establishes. */
  lemma CycleBegins(
      mem: Mem<nat>, n0: Arena, nf0: Arena, t0: Arena, tf0: Arena, n: Arena, t: Arena, c: Cycle, roots: set<Addr>)
    requires HeapOk(mem, n0, nf0, t0, tf0) && Swapped(n0, nf0, t0, tf0, n, t, c) && RoomToPromote(n0, t0)
    requires forall s :: s in roots ==> s in mem || External(n0, nf0, t0, tf0, s)
    ensures var from := FromSet(mem, c); var e := Evac(mem, mem, from, roots + OldFields(mem, from), map[]);
      Collecting(e, c, n, t) && Bytes(mem, CopiedSet(e), c.nf.lo, c.nf.checkpoint) == 0
    ensures n.free == n.lo && c.tBase == t.free
  {
    hide HeapOk, Collecting, RoomToPromote, Bytes, CopiedSet;
    CollectionStarts(mem, n0, nf0, t0, tf0, n, t, c, roots);
    var from := FromSet(mem, c);
    NothingPromotedYet(Evac(mem, mem, from, roots + OldFields(mem, from), map[]), c, n, t);
  }

  // ---------------------------------------------------------------------------
  // Between the roots and the log
  // ---------------------------------------------------------------------------

  /** When only roots have been followed, no object that stays points into nursery to-space. */
  lemma LogStateBegins(e0: Evac<nat>, c: Cycle, n0: Arena, t0: Arena, e: Evac<nat>, n: Arena, t: Arena)
    requires Collecting(e0, c, n0, t0) && e0.mem == e0.mem0 && Extends(e0, e) && White(e)
    requires n.lo == n0.lo && n.hi == n0.hi
    ensures LogState(e, n, t, [])
  {
    hide White, Collecting;
    forall d, i | d in e.mem0 && d !in e.from && d in e.mem && e.mem[d].Obj? && 0 <= i < |e.mem[d].fields|
      ensures Kept(e, n, [], d, i)
    {
      assert e.mem[d] == e0.mem[d];
      OldFieldNotInNursery(e0, c, n0, t0, d, i);
    }
  }

  lemma OldFieldNotInNursery(e: Evac<nat>, c: Cycle, n: Arena, t: Arena, d: Addr, i: nat)
    requires Collecting(e, c, n, t) && e.mem == e.mem0
    requires d in e.mem && d !in e.from && e.mem[d].Obj? && i < |e.mem[d].fields|
    ensures !n.Contains(e.mem[d].fields[i])
  {
    hide Collecting;
    OriginalIsKnown(e, c, n, t, d, i);
    var x := e.mem[d].fields[i];
    if x in e.from { StaysPutAll(e, c, n, t); } else { OldIsNotNursery(e, c, n, t, x); }
  }

  /** The log of the heap before the collection is one the collection can work through. */
  lemma LogIsLogged(mem: Mem<nat>, n0: Arena, nf0: Arena, t0: Arena, tf0: Arena, c: Cycle, log: seq<Entry>)
    requires HeapOk(mem, n0, nf0, t0, tf0) && LogOk(mem, n0, t0, log) && c.nf == n0
    requires c.full ==> c.tf.lo == t0.lo && c.tf.free == t0.free
    ensures AllLogged(mem, c, log)
    ensures c.full ==> forall en :: en in log ==> en.parent in FromSet(mem, c)
  {
    HeapHasSpaces(mem, n0, nf0, t0, tf0);
    HeapIsAllocated(mem, n0, nf0, t0, tf0);
    hide HeapOk, Arena.Aligned;
    forall k | 0 <= k < |log| ensures Logged(mem, c, log[k]) && (c.full ==> log[k].parent in FromSet(mem, c)) {
      assert EntryOk(mem, n0, t0, log[k]);
    }
  }

  lemma HeapIsAllocated(mem: Mem<nat>, n: Arena, nf: Arena, t: Arena, tf: Arena)
    requires HeapOk(mem, n, nf, t, tf)
    ensures forall a :: a in mem ==> n.Allocated(a) || t.Allocated(a)
  {
  }

  /**
   * A parent that is an object or lies outside the four spaces is an object exactly if its address is
   * in a to-space.
   */
  lemma ParentByAddress(mem: Mem<nat>, n: Arena, nf: Arena, t: Arena, tf: Arena, x: Addr)
    requires HeapOk(mem, n, nf, t, tf) && (x in mem || External(n, nf, t, tf, x))
    ensures x in mem <==> n.Contains(x) || t.Contains(x)
    ensures !(n.Contains(x) && t.Contains(x)) && !n.Contains(NULL)
  {
    hide HeapTiles, HeapPointers, Arena.Aligned;
  }

  /** What was remembered before the spaces were exchanged is remembered by addresses that are still right. */
  lemma RememberedInCycle(mem: Mem<nat>, n0: Arena, t0: Arena, c: Cycle, t: Arena, log: seq<Entry>)
    requires Remembered(mem, n0, t0, log) && c.nf == n0
    requires TenuredBefore(c, t).lo == t0.lo && TenuredBefore(c, t).hi == t0.hi
    ensures Remembered(mem, c.nf, TenuredBefore(c, t), log)
  {
    forall a, i | a in mem && mem[a].Obj? && 0 <= i < |mem[a].fields| &&
      CrossesGenerations(mem, c.nf, TenuredBefore(c, t), a, i)
      ensures Entry(a, i) in log
    {
      assert CrossesGenerations(mem, n0, t0, a, i);
    }
  }

  // ---------------------------------------------------------------------------
  // The outcome of a whole collection
  // ---------------------------------------------------------------------------

  /** Roots once redirected stay right while the collection goes on. */
  lemma RedirectedStays(
      e: Evac<nat>, c: Cycle, n: Arena, t: Arena, e': Evac<nat>, n': Arena, t': Arena,
      vars0: map<nat, Addr>, rootv: seq<nat>, vars: map<nat, Addr>)
    requires Collecting(e, c, n, t) && Collecting(e', c, n', t') && Progress(e, n, t, e', n', t')
    requires Redirected(vars0, rootv, e, vars)
    ensures Redirected(vars0, rootv, e', vars)
  {
    FromStays(e, n, t, e', n', t');
    hide Collecting, Progress, Phi;
    forall r | r in vars ensures Redirection(vars0, rootv, e', vars, r) {
      assert Redirection(vars0, rootv, e, vars, r);
      if r in rootv { ResultStays(e, c, n, t, e', n', t', vars0[r]); }
    }
  }

  lemma FromStays(e: Evac<nat>, n: Arena, t: Arena, e': Evac<nat>, n': Arena, t': Arena)
    requires Progress(e, n, t, e', n', t')
    ensures e'.from == e.from
  {
  }

  lemma RedirectedRootsAreOk(
      e: Evac<nat>, roots: set<Addr>, vars0: map<nat, Addr>, rootv: seq<nat>, vars: map<nat, Addr>,
      n: Arena, nf: Arena, t: Arena, tf: Arena)
    requires Redirected(vars0, rootv, e, vars) && roots == RootSet(vars0, rootv)
    requires forall r :: r in rootv ==> r in vars0
    requires forall x :: x in roots ==> Phi(e.mem, x) in Remaining(e) || External(n, nf, t, tf, Phi(e.mem, x))
    ensures forall r :: r in rootv ==> r in vars && (vars[r] in Remaining(e) || External(n, nf, t, tf, vars[r]))
  {
    hide Phi, Remaining, External;
    forall r | r in rootv ensures r in vars && (vars[r] in Remaining(e) || External(n, nf, t, tf, vars[r])) {
      assert Redirection(vars0, rootv, e, vars, r);
      assert vars0[r] in roots;
    }
  }

  /**
   * A collection, described by e, took the heap mem0 with the variables vars0 to
   * the heap mem' with the variables vars': no pointer into from-space is left,
   * and each registered root was redirected to where its object is now.
   */
  ghost predicate Collects(
      e: Evac<nat>, full: bool, mem0: Mem<nat>, n0: Arena, t0: Arena, vars0: map<nat, Addr>, rootv: seq<nat>,
      mem': Mem<nat>, vars': map<nat, Addr>) {
    && Finished(e) && Headers(e) && e.mem0 == mem0 && mem' == Remaining(e)
    && (forall a :: a in mem0 ==> (a in e.from <==> n0.Contains(a) || (full && t0.Contains(a))))
    && e.starts == RootSet(vars0, rootv) + OldFields(mem0, e.from)
    && Redirected(vars0, rootv, e, vars')
  }

  /** The objects a collection moves are those of the nursery, and in a full one those of tenured space too. */
  ghost predicate ChosenByAddress(mem: Mem<nat>, from: set<Addr>, full: bool, n0: Arena, t0: Arena) {
    forall a :: a in mem ==> (a in from <==> n0.Contains(a) || (full && t0.Contains(a)))
  }

  lemma CollectsAsAsked(
      e: Evac<nat>, full: bool, mem0: Mem<nat>, n0: Arena, t0: Arena, vars0: map<nat, Addr>, rootv: seq<nat>,
      mem': Mem<nat>, vars': map<nat, Addr>, from: set<Addr>, starts: set<Addr>, roots: set<Addr>)
    requires Finished(e) && Headers(e) && e.mem0 == mem0 && mem' == Remaining(e)
    requires e.from == from && ChosenByAddress(mem0, from, full, n0, t0)
    requires e.starts == starts == roots + OldFields(mem0, from) && roots == RootSet(vars0, rootv)
    requires Redirected(vars0, rootv, e, vars')
    ensures Collects(e, full, mem0, n0, t0, vars0, rootv, mem', vars')
  {
  }

  lemma FromSetByAddress(mem: Mem<nat>, n0: Arena, nf0: Arena, t0: Arena, tf0: Arena, c: Cycle)
    requires HeapOk(mem, n0, nf0, t0, tf0) && c.nf == n0
    requires c.full ==> c.tf.lo == t0.lo && c.tf.free == t0.free && c.tf.hi == t0.hi
    ensures ChosenByAddress(mem, FromSet(mem, c), c.full, n0, t0)
  {
    HeapHasSpaces(mem, n0, nf0, t0, tf0);
    HeapIsAllocated(mem, n0, nf0, t0, tf0);
    hide HeapOk, Arena.Aligned;
  }

  /** A root that was redirected leads to an object that is left, or outside the four spaces. */
  lemma RootIsOkAgain(e: Evac<nat>, c: Cycle, n: Arena, t: Arena, x: Addr)
    requires Collecting(e, c, n, t) && x in e.starts && Phi(e.mem, x) !in e.from
    ensures Phi(e.mem, x) in Remaining(e) || External(n, c.nf, t, c.tf, Phi(e.mem, x))
  {
    hide Collecting;
    StartIsReady(e, c, n, t, x);
  }

  lemma SwappedMeans(n0: Arena, nf0: Arena, t0: Arena, tf0: Arena, n: Arena, t: Arena, c: Cycle)
    requires Swapped(n0, nf0, t0, tf0, n, t, c)
    ensures c.nf == n0 && TenuredBefore(c, t).lo == t0.lo && TenuredBefore(c, t).hi == t0.hi
    ensures c.full ==> c.tf.lo == t0.lo && c.tf.free == t0.free && c.tf.hi == t0.hi && c.tBase == t.lo
    ensures !c.full ==> c.tBase == t0.free && t.checkpoint == t0.checkpoint
  {
  }

  predicate IsN0(n0: Arena, x: Addr) { n0.Contains(x) && !n0.IsBeforeCheckpoint(x) }

  /**
   * The policy: an object that survives its first collection becomes N1, and one that survives its
   * second is tenured for ever.
   */
  ghost predicate PlacedByAge(e: Evac<nat>, n0: Arena, n': Arena, t': Arena) {
    forall x :: x in e.mem0 && Survives(e, x) ==>
      var y := Phi(e.mem, x);
      if IsN0(n0, x) then n'.Contains(y) && n'.IsBeforeCheckpoint(y) && !t'.Contains(y)
      else t'.Contains(y) && !n'.Contains(y)
  }

  lemma CopiesArePlacedByAge(e: Evac<nat>, c: Cycle, n: Arena, t: Arena, n': Arena, t': Arena)
    requires Collecting(e, c, n, t) && Finished(e) && AfterCleanup(c, n, t, n', t')
    ensures PlacedByAge(e, c.nf, n', t')
  {
    hide Collecting, Finished, Arena.Aligned, InN0, Phi;
    SpacesOf(e, c, n, t);
    forall x | x in e.mem0 && Survives(e, x)
      ensures var y := Phi(e.mem, x);
        if IsN0(c.nf, x) then n'.Contains(y) && n'.IsBeforeCheckpoint(y) && !t'.Contains(y)
        else t'.Contains(y) && !n'.Contains(y)
    {
      SurvivorIsPlaced(e, c, n, t, x);
    }
  }

  lemma SurvivorIsPlaced(e: Evac<nat>, c: Cycle, n: Arena, t: Arena, x: Addr)
    requires Collecting(e, c, n, t) && Survives(e, x)
    ensures if IsN0(c.nf, x) then n.Allocated(Phi(e.mem, x)) else t.Contains(Phi(e.mem, x))
  {
    hide Collecting;
    ForwardsOf(e, c, n, t);
    if x in e.from {
      assert Accounted(e, x) && Placed(c, n, t, x, e.mem[x].dest);
    } else {
      OutsideStays(e, c, n, t, x);
    }
  }

  /** Everything the end of a collection establishes. */
  lemma CycleEnds(
      e: Evac<nat>, c: Cycle, n: Arena, t: Arena, log: seq<Entry>, to: seq<Entry>, roots: set<Addr>, logging: bool,
      n': Arena, t': Arena)
    requires AllForwarded(e, c, n, t, log, to, roots, logging) && Finished(e) && AfterCleanup(c, n, t, n', t')
    requires !logging ==> to == []
    ensures HeapOk(Remaining(e), n', c.nf, t', c.tf) && LogOk(Remaining(e), n', t', to) && Headers(e)
    ensures PlacedByAge(e, c.nf, n', t')
    ensures logging ==> LogIsExact(Remaining(e), n', t', to) && Remembered(Remaining(e), n', t', to)
    ensures forall x :: x in roots ==> Phi(e.mem, x) in Remaining(e) || External(n', c.nf, t', c.tf, Phi(e.mem, x))
  {
    hide Collecting, Finished, Remembered, LogState, PassDone, Phi, Remaining, Arena.Aligned;
    HeapIsOkAgain(e, c, n, t, n', t');
    CopiesArePlacedByAge(e, c, n, t, n', t');
    if logging { LogIsExactAgain(e, c, n, t, log, to, roots, n', t'); }
    HeadersOf(e, c, n, t);
    forall x | x in roots ensures Phi(e.mem, x) in Remaining(e) || External(n', c.nf, t', c.tf, Phi(e.mem, x)) {
      RootIsOkAgain(e, c, n, t, x);
    }
  }

  lemma HeadersOf(e: Evac<nat>, c: Cycle, n: Arena, t: Arena)
    requires Collecting(e, c, n, t)
    ensures Headers(e)
  {
  }

  // ---------------------------------------------------------------------------
  // What the mutator does between collections
  // ---------------------------------------------------------------------------

  /**
   * The stores the write barrier logs: of a nursery pointer, into a tenured or an
   * N1 object. (That includes N1 -> N1 stores, which cross nothing.)
   */
  predicate MustLog(n: Arena, t: Arena, parent: Addr, rhs: Addr) {
    n.Contains(rhs) && (t.Contains(parent) || n.IsBeforeCheckpoint(parent))
  }

  lemma AssignKeepsHeap(mem: Mem<nat>, n: Arena, nf: Arena, t: Arena, tf: Arena, p: Addr, i: nat, x: Addr)
    requires HeapOk(mem, n, nf, t, tf) && p in mem && mem[p].Obj? && i < |mem[p].fields|
    requires x in mem || External(n, nf, t, tf, x)
    ensures HeapOk(Assigned(mem, p, i, x), n, nf, t, tf)
  {
    hide Tiled, Arena.Aligned;
    FixKeepsTiled(mem, p, i, x, n.lo, n.checkpoint);
    FixKeepsTiled(mem, p, i, x, n.checkpoint, n.free);
    FixKeepsTiled(mem, p, i, x, t.lo, t.free);
  }

  /** The write barrier: an assignment that logs itself if it crosses generations keeps every crossing remembered. */
  lemma AssignKeepsLog(mem: Mem<nat>, n: Arena, t: Arena, log: seq<Entry>, p: Addr, i: nat, x: Addr, logged: bool)
    requires p in mem && mem[p].Obj? && i < |mem[p].fields| && LogOk(mem, n, t, log)
    requires logged <==> MustLog(n, t, p, x)
    ensures LogOk(Assigned(mem, p, i, x), n, t, Appended(log, logged, Entry(p, i)))
    ensures Remembered(mem, n, t, log) ==> Remembered(Assigned(mem, p, i, x), n, t, Appended(log, logged, Entry(p, i)))
  {
    var mem', log' := Assigned(mem, p, i, x), Appended(log, logged, Entry(p, i));
    forall en | en in log' ensures EntryOk(mem', n, t, en) {
      if en in log { assert EntryOk(mem, n, t, en); }
    }
    if Remembered(mem, n, t, log) {
      forall a, j | a in mem' && mem'[a].Obj? && 0 <= j < |mem'[a].fields| && CrossesGenerations(mem', n, t, a, j)
        ensures Entry(a, j) in log'
      {
        if a != p || j != i { assert CrossesGenerations(mem, n, t, a, j); }
      }
    }
  }

  lemma AllocKeepsHeap(mem: Mem<nat>, n: Arena, nf: Arena, t: Arena, tf: Arena, n': Arena, z: nat, fields: seq<Addr>)
    requires HeapOk(mem, n, nf, t, tf) && MIN_OBJECT <= z && Bumped(n, n', WithPadding(z))
    requires forall x :: x in fields ==> x in mem || External(n, nf, t, tf, x)
    ensures n.free !in mem && HeapOk(mem[n.free := Obj(z, fields)], n', nf, t, tf)
  {
    hide HeapTiles, Arena.Aligned, AllocPadding;
    NurseryEndIsUnused(mem, n, nf, t, tf);
    AllocKeepsTiles(mem, n, t, n', z, fields);
  }

  lemma NurseryEndIsUnused(mem: Mem<nat>, n: Arena, nf: Arena, t: Arena, tf: Arena)
    requires Spaces(n, nf, t, tf) && HeapObjects(mem, n, t) && n.free < n.hi
    ensures forall a :: a in mem ==> !(n.free <= a < n.hi)
    ensures n.free !in mem && !(t.lo <= n.free < t.free)
  {
    hide Arena.Aligned;
  }

  lemma AllocKeepsTiles(mem: Mem<nat>, n: Arena, t: Arena, n': Arena, z: nat, fields: seq<Addr>)
    requires HeapTiles(mem, n, t) && 0 < z && n'.lo == n.lo && n'.checkpoint == n.checkpoint && n.checkpoint <= n.free
    requires n'.free == n.free + WithPadding(z) && n'.free <= n.hi
    requires forall a :: a in mem ==> !(n.free <= a < n.hi)
    requires !(t.lo <= n.free < t.free)
    ensures HeapTiles(mem[n.free := Obj(z, fields)], n', t)
  {
    hide AllocPadding;
    var c: Cell<nat> := Obj(z, fields);
    TiledAppend(mem, n.checkpoint, n.free, c);
    TiledFrame(mem, mem[n.free := c], n.lo, n.checkpoint);
    TiledFrame(mem, mem[n.free := c], t.lo, t.free);
  }

  lemma NewAddressIsUnseen(mem: Mem<nat>, n: Arena, nf: Arena, t: Arena, tf: Arena)
    requires HeapOk(mem, n, nf, t, tf) && n.free < n.hi
    ensures n.free !in mem
    ensures forall a, i :: a in mem && mem[a].Obj? && 0 <= i < |mem[a].fields| ==> mem[a].fields[i] != n.free
  {
    hide HeapTiles, Arena.Aligned;
    NurseryEndIsUnused(mem, n, nf, t, tf);
  }

  /** A new object is in N0: its fields cross nothing, and it is where no remembered pointer leads. */
  lemma AllocKeepsLog(
      mem: Mem<nat>, n: Arena, nf: Arena, t: Arena, tf: Arena, n': Arena, log: seq<Entry>, z: nat, fields: seq<Addr>)
    requires Spaces(n, nf, t, tf) && Bumped(n, n', WithPadding(z)) && n.free < n.hi && n.free !in mem
    requires LogOk(mem, n, t, log)
    ensures LogOk(mem[n.free := Obj(z, fields)], n', t, log)
    ensures Remembered(mem, n, t, log) ==> Remembered(mem[n.free := Obj(z, fields)], n', t, log)
  {
    hide Arena.Aligned, AllocPadding;
    var mem' := mem[n.free := Obj(z, fields)];
    assert !t.Contains(n.free) && !n'.IsBeforeCheckpoint(n.free);
    hide Spaces, Arena.Ok;
    forall en | en in log ensures EntryOk(mem', n', t, en) { assert EntryOk(mem, n, t, en); }
    if Remembered(mem, n, t, log) {
      forall a, j | a in mem' && mem'[a].Obj? && 0 <= j < |mem'[a].fields| && CrossesGenerations(mem', n', t, a, j)
        ensures Entry(a, j) in log
      {
        assert a != n.free;
        assert CrossesGenerations(mem, n, t, a, j);
      }
    }
  }

  /**
   * Moving the nursery's checkpoint up to its free pointer keeps the heap, and turns N1 -> N0 pointers
   * into N1 -> N1 pointers.
   */
  lemma CheckpointKeepsHeap(
      mem: Mem<nat>, n: Arena, nf: Arena, t: Arena, tf: Arena, n': Arena, t': Arena, log: seq<Entry>)
    requires HeapOk(mem, n, nf, t, tf) && Checkpointed(n, n') && Checkpointed(t, t') && LogOk(mem, n, t, log)
    ensures HeapOk(mem, n', nf, t', tf) && LogOk(mem, n', t', log)
    ensures Remembered(mem, n, t, log) ==> Remembered(mem, n', t', log)
  {
    hide Arena.Aligned, Tiled, HeapObjects, HeapPointers;
    TiledJoin(mem, n.lo, n.checkpoint, n.free);
    NothingTiled(mem, n.free);
    CheckpointKeepsObjects(mem, n, nf, t, tf, n', t');
    forall en | en in log ensures EntryOk(mem, n', t', en) { assert EntryOk(mem, n, t, en); }
    if Remembered(mem, n, t, log) { CheckpointKeepsRemembered(mem, n, nf, t, tf, n', t', log); }
  }

  lemma CheckpointKeepsObjects(mem: Mem<nat>, n: Arena, nf: Arena, t: Arena, tf: Arena, n': Arena, t': Arena)
    requires HeapObjects(mem, n, t) && HeapPointers(mem, n, nf, t, tf) && Checkpointed(n, n') && Checkpointed(t, t')
    ensures HeapObjects(mem, n', t') && HeapPointers(mem, n', nf, t', tf)
  {
    hide Arena.Ok;
  }

  lemma CheckpointKeepsRemembered(
      mem: Mem<nat>, n: Arena, nf: Arena, t: Arena, tf: Arena, n': Arena, t': Arena, log: seq<Entry>)
    requires Spaces(n, nf, t, tf) && HeapObjects(mem, n, t) && HeapPointers(mem, n, nf, t, tf)
    requires Checkpointed(n, n') && Checkpointed(t, t') && Remembered(mem, n, t, log)
    ensures Remembered(mem, n', t', log)
  {
    hide Arena.Aligned;
    forall a, j | a in mem && mem[a].Obj? && 0 <= j < |mem[a].fields| && CrossesGenerations(mem, n', t', a, j)
      ensures Entry(a, j) in log
    {
      assert mem[a].fields[j] in mem;
      assert CrossesGenerations(mem, n, t, a, j);
    }
  }

  lemma LogOfNothing(mem: Mem<nat>, n: Arena, t: Arena)
    ensures LogOk(mem, n, t, [])
  {
  }

  // ---------------------------------------------------------------------------
  // The order of the log does not matter
  // ---------------------------------------------------------------------------

  /** No pointer of the heap leads into the part of the nursery where the survivors will be, unless to a survivor. */
  ghost predicate FieldsKnown(mem0: Mem<nat>, n': Arena) {
    forall a, i :: a in mem0 && mem0[a].Obj? && 0 <= i < |mem0[a].fields| ==>
      mem0[a].fields[i] in mem0 || !n'.Contains(mem0[a].fields[i])
  }

  /** After a collection an entry is kept for exactly the survivors that are tenured while the field's target is not. */
  lemma KeptEntries(e: Evac<nat>, n0: Arena, n': Arena, t': Arena, log: seq<Entry>, a: Addr, i: nat)
    requires Finished(e) && Headers(e) && PlacedByAge(e, n0, n', t') && FieldsKnown(e.mem0, n')
    requires LogIsExact(Remaining(e), n', t', log)
    requires Survives(e, a) && e.mem0[a].Obj? && i < |e.mem0[a].fields|
    ensures Entry(Phi(e.mem, a), i) in log <==>
      !IsN0(n0, a) && e.mem0[a].fields[i] in e.mem0 && IsN0(n0, e.mem0[a].fields[i])
  {
    hide PlacedByAge, FieldsKnown, Arena.Ok;
    var x, d := e.mem0[a].fields[i], Phi(e.mem, a);
    ForwardingIsHomomorphism(e, a, i);
    PlaceOf(e, n0, n', t', a);
    if x in e.mem0 {
      TargetSurvives(e, a, i);
      PlaceOf(e, n0, n', t', x);
    } else {
      PhiOfOutside(e, x);
      assert !n'.Contains(x) by { assert FieldsKnown(e.mem0, n'); FieldIsKnownOutside(e.mem0, n', a, i); }
    }
    hide Finished, Headers;
    assert d in Remaining(e) && Remaining(e)[d] == e.mem[d];
    assert CrossesGenerations(Remaining(e), n', t', d, i) <==> !IsN0(n0, a) && x in e.mem0 && IsN0(n0, x);
  }

  lemma PlaceOf(e: Evac<nat>, n0: Arena, n': Arena, t': Arena, x: Addr)
    requires PlacedByAge(e, n0, n', t') && Survives(e, x)
    ensures var y := Phi(e.mem, x);
      if IsN0(n0, x) then n'.Contains(y) && n'.IsBeforeCheckpoint(y) && !t'.Contains(y)
      else t'.Contains(y) && !n'.Contains(y)
  {
  }

  lemma FieldIsKnownOutside(mem0: Mem<nat>, n': Arena, a: Addr, i: nat)
    requires FieldsKnown(mem0, n') && a in mem0 && mem0[a].Obj? && i < |mem0[a].fields| && mem0[a].fields[i] !in mem0
    ensures !n'.Contains(mem0[a].fields[i])
  {
  }

  lemma TargetSurvives(e: Evac<nat>, a: Addr, i: nat)
    requires Finished(e) && Survives(e, a) && e.mem0[a].Obj? && i < |e.mem0[a].fields| && e.mem0[a].fields[i] in e.mem0
    ensures Survives(e, e.mem0[a].fields[i])
  {
    ForwardingIsHomomorphism(e, a, i);
    if e.mem0[a].fields[i] in e.from { assert Accounted(e, e.mem0[a].fields[i]); }
  }

  /**
   * Two collections of the same heap with the same roots, whatever the order,
   * duplicates or stale entries of the logs they worked through: they rescue the
   * same objects and, up to where these were moved, keep the same entries.
   */
  lemma LogOrderDoesNotMatter(
      e1: Evac<nat>, e2: Evac<nat>, full: bool, mem0: Mem<nat>, n0: Arena, t0: Arena, vars0: map<nat, Addr>,
      rootv: seq<nat>,
      mem1: Mem<nat>, vars1: map<nat, Addr>, n1: Arena, t1: Arena, log1: seq<Entry>,
      mem2: Mem<nat>, vars2: map<nat, Addr>, n2: Arena, t2: Arena, log2: seq<Entry>)
    requires Collects(e1, full, mem0, n0, t0, vars0, rootv, mem1, vars1)
    requires Collects(e2, full, mem0, n0, t0, vars0, rootv, mem2, vars2)
    requires PlacedByAge(e1, n0, n1, t1) && FieldsKnown(mem0, n1) && LogIsExact(mem1, n1, t1, log1)
    requires PlacedByAge(e2, n0, n2, t2) && FieldsKnown(mem0, n2) && LogIsExact(mem2, n2, t2, log2)
    ensures forall a :: a in mem0 ==> (Survives(e1, a) <==> Survives(e2, a))
    ensures forall a, i: nat :: a in mem0 && Survives(e1, a) && mem0[a].Obj? && i < |mem0[a].fields| ==>
      (Entry(Phi(e1.mem, a), i) in log1 <==> Entry(Phi(e2.mem, a), i) in log2)
  {
    hide Finished, Headers, Redirected, PlacedByAge, FieldsKnown, LogIsExact, Live, Phi, OldFields, RootSet;
    SameFrom(e1, e2, n0, t0, full);
    forall a | a in mem0 ensures Survives(e1, a) <==> Survives(e2, a) {
      if a in e1.from { CopiedIffLive(e1, a); CopiedIffLive(e2, a); }
    }
    forall a, i: nat | a in mem0 && Survives(e1, a) && mem0[a].Obj? && i < |mem0[a].fields|
      ensures Entry(Phi(e1.mem, a), i) in log1 <==> Entry(Phi(e2.mem, a), i) in log2
    {
      KeptEntries(e1, n0, n1, t1, log1, a, i);
      KeptEntries(e2, n0, n2, t2, log2, a, i);
    }
  }

  lemma SameFrom(e1: Evac<nat>, e2: Evac<nat>, n0: Arena, t0: Arena, full: bool)
    requires Finished(e1) && Finished(e2) && e1.mem0 == e2.mem0
    requires forall a :: a in e1.mem0 ==> (a in e1.from <==> n0.Contains(a) || (full && t0.Contains(a)))
    requires forall a :: a in e2.mem0 ==> (a in e2.from <==> n0.Contains(a) || (full && t0.Contains(a)))
    ensures e1.from == e2.from
  {
    forall a ensures a in e1.from <==> a in e2.from {
      if a in e1.from { assert Accounted(e1, a); }
      if a in e2.from { assert Accounted(e2, a); }
    }
  }
}
