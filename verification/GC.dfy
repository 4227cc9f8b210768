/**
 * The two-generation copying collector: allocation, the write barrier with its
 * mutation log, evacuation, and the incremental and full collections.
 */
module Collector {
  import opened Evacuation
  import opened Layout
  import opened Arenas
  import opened Generations
  import opened Cycles

  /** Two ranges, given by address and size, do not overlap. */
  predicate Apart(a: nat, y: nat, b: nat, z: nat) { a + y <= b || b + z <= a }

  predicate OnHugePage(a: nat) { 0 < a && a % 0x20_0000 == 0 }

  /** Reserves z bytes and commits the first need of them. */
  method MakeArena(base: nat, z: nat, need: nat) returns (a: ArenaAlloc)
    requires OnHugePage(base) && 0 < need <= z
    ensures fresh(a) && a.View().Ok() && a.free == a.checkpoint == a.lo == base && a.hi == base + AlignLub(z)
  {
    hide Arena.Aligned, AlignLub;
    a := new ArenaAlloc(base, z);
    var ok := a.Expand(need);
  }

  class GC {
    const incrThreshold: nat
    const fullThreshold: nat
    const allowIncremental: bool

    // the spaces; to- and from-space exchange roles at each collection
    var nTo: ArenaAlloc
    var nFrom: ArenaAlloc
    var tTo: ArenaAlloc
    var tFrom: ArenaAlloc

    // memory of the four spaces, by object start
    var mem: Mem<nat>

    // the application's pointer variables, and which of them are registered as roots
    var vars: map<nat, Addr>
    var rootv: seq<nat>

    var mlogTo: seq<Entry>
    var mlogFrom: seq<Entry>
    var mlogDefer: seq<Entry>

    var inProgress: bool
    var fullMove: bool
    var gcEnabled: int
    var incrPending: bool
    var fullPending: bool

    var totalPromoted: nat
    var totalPromotedSab: nat

    // the collection in progress
    ghost var mem0: Mem<nat>
    ghost var from: set<Addr>
    ghost var starts: set<Addr>
    ghost var src: map<Addr, Addr>
    ghost var cycle: Cycle

    /**
     * Reserves two spaces of each generation, at addresses the operating system
     * chose, and commits the part of each that is used before its first collection.
     */
    constructor (incr: nat, full: nat, allow: bool, nurseryZ: nat, tenuredZ: nat, na: nat, nb: nat, ta: nat, tb: nat)
      requires 0 < incr <= nurseryZ && 0 < full && nurseryZ + full <= tenuredZ
      requires OnHugePage(na) && OnHugePage(nb) && OnHugePage(ta) && OnHugePage(tb)
      requires var n, t := AlignLub(nurseryZ), AlignLub(tenuredZ);
        && Apart(na, n, nb, n) && Apart(na, n, ta, t) && Apart(na, n, tb, t)
        && Apart(nb, n, ta, t) && Apart(nb, n, tb, t) && Apart(ta, t, tb, t)
      ensures incrThreshold == incr && fullThreshold == full && allowIncremental == allow
      ensures Valid() && fresh(nTo) && fresh(nFrom) && fresh(tTo) && fresh(tFrom)
      ensures mem == map[] && vars == map[] && rootv == [] && mlogTo == [] && gcEnabled == 0
      ensures nTo.lo == nTo.free == nTo.checkpoint == nb && nTo.hi == nb + AlignLub(nurseryZ)
      ensures tTo.lo == tTo.free == tTo.checkpoint == tb && tTo.hi == tb + AlignLub(tenuredZ)
      ensures !incrPending && !fullPending
    {
      hide AlignLub, HeapOk, LogOk, Remembered, External, Spaces, Arena.Ok;
      incrThreshold, fullThreshold, allowIncremental := incr, full, allow;
      var a := MakeArena(na, nurseryZ, incr);
      var b := MakeArena(nb, nurseryZ, incr);
      var c := MakeArena(ta, tenuredZ, full);
      var d := MakeArena(tb, tenuredZ, full);
      nFrom, nTo, tFrom, tTo := a, b, c, d;
      mem, vars, rootv := map[], map[], [];
      mlogTo, mlogFrom, mlogDefer := [], [], [];
      inProgress, fullMove, gcEnabled, incrPending, fullPending := false, false, 0, false, false;
      totalPromoted, totalPromotedSab := 0, 0;
      new;
      SpacesAreApart(nTo.View(), nFrom.View(), tTo.View(), tFrom.View());
      EmptyHeapIsOk(nTo.View(), nFrom.View(), tTo.View(), tFrom.View());
    }

    /** Every registered root holds a pointer the collector understands. */
    ghost predicate RootsOk()
      reads this, nTo, nFrom, tTo, tFrom
    {
      forall r :: r in rootv ==> r in vars && PointerOk(vars[r])
    }

    ghost predicate PointerOk(x: Addr)
      reads this, nTo, nFrom, tTo, tFrom
    {
      x in mem || External(nTo.View(), nFrom.View(), tTo.View(), tFrom.View(), x)
    }

    /** The address lies in one of the four spaces. */
    ghost predicate Owns(x: Addr)
      reads this, nTo, nFrom, tTo, tFrom
    {
      !External(nTo.View(), nFrom.View(), tTo.View(), tFrom.View(), x)
    }

    /** The invariant between collections. */
    ghost predicate Valid()
      reads this, nTo, nFrom, tTo, tFrom
    {
      && Shape() && !inProgress
      && HeapOk(mem, nTo.View(), nFrom.View(), tTo.View(), tFrom.View())
      && mlogFrom == [] && mlogDefer == []
      && LogOk(mem, nTo.View(), tTo.View(), mlogTo)
      && (if allowIncremental then Remembered(mem, nTo.View(), tTo.View(), mlogTo) else mlogTo == [])
      && RootsOk()
    }

    ghost function E(): Evac<nat>
      reads this
    {
      Evac(mem0, mem, from, starts, src)
    }

    ghost predicate Shape()
      reads this
    {
      nTo != nFrom && nTo != tTo && nTo != tFrom && nFrom != tTo && nFrom != tFrom && tTo != tFrom
    }

    /** The invariant while a collection runs. */
    ghost predicate Busy()
      reads this, nTo, nFrom, tTo, tFrom
    {
      && Shape() && inProgress
      && fullMove == cycle.full && nFrom.View() == cycle.nf && tFrom.View() == cycle.tf
      && Collecting(E(), cycle, nTo.View(), tTo.View())
      && totalPromoted == totalPromotedSab + Bytes(mem0, CopiedSet(E()), cycle.nf.lo, cycle.nf.checkpoint)
    }

    /** x is a pointer the collection may meet: an object of the heap, or nothing the collector owns. */
    ghost predicate Meets(x: Addr)
      reads this, nTo, tTo
    {
      Known(E(), cycle, nTo.View(), tTo.View(), x)
    }

    /** Since the earlier state, objects were copied and nothing else happened to the to-spaces. */
    twostate predicate Progressed()
      reads this, nTo, tTo
    {
      Progress(old(E()), old(nTo.View()), old(tTo.View()), E(), nTo.View(), tTo.View())
    }

    // -------------------------------------------------------------------------
    // Queries on addresses
    // -------------------------------------------------------------------------

    predicate IsForwarded(x: Addr)
      reads this
    {
      x in mem && mem[x].Fwd?
    }

    /** check_owned: during a collection, is x in from-space? */
    predicate CheckOwned(x: Addr)
      reads this, nFrom, tFrom
    {
      nFrom.lo <= x < nFrom.hi || tFrom.lo <= x < tFrom.hi
    }

    /** check_move: an incremental collection leaves tenured objects where they are. */
    predicate CheckMove(x: Addr)
      reads this, tTo
    {
      fullMove || !(tTo.lo <= x < tTo.hi)
    }

    // -------------------------------------------------------------------------
    // Evacuation
    // -------------------------------------------------------------------------

    /** Space for the copy of x: a survivor of its second collection is promoted to tenured space. */
    method AllocGcCopy(z: nat, x: Addr) returns (addr: Addr)
      requires Busy() && x in from && !Copied(E(), x)
      requires x in mem && mem[x].Obj? && z == mem[x].hdr
      modifies nTo`free, nTo`committed, tTo`free, tTo`committed, this`totalPromoted
      ensures x in mem0 && mem0[x].Obj?
      ensures BumpedFor(E(), cycle, x, old(nTo.View()), old(tTo.View()), nTo.View(), tTo.View())
      ensures addr == Destination(cycle, x, old(nTo.View()), old(tTo.View()))
      ensures totalPromoted == old(totalPromoted) + if cycle.nf.IsBeforeCheckpoint(x) then WithPadding(z) else 0
    {
      hide Collecting, Bytes, CopiedSet, InN0, AllocPadding, Arena.Aligned, WithPadding, Copied, Known;
      ghost var n, t := nTo.View(), tTo.View();
      WhereCopied(E(), cycle, n, t, x);
      var ok;
      if tFrom.lo <= x < tFrom.hi {
        ok, addr := tTo.Alloc(z);
        assert nTo.View() == n && Bumped(t, tTo.View(), WithPadding(z));
      } else if nFrom.lo <= x < nFrom.checkpoint {
        ok, addr := tTo.Alloc(z);
        totalPromoted := totalPromoted + WithPadding(z);
        assert nTo.View() == n && Bumped(t, tTo.View(), WithPadding(z));
      } else {
        ok, addr := nTo.Alloc(z);
        assert tTo.View() == t && Bumped(n, nTo.View(), WithPadding(z));
      }
    }

    /** Copies x to to-space and overwrites it with a forwarding pointer, if the collector owns it. */
    method ShallowMove(x: Addr) returns (dest: Addr)
      requires Busy() && Meets(x) && !IsForwarded(x)
      requires x in from ==> Live(mem0, from, starts, x)
      modifies this`mem, this`src, this`totalPromoted, nTo`free, nTo`committed, tTo`free, tTo`committed
      ensures Busy() && Extends(old(E()), E())
      ensures dest == Phi(mem, x) && dest !in from
      ensures Progressed()
      ensures x !in from ==>
        mem == old(mem) && E() == old(E()) && nTo.View() == old(nTo.View()) && tTo.View() == old(tTo.View())
    {
      hide Collecting, Bytes, CopiedSet, InN0, AllocPadding, Live, Arena.Ok, WithPadding, Progress, Known, BumpedFor;
      ghost var e, n, t := E(), nTo.View(), tTo.View();
      FromByAddress(e, cycle, n, t, x);
      if CheckOwned(x) {
        WhereCopied(e, cycle, n, t, x);
        dest := AllocGcCopy(mem[x].hdr, x);
        CopyKeepsCollecting(e, cycle, n, t, x, nTo.View(), tTo.View());
        CopyAddsToCopied(e, cycle, x, dest, mem[x]);
        CopyIsProgress(e, cycle, n, t, x, nTo.View(), tTo.View());
        mem := mem[dest := mem[x]][x := Fwd(dest)];
        src := src[dest := x];
        assert E() == CopyStep(e, x, dest, e.mem[x]);
      } else {
        OutsideStays(e, cycle, n, t, x);
        ProgressIsReflexive(e, n, t);
        dest := x;
      }
    }

    /** Where a pointer to x should point from now on; moves x if it has not moved yet. */
    method Forward(x: Addr) returns (r: Addr)
      requires Busy() && Meets(x)
      requires x in from ==> Live(mem0, from, starts, x)
      modifies this`mem, this`src, this`totalPromoted, nTo`free, nTo`committed, tTo`free, tTo`committed
      ensures Busy() && Extends(old(E()), E())
      ensures r == Phi(mem, x) && r !in from
      ensures Progressed()
    {
      hide Collecting, Bytes, CopiedSet, InN0, AllocPadding, Live, Arena.Aligned, WithPadding, Known;
      ghost var e, n, t := E(), nTo.View(), tTo.View();
      if x == NULL {
        StaysPut(e, cycle, n, t, x);
        OutsideStays(e, cycle, n, t, x);
        return x;
      }
      if IsForwarded(x) {
        ForwardedMeans(e, cycle, n, t, x);
        return mem[x].dest;
      }
      if CheckMove(x) {
        r := ShallowMove(x);
        r := if IsForwarded(x) then mem[x].dest else x;
      } else {
        StaysPut(e, cycle, n, t, x);
        r := x;
      }
    }

    /** Forwards field i of the object at d, which lies in to-space. */
    method ForwardInplace(d: Addr, i: nat)
      requires Busy() && d in mem && d !in from && mem[d].Obj? && i < |mem[d].fields|
      modifies this`mem, this`src, this`totalPromoted, nTo`free, nTo`committed, tTo`free, tTo`committed
      ensures Busy() && ExtendsBut(old(E()), E(), d)
      ensures d in mem && mem[d].Obj?
      ensures mem[d] == old(mem[d]).(fields := old(mem[d].fields)[i := Phi(mem, old(mem[d].fields[i]))])
      ensures mem[d].fields[i] !in from
      ensures Progressed()
    {
      hide Collecting, Bytes, CopiedSet, InN0, Live, Arena.Ok, WithPadding, Known, Progress, Phi, ExtendsBut;
      ghost var e, n, t := E(), nTo.View(), tTo.View();
      FieldIsReady(e, cycle, n, t, d, i);
      var r := Forward(mem[d].fields[i]);
      FieldForwarded(e, n, t, E(), cycle, nTo.View(), tTo.View(), d, i, r);
      ghost var e' := SetField(E(), d, i, r);
      mem := mem[d := mem[d].(fields := mem[d].fields[i := r])];
      assert E() == e';
    }

    /** Forwards every field of the object at d, which lies in to-space. Returns its size. */
    method ForwardChildren(d: Addr) returns (z: nat)
      requires Busy() && d in mem && d !in from
      modifies this`mem, this`src, this`totalPromoted, nTo`free, nTo`committed, tTo`free, tTo`committed
      ensures Busy() && ExtendsBut(old(E()), E(), d)
      ensures d in mem && mem[d].Obj? && z == mem[d].hdr && MIN_OBJECT <= z && Clean(E(), d)
      ensures Progressed()
    {
      hide Collecting, Bytes, CopiedSet, Phi, Progress;
      ghost var e0, n0, t0 := E(), nTo.View(), tTo.View();
      ObjectOutside(e0, cycle, n0, t0, d);
      ProgressIsReflexive(e0, n0, t0);
      var i := 0;
      while i < |mem[d].fields|
        invariant Busy() && ExtendsBut(old(E()), E(), d)
        invariant d in mem && mem[d].Obj? && 0 <= i <= |mem[d].fields|
        invariant forall j :: 0 <= j < i ==> mem[d].fields[j] !in from
        invariant Progressed()
        decreases |mem[d].fields| - i
      {
        ghost var e, n, t := E(), nTo.View(), tTo.View();
        ForwardInplace(d, i);
        ProgressTrans(e0, n0, t0, e, n, t, E(), nTo.View(), tTo.View());
        i := i + 1;
      }
      ObjectOutside(E(), cycle, nTo.View(), tTo.View(), d);
      z := mem[d].hdr;
    }

    ghost predicate Scanning(base: Evac<nat>, gn: nat, gt: nat)
      reads this, nTo, nFrom, tTo, tFrom
    {
      Busy() && ScanState(base, E(), cycle, nTo.View(), tTo.View(), gn, gt) && gn <= nTo.free && gt <= tTo.free
    }

    ghost function GrayBytes(gn: int, gt: int): int
      reads this, nTo, tTo
    {
      nTo.free - gn + tTo.free - gt
    }

    /**
     * Fewer objects are left to copy than before, or as many and no more gray bytes, less those of
     * each object scanned.
     */
    ghost predicate Smaller(before: set<Addr>, size: int, gn: int, gt: int, work: int)
      reads this, nTo, tTo
    {
      Unmoved(E()) < before || (Unmoved(E()) == before && GrayBytes(gn, gt) + work <= size)
    }

    /** Scans the gray object at the nursery's gray pointer. */
    method ScanNursery(ghost base: Evac<nat>, gn: nat, gt: nat) returns (g: nat)
      requires Scanning(base, gn, gt) && gn < nTo.free
      modifies this`mem, this`src, this`totalPromoted, nTo`free, nTo`committed, tTo`free, tTo`committed
      ensures Scanning(base, g, gt) && gn < g <= nTo.free && Progressed()
    {
      hide Collecting, Bytes, Unmoved, CopiedSet, Arena.Aligned, ScanState, ExtendsBut, Clean, AllocPadding;
      ghost var e, n, t := E(), nTo.View(), tTo.View();
      ScanHead(base, e, cycle, n, t, gn, gt, gn);
      var z := ForwardChildren(gn);
      g := gn + WithPadding(z);
      ScanNurseryStep(base, cycle, e, n, t, E(), nTo.View(), tTo.View(), gn, gt);
    }

    /** Scans the gray object at the tenured gray pointer. */
    method ScanTenured(ghost base: Evac<nat>, gn: nat, gt: nat) returns (g: nat)
      requires Scanning(base, gn, gt) && gt < tTo.free
      modifies this`mem, this`src, this`totalPromoted, nTo`free, nTo`committed, tTo`free, tTo`committed
      ensures Scanning(base, gn, g) && gt < g <= tTo.free && Progressed()
    {
      hide Collecting, Bytes, Unmoved, CopiedSet, Arena.Aligned, ScanState, ExtendsBut, Clean, AllocPadding;
      ghost var e, n, t := E(), nTo.View(), tTo.View();
      ScanHead(base, e, cycle, n, t, gn, gt, gt);
      var z := ForwardChildren(gt);
      g := gt + WithPadding(z);
      ScanTenuredStep(base, cycle, e, n, t, E(), nTo.View(), tTo.View(), gn, gt);
    }

    /** Scans gray objects of both generations until none is left, however many the scanning itself adds. */
    method ScanGray(ghost base: Evac<nat>, gn0: nat, gt0: nat)
      requires Scanning(base, gn0, gt0)
      modifies this`mem, this`src, this`totalPromoted, nTo`free, nTo`committed, tTo`free, tTo`committed
      ensures Busy() && Extends(base, E()) && White(E()) && Progressed()
    {
      hide Collecting, Bytes, CopiedSet, ScanState, Progress, Unmoved, GC.Busy;
      var gn: nat, gt: nat := gn0, gt0;
      var work := 1;
      ProgressIsReflexive(E(), nTo.View(), tTo.View());
      while work > 0
        invariant Scanning(base, gn, gt) && Progressed()
        invariant work == 0 ==> gn == nTo.free && gt == tTo.free
        decreases Unmoved(E()), GrayBytes(gn, gt), work
      {
        work := 0;
        ghost var before, size := Unmoved(E()), GrayBytes(gn, gt);
        while gn < nTo.free
          invariant Scanning(base, gn, gt) && Progressed()
          invariant Smaller(before, size, gn, gt, work)
          decreases Unmoved(E()), GrayBytes(gn, gt)
        {
          ghost var e, n, t := E(), nTo.View(), tTo.View();
          gn := ScanNursery(base, gn, gt);
          ProgressShrinks(e, n, t, E(), nTo.View(), tTo.View());
          ProgressTrans(old(E()), old(nTo.View()), old(tTo.View()), e, n, t, E(), nTo.View(), tTo.View());
          work := work + 1;
        }
        while gt < tTo.free
          invariant Scanning(base, gn, gt) && Progressed()
          invariant Smaller(before, size, gn, gt, work)
          invariant work == 0 ==> gn == nTo.free
          decreases Unmoved(E()), GrayBytes(gn, gt)
        {
          ghost var e, n, t := E(), nTo.View(), tTo.View();
          gt := ScanTenured(base, gn, gt);
          ProgressShrinks(e, n, t, E(), nTo.View(), tTo.View());
          ProgressTrans(old(E()), old(nTo.View()), old(tTo.View()), e, n, t, E(), nTo.View(), tTo.View());
          work := work + 1;
        }
      }
      ScanEnds(base, E(), cycle, nTo.View(), tTo.View());
    }

    /**
     * Evacuates x and everything reachable from it. Objects below the gray
     * pointers are white; the scan ends when both have caught up.
     */
    method DeepMove(x: Addr) returns (r: Addr)
      requires Busy() && Meets(x) && White(E())
      requires x in from ==> Live(mem0, from, starts, x)
      modifies this`mem, this`src, this`totalPromoted, nTo`free, nTo`committed, tTo`free, tTo`committed
      ensures Busy() && Extends(old(E()), E()) && White(E())
      ensures r == Phi(mem, x) && r !in from
      ensures Progressed()
    {
      hide Collecting, Bytes, CopiedSet, InN0, AllocPadding, Live, Arena.Aligned, WithPadding, Known, Unmoved;
      ghost var e, n, t := E(), nTo.View(), tTo.View();
      if x == NULL {
        StaysPut(e, cycle, n, t, x);
        OutsideStays(e, cycle, n, t, x);
        return NULL;
      }
      if IsForwarded(x) {
        ForwardedMeans(e, cycle, n, t, x);
        return mem[x].dest;
      }
      if !CheckMove(x) {
        StaysPut(e, cycle, n, t, x);
        return x;
      }
      var gn, gt := nTo.free, tTo.free;
      r := ShallowMove(x);
      ghost var e1, n1, t1 := E(), nTo.View(), tTo.View();
      ScanBegins(e, cycle, n, t, e1, n1, t1);
      ScanGray(e, gn, gt);
      ProgressTrans(e, n, t, e1, n1, t1, E(), nTo.View(), tTo.View());
      ResultStays(e1, cycle, n1, t1, E(), nTo.View(), tTo.View(), x);
    }

    // -------------------------------------------------------------------------
    // Roots
    // -------------------------------------------------------------------------

    /**
     * Root variable r, which held x0 when the collection began, is as it should be after the first k
     * registrations are done.
     */
    ghost predicate RootDone(vars0: map<nat, Addr>, k: nat, r: nat)
      requires k <= |rootv|
      reads this
    {
      r in vars && r in vars0 &&
      if r in rootv[..k] then vars[r] == Phi(mem, vars0[r]) && vars[r] !in from else vars[r] == vars0[r]
    }

    /** Evacuates what the registered roots point to, and redirects the roots. */
    method CopyGlobals()
      requires Busy() && White(E())
      requires forall r :: r in rootv ==> r in vars && vars[r] in starts
      modifies this`vars, this`mem, this`src, this`totalPromoted, nTo`free, nTo`committed, tTo`free, tTo`committed
      ensures Busy() && White(E()) && Extends(old(E()), E()) && Progressed()
      ensures vars.Keys == old(vars.Keys)
      ensures forall r :: r in vars ==> RootDone(old(vars), |rootv|, r)
    {
      hide Collecting, Bytes, CopiedSet, White, Live, Progress, Known, Extends, Phi;
      ghost var e0, n0, t0 := E(), nTo.View(), tTo.View();
      ProgressIsReflexive(e0, n0, t0);
      ExtendsIsReflexive(e0);
      var k := 0;
      while k < |rootv|
        invariant 0 <= k <= |rootv|
        invariant Busy() && White(E()) && Extends(e0, E()) && Progressed()
        invariant vars.Keys == old(vars.Keys)
        invariant forall r :: r in vars ==> RootDone(old(vars), k, r)
      {
        ghost var e, n, t := E(), nTo.View(), tTo.View();
        CopyObject(rootv[k], old(vars));
        ProgressTrans(e0, n0, t0, e, n, t, E(), nTo.View(), tTo.View());
        ExtendsTrans(e0, e, E());
        k := k + 1;
      }
    }

    method CopyObject(r: nat, ghost vars0: map<nat, Addr>)
      requires Busy() && White(E())
      requires r in vars && r in vars0 && vars0[r] in starts
      requires vars[r] == vars0[r] || (vars[r] == Phi(mem, vars0[r]) && vars[r] !in from)
      modifies this`vars, this`mem, this`src, this`totalPromoted, nTo`free, nTo`committed, tTo`free, tTo`committed
      ensures Busy() && White(E()) && Extends(old(E()), E()) && Progressed()
      ensures r in vars && vars == old(vars)[r := vars[r]] && vars[r] == Phi(mem, vars0[r]) && vars[r] !in from
      ensures forall x :: Phi(old(mem), x) !in from ==> Phi(mem, x) == Phi(old(mem), x)
    {
      hide Collecting, Bytes, CopiedSet, White, Live, Progress, Known, Extends, Phi;
      ghost var e, n, t := E(), nTo.View(), tTo.View();
      var x := vars[r];
      StartIsReady(e, cycle, n, t, vars0[r]);
      ProgressIsReflexive(e, n, t);
      ExtendsIsReflexive(e);
      if nTo.lo <= x < nTo.hi || (fullMove && tTo.lo <= x < tTo.hi) {
        // already in to-space
        StaysPut(e, cycle, n, t, x);
        OutsideStays(e, cycle, n, t, x);
      } else if !fullMove && tTo.lo <= x < tTo.hi {
        // an incremental collection leaves tenured objects alone
        StaysPut(e, cycle, n, t, x);
        OutsideStays(e, cycle, n, t, x);
      } else {
        var to := DeepMove(x);
        if x !in from { OutsideStays(E(), cycle, nTo.View(), tTo.View(), x); OutsideStays(e, cycle, n, t, x); }
        vars := vars[r := to];
      }
      forall y | Phi(e.mem, y) !in e.from ensures Phi(mem, y) == Phi(e.mem, y) {
        ResultStays(e, cycle, n, t, E(), nTo.View(), tTo.View(), y);
      }
    }

    // -------------------------------------------------------------------------
    // The mutation log
    // -------------------------------------------------------------------------

    ghost predicate Logging()
      reads this, nTo, nFrom, tTo, tFrom
    {
      Busy() && LogState(E(), nTo.View(), tTo.View(), mlogTo)
    }

    /** The invariant of the evacuation does not depend on the logs. */
    twostate lemma LogsDoNotMatter()
      requires old(Busy()) && nTo.View() == old(nTo.View()) && tTo.View() == old(tTo.View())
      requires unchanged(`mem0, `mem, `from, `starts, `src, `cycle, `inProgress, `fullMove, `totalPromoted,
        `totalPromotedSab)
      requires unchanged(`nTo, `nFrom, `tTo, `tFrom) && nFrom.View() == old(nFrom.View())
      requires tFrom.View() == old(tFrom.View())
      ensures Busy()
    {
      hide Collecting, Bytes, CopiedSet;
    }

    /**
     * The parent's field is redirected to where its child has moved; the entry is kept if it still
     * crosses generations.
     */
    method FixupParent(en: Entry)
      requires Logging() && Logged(mem0, cycle, en) && en.parent !in from
      requires en.parent in mem && mem[en.parent].Obj? && en.slot < |mem[en.parent].fields|
      requires IsForwarded(mem[en.parent].fields[en.slot])
      modifies this`mem, this`mlogTo
      ensures Logging() && Progressed()
      ensures Settled(E(), nTo.View(), mlogTo, en)
      ensures FixedOnly(old(E()), E(), en.parent, en.slot) && old(mlogTo) <= mlogTo
      ensures CopiedSet(E()) == old(CopiedSet(E()))
    {
      hide Collecting, Bytes, CopiedSet, LogState, Progress, Settled, FixedOnly;
      ghost var e, n, t := E(), nTo.View(), tTo.View();
      var childTo := mem[mem[en.parent].fields[en.slot]].dest;
      ForwardedMeans(e, cycle, n, t, mem[en.parent].fields[en.slot]);
      SettleFixed(e, cycle, n, t, mlogTo, en, childTo);
      FixKeepsCopied(e, en.parent, en.slot, childTo);
      ProgressIsReflexive(e, n, t);
      FixIsProgress(e, n, t, e, n, t, en.parent, en.slot, childTo);
      mlogTo := Appended(mlogTo, nTo.lo <= childTo < nTo.hi, en);
      mem := mem[en.parent := mem[en.parent].(fields := mem[en.parent].fields[en.slot := childTo])];
    }

    /**
     * An entry whose parent is tenured and does not move: its child survives, is
     * rescued if nothing else has copied it, and the field is redirected.
     */
    method ForwardTenuredEntry(en: Entry) returns (rescue: nat)
      requires Logging() && !fullMove
      requires Logged(mem0, cycle, en) && en.parent !in from
      modifies this`mem, this`src, this`totalPromoted, this`mlogTo, nTo`free, nTo`committed, tTo`free, tTo`committed
      ensures Logging() && Progressed()
      ensures Settled(E(), nTo.View(), mlogTo, en)
      ensures FixedOnly(old(E()), E(), en.parent, en.slot) && old(mlogTo) <= mlogTo
      ensures rescue == 0 ==> CopiedSet(E()) == old(CopiedSet(E()))
    {
      hide Collecting, Bytes, CopiedSet, OldKept, White, Live, Progress, Known, Settled, FixedOnly, KeepOk, Clean;
      ghost var e, n, t := E(), nTo.View(), tTo.View();
      rescue := 0;
      TenuredEntryIsReady(e, cycle, n, t, en);
      ProgressIsReflexive(e, n, t);
      ExtendsIsReflexive(e);
      var child := mem[en.parent].fields[en.slot];
      if child != NULL {
        if !IsForwarded(child) {
          FromByAddress(e, cycle, n, t, child);
          if CheckOwned(child) {
            rescue := rescue + 1;
            var childTo := DeepMove(child);
          }
        }
        assert child in from ==> IsForwarded(child);
      } else {
        StaysPut(e, cycle, n, t, child);
      }
      ghost var e1, n1, t1 := E(), nTo.View(), tTo.View();
      assert mem[en.parent] == e.mem[en.parent] && Logged(mem0, cycle, en);
      hide Extends, LogState, Logged;
      LogStateExtends(e, cycle, n, t, mlogTo, e1, n1, t1);
      if child != NULL && IsForwarded(child) {
        FixupParent(en);
        ProgressTrans(e, n, t, e1, n1, t1, E(), nTo.View(), tTo.View());
      } else {
        SettleUnchanged(e1, cycle, n1, t1, mlogTo, en);
      }
      ExtendsThenFixed(e, e1, E(), en.parent, en.slot);
    }

    /** The parent of an entry has moved to tenured space: the entry follows it if it still crosses generations. */
    method FollowParent(en: Entry)
      requires Logging() && Logged(mem0, cycle, en) && en.parent in from && IsForwarded(en.parent)
      modifies this`mlogTo
      ensures Logging() && Settled(E(), nTo.View(), mlogTo, en) && old(mlogTo) <= mlogTo
    {
      hide Collecting, Bytes, CopiedSet, LogState, Settled;
      SettleMoved(E(), cycle, nTo.View(), tTo.View(), mlogTo, en);
      var parentTo := mem[en.parent].dest;
      var childTo := mem[parentTo].fields[en.slot];
      mlogTo := Appended(mlogTo, nTo.lo <= childTo < nTo.hi, Entry(parentTo, en.slot));
    }

    /**
     * Entry k of the incoming log: settled, or deferred because its parent may be garbage. Returns the
     * number of rescues so far.
     */
    method ForwardEntry(k: nat, rescue: nat) returns (r: nat)
      requires Logging() && !fullMove && AllLogged(mem0, cycle, mlogFrom) && k < |mlogFrom|
      requires Pass(E(), nTo.View(), mlogTo, mlogDefer, mlogFrom, k, rescue)
      modifies this`mem, this`src, this`totalPromoted, this`mlogTo, this`mlogDefer
      modifies nTo`free, nTo`committed, tTo`free, tTo`committed
      ensures Logging() && Progressed() && old(mlogTo) <= mlogTo
      ensures Pass(E(), nTo.View(), mlogTo, mlogDefer, mlogFrom, k + 1, r)
      ensures mlogFrom[k].parent in from ==> r == rescue && E() == old(E()) && nTo.View() == old(nTo.View())
    {
      hide Collecting, Bytes, CopiedSet, Settled, Progress, Pass, FixedOnly, Logged, White, KeepOk, Forwards;
      var en := mlogFrom[k];
      ghost var e, n, t, to := E(), nTo.View(), tTo.View(), mlogTo;
      ParentRegion(e, cycle, n, t, en);
      ProgressIsReflexive(e, n, t);
      if tTo.lo <= en.parent < tTo.hi {
        r := ForwardTenuredEntry(en);
        ForwardsOf(e, cycle, n, t);
        ScanMonotone(e, n, t, E(), nTo.View(), tTo.View());
        PassTenured(e, n, to, mlogDefer, mlogFrom, k, rescue, E(), nTo.View(), mlogTo, rescue + r);
        r := rescue + r;
      } else if IsForwarded(en.parent) {
        FollowParent(en);
        PassMoved(e, n, to, mlogDefer, mlogFrom, k, rescue, mlogTo);
        r := rescue;
      } else {
        PassDefers(e, n, to, mlogDefer, mlogFrom, k, rescue);
        mlogDefer := mlogDefer + [en];
        r := rescue;
      }
    }

    /**
     * One pass of an incremental collection over the incoming log. Entries whose
     * parent may be garbage are deferred; if nothing was rescued, they are garbage.
     */
    method IncrementalPhase()
      requires Logging() && !fullMove && AllLogged(mem0, cycle, mlogFrom) && mlogDefer == []
      modifies this`mem, this`src, this`totalPromoted, this`mlogTo, this`mlogFrom, this`mlogDefer
      modifies nTo`free, nTo`committed, tTo`free, tTo`committed
      ensures Logging() && Progressed() && mlogFrom == [] && old(mlogTo) <= mlogTo
      ensures PassDone(E(), nTo.View(), mlogTo, mlogDefer, old(mlogFrom))
      ensures (forall en :: en in old(mlogFrom) ==> en.parent in from) ==>
        mlogDefer == [] && E() == old(E()) && nTo.View() == old(nTo.View())
    {
      hide Collecting, Bytes, CopiedSet, LogState, Settled, Progress, Pass, PassDone, AllLogged, GC.Busy;
      ghost var e0, n0, t0 := E(), nTo.View(), tTo.View();
      ghost var noTenured := forall en :: en in mlogFrom ==> en.parent in from;
      ProgressIsReflexive(e0, n0, t0);
      var rescue := 0;
      var k := 0;
      PassBegins(E(), nTo.View(), mlogTo, mlogFrom);
      while k < |mlogFrom|
        invariant 0 <= k <= |mlogFrom| && mlogFrom == old(mlogFrom) && 0 <= rescue
        invariant Logging() && Progressed() && old(mlogTo) <= mlogTo
        invariant Pass(E(), nTo.View(), mlogTo, mlogDefer, mlogFrom, k, rescue)
        invariant noTenured ==> rescue == 0 && E() == e0 && nTo.View() == n0
      {
        ghost var e, n, t := E(), nTo.View(), tTo.View();
        assert mlogFrom[k] in mlogFrom;
        rescue := ForwardEntry(k, rescue);
        ProgressTrans(e0, n0, t0, e, n, t, E(), nTo.View(), tTo.View());
        k := k + 1;
      }
      PassEnds(E(), nTo.View(), mlogTo, mlogDefer, mlogFrom, rescue);
      label L: mlogFrom := [];
      if rescue == 0 {
        mlogDefer := [];
      }
      LogsDoNotMatter@L();
    }

    /**
     * Passes over the log until no entry is deferred. Only an entry with a
     * tenured parent can rescue, so two passes are always enough.
     */
    method IncrementalForwardMlog() returns (passes: nat)
      requires Logging() && !fullMove && AllLogged(mem0, cycle, mlogFrom) && mlogDefer == []
      modifies this`mem, this`src, this`totalPromoted, this`mlogTo, this`mlogFrom, this`mlogDefer
      modifies nTo`free, nTo`committed, tTo`free, tTo`committed
      ensures Logging() && Progressed() && mlogFrom == [] && mlogDefer == []
      ensures PassDone(E(), nTo.View(), mlogTo, [], old(mlogFrom))
      ensures passes <= 2
    {
      hide Collecting, Bytes, CopiedSet, LogState, Settled, Progress, Logged, GC.Busy;
      ghost var e0, n0, t0 := E(), nTo.View(), tTo.View();
      IncrementalPhase();
      passes := 1;
      while mlogDefer != []
        invariant Logging() && Progressed() && mlogFrom == []
        invariant PassDone(E(), nTo.View(), mlogTo, mlogDefer, old(mlogFrom))
        invariant mlogDefer == [] || passes == 1
        invariant passes <= 2
        decreases 2 - passes
      {
        ghost var e, n, t, to, defer := E(), nTo.View(), tTo.View(), mlogTo, mlogDefer;
        DeferredAreLogged(mem0, cycle, old(mlogFrom), defer);
        label L: mlogFrom, mlogDefer := mlogDefer, mlogFrom;
        LogsDoNotMatter@L();
        IncrementalPhase();
        PassesCompose(e, n, to, mlogTo, defer, old(mlogFrom));
        ProgressTrans(e0, n0, t0, e, n, t, E(), nTo.View(), tTo.View());
        passes := passes + 1;
      }
    }

    /** The pass of a full collection: nothing is rescued, so what is deferred is garbage. */
    method FullPhase()
      requires Logging() && AllLogged(mem0, cycle, mlogFrom) && mlogDefer == []
      requires forall en :: en in mlogFrom ==> en.parent in from
      modifies this`mlogTo, this`mlogFrom, this`mlogDefer
      ensures Logging() && mlogFrom == [] && mlogDefer == []
      ensures PassDone(E(), nTo.View(), mlogTo, [], old(mlogFrom))
      ensures old(mlogFrom) == [] ==> mlogTo == old(mlogTo)
    {
      hide Collecting, Bytes, CopiedSet, LogState, Settled, Pass, PassDone, Logged;
      var rescue := 0;
      var k := 0;
      PassBegins(E(), nTo.View(), mlogTo, mlogFrom);
      while k < |mlogFrom|
        invariant 0 <= k <= |mlogFrom| && mlogFrom == old(mlogFrom)
        invariant Logging() && (mlogFrom == [] ==> mlogTo == old(mlogTo))
        invariant Pass(E(), nTo.View(), mlogTo, mlogDefer, mlogFrom, k, rescue)
      {
        var en := mlogFrom[k];
        ghost var to := mlogTo;
        ParentRegion(E(), cycle, nTo.View(), tTo.View(), en);
        if IsForwarded(en.parent) {
          FollowParent(en);
          PassMoved(E(), nTo.View(), to, mlogDefer, mlogFrom, k, rescue, mlogTo);
        } else {
          PassDefers(E(), nTo.View(), to, mlogDefer, mlogFrom, k, rescue);
          mlogDefer := mlogDefer + [en];
        }
        k := k + 1;
      }
      PassEnds(E(), nTo.View(), mlogTo, mlogDefer, mlogFrom, rescue);
      label L: mlogFrom := [];
      if rescue == 0 {
        mlogDefer := [];
      }
      LogsDoNotMatter@L();
    }

    /** A full collection's pass never leaves anything deferred, so the original's loop over it ends after one pass. */
    method FullForwardMlog()
      requires Logging() && AllLogged(mem0, cycle, mlogFrom) && mlogDefer == []
      requires forall en :: en in mlogFrom ==> en.parent in from
      modifies this`mlogTo, this`mlogFrom, this`mlogDefer
      ensures Logging() && mlogFrom == [] && mlogDefer == []
      ensures PassDone(E(), nTo.View(), mlogTo, [], old(mlogFrom))
      ensures old(mlogFrom) == [] ==> mlogTo == old(mlogTo)
    {
      FullPhase();
    }

    // -------------------------------------------------------------------------
    // A whole collection
    // -------------------------------------------------------------------------

    /** There is room to commit what a collection may need; otherwise the original throws. */
    ghost predicate RoomToSwap(n: Arena, nf: Arena, t: Arena)
      reads this
    {
      && t.free + (n.checkpoint - n.lo) + fullThreshold <= t.hi
      && nf.lo + (n.free - n.checkpoint) + incrThreshold <= nf.hi
    }

    twostate predicate Exchanged(full: bool)
      reads this
    {
      && nTo == old(nFrom) && nFrom == old(nTo)
      && if full then tTo == old(tFrom) && tFrom == old(tTo) else tTo == old(tTo) && tFrom == old(tFrom)
    }

    /** Exchanges the roles of the spaces to be collected, and of the two logs. */
    method SwapSpaces(full: bool) returns (ok: bool)
      requires Shape() && Spaces(nTo.View(), nFrom.View(), tTo.View(), tFrom.View())
      modifies this`nTo, this`nFrom, this`tTo, this`tFrom, this`mlogTo, this`mlogFrom
      modifies nFrom`free, nFrom`checkpoint, nFrom`committed, tTo`committed, tFrom`free, tFrom`checkpoint
      ensures Shape() && ok == old(RoomToSwap(nTo.View(), nFrom.View(), tTo.View()))
      ensures ok ==>
        && Swapped(old(nTo.View()), old(nFrom.View()), old(tTo.View()), old(tFrom.View()), nTo.View(), tTo.View(),
             Cycle(nFrom.View(), tFrom.View(), tTo.free, full))
        && mlogFrom == old(mlogTo) && mlogTo == old(mlogFrom)
        && Exchanged(full)
    {
      hide Arena.Aligned, Disjoint;
      var maxPromote := nTo.checkpoint - nTo.lo;
      ok := tTo.Expand((tTo.free - tTo.lo) + maxPromote + fullThreshold);
      if !ok { return; }
      if full {
        tFrom.Clear();
        tTo, tFrom := tFrom, tTo;
      }
      var needNursery := (nTo.free - nTo.lo) - maxPromote + incrThreshold;
      ok := nFrom.Reset(needNursery);
      if !ok { return; }
      nTo, nFrom := nFrom, nTo;
      mlogTo, mlogFrom := mlogFrom, mlogTo;
    }

    /** The four spaces occupy the same addresses as before. */
    twostate predicate SameReserve()
      reads this, nTo, nFrom, tTo, tFrom
    {
      forall x: nat :: Owns(x) == old(Owns(x))
    }

    /** Which addresses are owned does not depend on the roles of the spaces. */
    twostate lemma RolesDoNotMatter(full: bool)
      requires Exchanged(full)
      ensures {nTo, nFrom, tTo, tFrom} == old({nTo, nFrom, tTo, tFrom}) && SameReserve()
      ensures nTo == old(nFrom) && nFrom == old(nTo) && tTo == if full then old(tFrom) else old(tTo)
    {
    }

    /** What the collection has to report. No subtraction goes below zero. */
    method Figures() returns (item: GcItem)
      requires Busy() && Finished(E())
      ensures ItemIsExact(E(), cycle, item)
      ensures nTo.free == nTo.lo + item.survive && tTo.free == cycle.tBase + item.promote + item.persist
      ensures totalPromoted == totalPromotedSab + item.promote
    {
      hide Collecting, Finished, Bytes, Arena.Aligned, CopiedSet, Garbage, ItemIsExact, Disjoint;
      FiguresAreExact(E(), cycle, nTo.View(), tTo.View(), totalPromoted - totalPromotedSab);
      var nBefore0, nBefore1 := nFrom.free - nFrom.checkpoint, nFrom.checkpoint - nFrom.lo;
      var tBefore := tFrom.free - tFrom.lo;
      var nAfter, tAfter := nTo.free - nTo.lo, tTo.free - tTo.lo;
      var promote := totalPromoted - totalPromotedSab;
      var effort := if fullMove then nAfter + tAfter else nAfter + promote;
      var persist := if fullMove then tAfter - promote else 0;
      var garbageN := if fullMove then tBefore - tAfter + promote else 0;
      item := GcItem(nBefore0, nAfter, promote, persist, effort, nBefore0 - nAfter, nBefore1 - promote, garbageN);
    }

    /** Computes the figures of the collection, moves the checkpoints and forgets from-space. */
    method CleanupPhase() returns (item: GcItem)
      requires Busy() && Finished(E())
      modifies this`mem, this`incrPending, this`fullPending, this`inProgress, this`fullMove, nTo`checkpoint,
        tTo`checkpoint
      ensures ItemIsExact(old(E()), cycle, item)
      ensures AfterCleanup(cycle, old(nTo.View()), old(tTo.View()), nTo.View(), tTo.View())
      ensures mem == Remaining(old(E()))
      ensures nTo.free == nTo.lo + item.survive && tTo.free == cycle.tBase + item.promote + item.persist
      ensures totalPromoted == totalPromotedSab + item.promote
      ensures nTo.checkpoint == nTo.free && tTo.checkpoint == if cycle.full then tTo.free else old(tTo.checkpoint)
      ensures !inProgress && !incrPending && fullPending == (old(fullPending) && !cycle.full)
    {
      hide Collecting, Finished, Bytes, Arena.Ok, CopiedSet, Garbage, ItemIsExact, Spaces, Remaining, GC.Busy;
      BusyMeans();
      item := Figures();
      RemainingByAddress(E(), cycle, nTo.View(), tTo.View());
      MoveCheckpoints();
      incrPending := false;
      if fullMove { fullPending := false; }
      // nothing reads the from-spaces again before they are reset
      mem := map a | a in mem && (nTo.lo <= a < nTo.free || tTo.lo <= a < tTo.free) :: mem[a];
      inProgress, fullMove := false, false;
    }

    lemma BusyMeans()
      requires Busy()
      ensures Collecting(E(), cycle, nTo.View(), tTo.View()) && Shape() && fullMove == cycle.full
      ensures nTo.View().Ok() && tTo.View().Ok()
    {
      hide Collecting;
      SpacesOf(E(), cycle, nTo.View(), tTo.View());
    }

    /** What has survived counts as old in the next collection. */
    method MoveCheckpoints()
      requires Shape() && nTo.View().Ok() && tTo.View().Ok() && fullMove == cycle.full
      modifies nTo`checkpoint, tTo`checkpoint
      ensures AfterCleanup(cycle, old(nTo.View()), old(tTo.View()), nTo.View(), tTo.View())
      ensures nTo.checkpoint == nTo.free && tTo.checkpoint == if cycle.full then tTo.free else old(tTo.checkpoint)
    {
      nTo.Checkpoint();
      if fullMove { tTo.Checkpoint(); }
    }

    /** A collection has begun: the spaces have exchanged roles and nothing has been copied yet. */
    ghost predicate Begun(full: bool, mem1: Mem<nat>, roots: set<Addr>, log: seq<Entry>)
      reads this, nTo, nFrom, tTo, tFrom
    {
      && Busy() && fullMove == full && mem0 == mem1 && mem == mem1 && src == map[]
      && from == FromSet(mem1, cycle) && starts == roots + OldFields(mem1, from)
      && mlogFrom == log && mlogTo == [] && mlogDefer == []
      && cycle.tBase == tTo.free && nTo.free == nTo.lo
    }

    lemma ValidMeansForRoots()
      requires Valid()
      ensures Shape() && mlogFrom == [] && mlogDefer == []
      ensures HeapOk(mem, nTo.View(), nFrom.View(), tTo.View(), tFrom.View())
      ensures forall s :: s in RootSet(vars, rootv) ==>
        s in mem || External(nTo.View(), nFrom.View(), tTo.View(), tFrom.View(), s)
    {
    }

    /** Steps 0 and 1 of a collection. */
    method BeginCycle(full: bool) returns (ok: bool)
      requires Valid()
      modifies this`inProgress, this`fullMove, this`totalPromotedSab
      modifies this`nTo, this`nFrom, this`tTo, this`tFrom, this`mlogTo, this`mlogFrom
      modifies this`mem0, this`from, this`starts, this`src, this`cycle
      modifies nFrom`free, nFrom`checkpoint, nFrom`committed, tTo`committed, tFrom`free, tFrom`checkpoint
      ensures inProgress && ok == old(RoomToSwap(nTo.View(), nFrom.View(), tTo.View()))
      ensures totalPromotedSab == totalPromoted
      ensures ok ==> Begun(full, mem, old(RootSet(vars, rootv)), old(mlogTo))
      ensures ok ==> Exchanged(full)
      ensures ok ==>
        Swapped(old(nTo.View()), old(nFrom.View()), old(tTo.View()), old(tFrom.View()), nTo.View(), tTo.View(), cycle)
    {
      hide HeapOk, Arena.Aligned, Swapped, Spaces, RootSet, External, GC.Begun, GC.Valid;
      ghost var roots := RootSet(vars, rootv);
      ghost var n0, nf0, t0, tf0 := nTo.View(), nFrom.View(), tTo.View(), tFrom.View();
      ValidMeansForRoots();
      HeapHasSpaces(mem, n0, nf0, t0, tf0);
      inProgress, fullMove, totalPromotedSab := true, full, totalPromoted;
      ok := SwapSpaces(full);
      if ok {
        StartEvacuation(full, roots, n0, nf0, t0, tf0);
      }
    }

    /** Sets up the bookkeeping of the proof for the collection that has just exchanged the spaces. */
    ghost method StartEvacuation(full: bool, roots: set<Addr>, n0: Arena, nf0: Arena, t0: Arena, tf0: Arena)
      requires Shape() && inProgress && fullMove == full && totalPromotedSab == totalPromoted
      requires HeapOk(mem, n0, nf0, t0, tf0) && RoomToPromote(n0, t0)
      requires Swapped(n0, nf0, t0, tf0, nTo.View(), tTo.View(), Cycle(nFrom.View(), tFrom.View(), tTo.free, full))
      requires forall s :: s in roots ==> s in mem || External(n0, nf0, t0, tf0, s)
      requires mlogTo == [] && mlogDefer == []
      modifies this`mem0, this`from, this`starts, this`src, this`cycle
      ensures Begun(full, mem, roots, mlogFrom)
      ensures cycle == Cycle(nFrom.View(), tFrom.View(), tTo.free, full)
    {
      hide HeapOk, Collecting, Bytes, Swapped, OldFields, FromSet, CopiedSet, External, RoomToPromote, Arena.Ok;
      hide GC.Shape;
      mem0, src, cycle := mem, map[], Cycle(nFrom.View(), tFrom.View(), tTo.free, full);
      from := FromSet(mem, cycle);
      starts := roots + OldFields(mem, from);
      ShapeStays();
      CycleBegins(mem, n0, nf0, t0, tf0, nTo.View(), tTo.View(), cycle, roots);
    }

    /** Only the fields that hold the spaces matter. */
    twostate lemma ShapeStays()
      requires old(Shape()) && nTo == old(nTo) && nFrom == old(nFrom) && tTo == old(tTo) && tFrom == old(tFrom)
      ensures Shape()
    {
    }

    /** The roots have been copied; the log is still to be forwarded. */
    ghost predicate RootsCopied(full: bool, mem1: Mem<nat>, roots: set<Addr>, log: seq<Entry>)
      reads this, nTo, nFrom, tTo, tFrom
    {
      && Logging() && fullMove == full && mem0 == mem1
      && from == FromSet(mem1, cycle) && starts == roots + OldFields(mem1, from)
      && mlogFrom == log && mlogTo == [] && mlogDefer == []
      && AllLogged(mem0, cycle, log) && (full ==> forall en :: en in log ==> en.parent in from)
      && forall s :: s in roots ==> Phi(mem, s) !in from
    }

    /** Step 2 of a collection. */
    method CopyRoots(full: bool, ghost mem1: Mem<nat>, ghost roots: set<Addr>, ghost log: seq<Entry>)
      requires Begun(full, mem1, roots, log)
      requires AllLogged(mem1, cycle, log) && (full ==> forall en :: en in log ==> en.parent in from)
      requires roots == RootSet(vars, rootv) && forall r :: r in rootv ==> r in vars
      modifies this`vars, this`mem, this`src, this`totalPromoted, nTo`free, nTo`committed, tTo`free, tTo`committed
      ensures RootsCopied(full, mem1, roots, log) && Progressed()
      ensures Redirected(old(vars), rootv, E(), vars)
    {
      hide Collecting, Bytes, CopiedSet, White, OldKept, AllLogged, Progress, Extends, OldFields, FromSet, Live;
      ghost var e0, n0, t0 := E(), nTo.View(), tTo.View();
      NothingIsWhite(e0);
      CopyGlobals();
      ScanMonotone(e0, n0, t0, E(), nTo.View(), tTo.View());
      LogStateBegins(e0, cycle, n0, t0, E(), nTo.View(), tTo.View());
      forall s | s in roots ensures Phi(mem, s) !in from {
        var r :| r in rootv && r in old(vars) && old(vars)[r] == s;
        assert RootDone(old(vars), |rootv|, r);
      }
      assert rootv[..|rootv|] == rootv;
      forall r | r in vars ensures Redirection(old(vars), rootv, E(), vars, r) {
        assert RootDone(old(vars), |rootv|, r);
      }
    }

    /** Step 3 of a collection. */
    method ForwardMutationLog(
      full: bool, ghost mem1: Mem<nat>, ghost roots: set<Addr>, ghost log: seq<Entry>, ghost vars0: map<nat, Addr>)
      returns (passes: nat)
      requires RootsCopied(full, mem1, roots, log) && (full || allowIncremental) && Redirected(vars0, rootv, E(), vars)
      requires allowIncremental ==> Remembered(mem1, cycle.nf, TenuredBefore(cycle, tTo.View()), log)
      modifies this`mem, this`src, this`totalPromoted, this`mlogTo, this`mlogFrom, this`mlogDefer
      modifies nTo`free, nTo`committed, tTo`free, tTo`committed
      ensures Busy() && Progressed() && mlogFrom == [] && mlogDefer == [] && mem0 == mem1
      ensures AllForwarded(E(), cycle, nTo.View(), tTo.View(), log, mlogTo, roots, allowIncremental)
      ensures log == [] ==> full ==> mlogTo == []
      ensures passes <= 2
      ensures Redirected(vars0, rootv, E(), vars)
    {
      hide Collecting, Bytes, CopiedSet, LogState, Progress, OldFields, FromSet, PassDone, AllLogged, Remembered;
      hide Redirected;
      ghost var e, n, t := E(), nTo.View(), tTo.View();
      ProgressIsReflexive(e, n, t);
      if full {
        FullForwardMlog();
        passes := 1;
      } else {
        passes := IncrementalForwardMlog();
      }
      ghost var e', n', t' := E(), nTo.View(), tTo.View();
      RedirectedStays(e, cycle, n, t, e', n', t', vars0, rootv, vars);
      forall s | s in roots ensures Phi(mem, s) !in from {
        ResultStays(e, cycle, n, t, e', n', t', s);
      }
      ScanMonotone(e, n, t, e', n', t');
      if allowIncremental {
        RememberedInCycle(mem1, cycle.nf, TenuredBefore(cycle, t), cycle, t', log);
      }
    }

    /** The last step of a collection. */
    method FinishCycle(ghost roots: set<Addr>, ghost log: seq<Entry>, ghost vars0: map<nat, Addr>)
      returns (item: GcItem, ghost e: Evac<nat>)
      requires Busy() && mlogFrom == [] && mlogDefer == []
      requires AllForwarded(E(), cycle, nTo.View(), tTo.View(), log, mlogTo, roots, allowIncremental)
      requires !allowIncremental ==> mlogTo == []
      requires Redirected(vars0, rootv, E(), vars) && roots == RootSet(vars0, rootv)
      requires forall r :: r in rootv ==> r in vars0
      modifies this`mem, this`incrPending, this`fullPending, this`inProgress, this`fullMove, nTo`checkpoint,
        tTo`checkpoint
      ensures Valid() && nTo.checkpoint == nTo.free
      ensures tTo.checkpoint == if cycle.full then tTo.free else old(tTo.checkpoint)
      ensures nTo.free == nTo.lo + item.survive && tTo.free == cycle.tBase + item.promote + item.persist
      ensures totalPromoted == totalPromotedSab + item.promote
      ensures !incrPending && fullPending == (old(fullPending) && !cycle.full)
      ensures e == old(E()) && Finished(e) && Headers(e) && mem == Remaining(e) && ItemIsExact(e, cycle, item)
      ensures PlacedByAge(e, cycle.nf, nTo.View(), tTo.View())
      ensures allowIncremental ==> LogIsExact(mem, nTo.View(), tTo.View(), mlogTo)
    {
      hide HeapOk, Collecting, LogOk, Remembered, LogIsExact, Finished, Bytes, ItemIsExact, AllForwarded, Headers;
      hide PlacedByAge;
      hide CopiedSet, Phi, Redirected, Remaining, Arena.Aligned, External, RootSet;
      ghost var n, t := nTo.View(), tTo.View();
      NothingLeftBehind(E(), cycle, n, t, log, mlogTo, roots, allowIncremental);
      e := E();
      item := CleanupPhase();
      CycleEnds(e, cycle, n, t, log, mlogTo, roots, allowIncremental, nTo.View(), tTo.View());
      RedirectedRootsAreOk(e, roots, vars0, rootv, vars, nTo.View(), nFrom.View(), tTo.View(), tFrom.View());
    }

    /** Steps 2 and 3 of a collection. */
    method MoveSurvivors(full: bool, ghost mem1: Mem<nat>, ghost roots: set<Addr>, ghost log: seq<Entry>)
      returns (passes: nat)
      requires Begun(full, mem1, roots, log) && (full || allowIncremental) && (!allowIncremental ==> log == [])
      requires AllLogged(mem1, cycle, log) && (full ==> forall en :: en in log ==> en.parent in from)
      requires allowIncremental ==> Remembered(mem1, cycle.nf, TenuredBefore(cycle, tTo.View()), log)
      requires roots == RootSet(vars, rootv) && forall r :: r in rootv ==> r in vars
      modifies this`vars, this`mem, this`src, this`totalPromoted, this`mlogTo, this`mlogFrom, this`mlogDefer
      modifies nTo`free, nTo`committed, tTo`free, tTo`committed
      ensures Busy() && mlogFrom == [] && mlogDefer == [] && mem0 == mem1 && passes <= 2
      ensures AllForwarded(E(), cycle, nTo.View(), tTo.View(), log, mlogTo, roots, allowIncremental)
      ensures !allowIncremental ==> mlogTo == []
      ensures Redirected(old(vars), rootv, E(), vars)
    {
      hide PlacedByAge;
      hide Collecting, Remembered, LogIsExact, Finished, Bytes, ItemIsExact, AllForwarded, AllLogged, Headers, HeapOk;
      hide CopiedSet, Progress, OldFields, FromSet, LogState, Phi, Redirected, GC.Valid, RootSet, GC.Begun;
      hide GC.RootsCopied, GC.Busy;
      ghost var vars0, e1, n1, t1 := vars, E(), nTo.View(), tTo.View();
      CopyRoots(full, mem1, roots, log);
      ScanMonotone(e1, n1, t1, E(), nTo.View(), tTo.View());
      if allowIncremental { RememberedInCycle(mem1, cycle.nf, TenuredBefore(cycle, t1), cycle, tTo.View(), log); }
      passes := ForwardMutationLog(full, mem1, roots, log, vars0);
    }

    /** Everything between the exchange of the spaces and the end of the collection. */
    method RunCycle(
      full: bool, ghost mem1: Mem<nat>, ghost roots: set<Addr>, ghost log: seq<Entry>, ghost n0: Arena, ghost t0: Arena)
      returns (item: GcItem, passes: nat, ghost e: Evac<nat>)
      requires Begun(full, mem1, roots, log) && (full || allowIncremental) && (!allowIncremental ==> log == [])
      requires AllLogged(mem1, cycle, log) && (full ==> forall en :: en in log ==> en.parent in from)
      requires allowIncremental ==> Remembered(mem1, cycle.nf, TenuredBefore(cycle, tTo.View()), log)
      requires roots == RootSet(vars, rootv) && forall r :: r in rootv ==> r in vars
      requires ChosenByAddress(mem1, from, full, n0, t0)
      modifies this`vars, this`mem, this`src, this`totalPromoted, this`mlogTo, this`mlogFrom, this`mlogDefer
      modifies this`incrPending, this`fullPending, this`inProgress, this`fullMove
      modifies nTo`free, nTo`committed, tTo`free, tTo`committed, nTo`checkpoint, tTo`checkpoint
      ensures Valid() && nTo.checkpoint == nTo.free && passes <= 2
      ensures tTo.checkpoint == if cycle.full then tTo.free else old(tTo.checkpoint)
      ensures nTo.free == nTo.lo + item.survive && tTo.free == cycle.tBase + item.promote + item.persist
      ensures totalPromoted == totalPromotedSab + item.promote
      ensures !incrPending && fullPending == (old(fullPending) && !cycle.full)
      ensures Collects(e, full, mem1, n0, t0, old(vars), rootv, mem, vars)
      ensures ItemIsExact(e, cycle, item) && PlacedByAge(e, cycle.nf, nTo.View(), tTo.View())
      ensures allowIncremental ==> LogIsExact(mem, nTo.View(), tTo.View(), mlogTo)
    {
      hide PlacedByAge;
      hide Collecting, Remembered, LogIsExact, Finished, Bytes, ItemIsExact, AllForwarded, AllLogged, Headers, HeapOk;
      hide CopiedSet, Progress, OldFields, FromSet, LogState, Phi, Redirected, GC.Valid, RootSet, GC.Begun;
      hide GC.RootsCopied, GC.Busy, Collects, ChosenByAddress, Remaining;
      ghost var vars0, from1, starts1 := vars, from, starts;
      BegunMeans(full, mem1, roots, log);
      passes := MoveSurvivors(full, mem1, roots, log);
      item, e := FinishCycle(roots, log, vars0);
      CollectsAsAsked(e, full, mem1, n0, t0, vars0, rootv, mem, vars, from1, starts1, roots);
    }

    lemma BegunMeans(full: bool, mem1: Mem<nat>, roots: set<Addr>, log: seq<Entry>)
      requires Begun(full, mem1, roots, log)
      ensures cycle.full == full && from == FromSet(mem1, cycle) && starts == roots + OldFields(mem1, from)
    {
      hide Collecting;
    }

    lemma ValidMeans()
      requires Valid()
      ensures HeapOk(mem, nTo.View(), nFrom.View(), tTo.View(), tFrom.View())
      ensures LogOk(mem, nTo.View(), tTo.View(), mlogTo)
      ensures if allowIncremental then Remembered(mem, nTo.View(), tTo.View(), mlogTo) else mlogTo == []
      ensures forall r :: r in rootv ==> r in vars
    {
    }

    /** Steps 0 and 1, with all that the other steps need to know. */
    method OpenCycle(full: bool) returns (ok: bool)
      requires Valid() && (full || allowIncremental)
      modifies this`inProgress, this`fullMove, this`totalPromotedSab
      modifies this`nTo, this`nFrom, this`tTo, this`tFrom, this`mlogTo, this`mlogFrom
      modifies this`mem0, this`from, this`starts, this`src, this`cycle
      modifies nFrom`free, nFrom`checkpoint, nFrom`committed, tTo`committed, tFrom`free, tFrom`checkpoint
      ensures inProgress && ok == old(RoomToSwap(nTo.View(), nFrom.View(), tTo.View()))
      ensures totalPromotedSab == totalPromoted
      ensures ok ==> Begun(full, mem, RootSet(vars, rootv), old(mlogTo)) && Exchanged(full)
      ensures ok ==> (!allowIncremental ==> old(mlogTo) == []) && forall r :: r in rootv ==> r in vars
      ensures ok ==>
        AllLogged(mem, cycle, old(mlogTo)) && (full ==> forall en :: en in old(mlogTo) ==> en.parent in from)
      ensures ok && allowIncremental ==> Remembered(mem, cycle.nf, TenuredBefore(cycle, tTo.View()), old(mlogTo))
      ensures ok ==> cycle.full == full && cycle.nf == old(nTo.View())
      ensures ok ==> ChosenByAddress(mem, from, full, old(nTo.View()), old(tTo.View()))
      ensures ok && full ==> cycle.tBase == tTo.lo && cycle.tf.lo == old(tTo.lo) && cycle.tf.free == old(tTo.free)
      ensures ok && !full ==> cycle.tBase == old(tTo.free) && tTo.checkpoint == old(tTo.checkpoint)
    {
      hide HeapOk, Collecting, LogOk, Remembered, Bytes, AllLogged, Swapped, OldFields, FromSet, External, GC.Valid;
      hide GC.Begun, RootSet, GC.Owns, TenuredBefore, ChosenByAddress;
      ValidMeans();
      ghost var n0, nf0, t0, tf0, log := nTo.View(), nFrom.View(), tTo.View(), tFrom.View(), mlogTo;
      ok := BeginCycle(full);
      if !ok { return; }
      BegunMeans(full, mem, RootSet(vars, rootv), log);
      SwappedMeans(n0, nf0, t0, tf0, nTo.View(), tTo.View(), cycle);
      LogIsLogged(mem, n0, nf0, t0, tf0, cycle, log);
      FromSetByAddress(mem, n0, nf0, t0, tf0, cycle);
      if allowIncremental { RememberedInCycle(mem, n0, t0, cycle, tTo.View(), log); }
    }

    /** All steps of a collection. */
    method TakeTurn(full: bool) returns (ok: bool, item: GcItem, passes: nat, ghost e: Evac<nat>, ghost c: Cycle)
      requires Valid() && (full || allowIncremental)
      modifies this, nTo, nFrom, tTo, tFrom
      ensures ok == old(RoomToSwap(nTo.View(), nFrom.View(), tTo.View()))
      ensures ok ==> Valid() && Exchanged(full) && passes <= 2
      ensures ok ==> Collects(e, full, old(mem), old(nTo.View()), old(tTo.View()), old(vars), rootv, mem, vars)
      ensures ok ==> c.full == full && c.nf == old(nTo.View()) && ItemIsExact(e, c, item)
      ensures ok && full ==> c.tBase == tTo.lo && c.tf.lo == old(tTo.lo) && c.tf.free == old(tTo.free)
      ensures ok && !full ==> c.tBase == old(tTo.free)
      ensures ok ==> PlacedByAge(e, old(nTo.View()), nTo.View(), tTo.View())
      ensures ok && allowIncremental ==> LogIsExact(mem, nTo.View(), tTo.View(), mlogTo)
      ensures ok ==> nTo.checkpoint == nTo.free && tTo.checkpoint == if full then tTo.free else old(tTo.checkpoint)
      ensures ok ==> nTo.free == nTo.lo + item.survive && tTo.free == c.tBase + item.promote + item.persist
      ensures ok ==> totalPromoted == old(totalPromoted) + item.promote
      ensures ok ==> !incrPending && fullPending == (old(fullPending) && !full)
      ensures rootv == old(rootv) && gcEnabled == old(gcEnabled)
      ensures (!ok ==> inProgress && mem == old(mem) && vars == old(vars))
    {
      hide HeapOk, Collecting, LogOk, Remembered, LogIsExact, Finished, Bytes, ItemIsExact, AllLogged, Collects;
      hide OldFields, External, GC.Valid, GC.Begun, RootSet, Redirected, PlacedByAge, Headers, GC.Owns, Remaining;
      hide ChosenByAddress, GC.RoomToSwap;
      ghost var n0, t0, log, mem1 := nTo.View(), tTo.View(), mlogTo, mem;
      item, passes := GcItem(0, 0, 0, 0, 0, 0, 0, 0), 0;
      e, c := E(), cycle;
      ok := OpenCycle(full);
      if !ok { return; }
      c := cycle;
      item, passes, e := RunCycle(full, mem1, RootSet(vars, rootv), log, n0, t0);
    }

    /**
     * A collection of the nursery, or of both generations. It fails only where
     * the original throws: before anything is copied, for lack of reserve.
     */
    method ExecuteGc(full: bool) returns (ok: bool, item: GcItem, passes: nat, ghost e: Evac<nat>, ghost c: Cycle)
      requires Valid() && (full || allowIncremental)
      modifies this, nTo, nFrom, tTo, tFrom
      ensures ok == old(
        && tTo.free + (nTo.checkpoint - nTo.lo) + fullThreshold <= tTo.hi
        && nFrom.lo + (nTo.free - nTo.checkpoint) + incrThreshold <= nFrom.hi)
      ensures ok ==> Valid() && {nTo, nFrom, tTo, tFrom} == old({nTo, nFrom, tTo, tFrom}) && SameReserve()
      ensures ok ==> Collects(e, full, old(mem), old(nTo.View()), old(tTo.View()), old(vars), rootv, mem, vars)
      ensures ok ==> c.full == full && c.nf == old(nTo.View()) && ItemIsExact(e, c, item)
      ensures ok ==> PlacedByAge(e, old(nTo.View()), nTo.View(), tTo.View())
      ensures ok ==> forall x :: x in old(mem) && Survives(e, x) ==>
        if old(nTo.checkpoint) <= x < old(nTo.hi) then nTo.lo <= Phi(e.mem, x) < nTo.checkpoint
        else tTo.lo <= Phi(e.mem, x) < tTo.hi
      ensures ok && allowIncremental ==> LogIsExact(mem, nTo.View(), tTo.View(), mlogTo)
      ensures ok ==> nTo == old(nFrom) && nFrom == old(nTo) && tTo == if full then old(tFrom) else old(tTo)
      ensures ok ==> nTo.free == nTo.checkpoint == nTo.lo + item.survive && passes <= 2
      ensures ok && full ==> tTo.free == tTo.checkpoint == tTo.lo + item.promote + item.persist
      ensures ok && !full ==> tTo.free - tTo.checkpoint == old(tTo.free - tTo.checkpoint) + item.promote
      ensures ok && !full ==> tTo.checkpoint == old(tTo.checkpoint)
      ensures ok ==> item.newAlloc == item.survive + item.garbage0 == old(nTo.free - nTo.checkpoint)
      ensures ok ==> item.promote + item.garbage1 == old(nTo.checkpoint - nTo.lo)
      ensures ok ==> item.persist + item.garbageN == if full then old(tTo.free - tTo.lo) else 0
      ensures ok ==> item.effort == item.survive + item.promote + item.persist
      ensures ok ==> totalPromoted == old(totalPromoted) + item.promote
      ensures ok ==> !incrPending && fullPending == (old(fullPending) && !full)
      ensures rootv == old(rootv) && gcEnabled == old(gcEnabled)
      ensures (!ok ==> inProgress && mem == old(mem) && vars == old(vars))
    {
      hide LogIsExact, ItemIsExact, Finished, Headers, Redirected, Remaining, RootSet, OldFields, GC.Valid, GC.Owns;
      ok, item, passes, e, c := TakeTurn(full);
      if ok {
        FiguresAddUp(e, c, item);
        RolesDoNotMatter(full);
      }
    }

    // -------------------------------------------------------------------------
    // The mutator's operations
    // -------------------------------------------------------------------------

    /**
     * The write barrier. Stores rhs in a field of parent, and logs the store if
     * it may make a pointer from tenured space to the nursery or from N1 to N0.
     */
    method AssignMember(parent: Addr, slot: nat, rhs: Addr)
      requires parent in mem && mem[parent].Obj? && slot < |mem[parent].fields|
      requires !inProgress ==> Valid() && PointerOk(rhs)
      modifies this`mem, this`mlogTo
      ensures mem == Assigned(old(mem), parent, slot, rhs)
      ensures !inProgress ==> Valid()
      ensures
        var olderParent := tTo.lo <= parent < tTo.hi || nTo.lo <= parent < nTo.checkpoint;
        mlogTo == old(mlogTo) +
          if !inProgress && allowIncremental && nTo.lo <= rhs < nTo.hi && olderParent then [Entry(parent, slot)] else []
    {
      hide HeapOk, Remembered, LogOk, Arena.Aligned;
      ghost var mem0, log, n, nf, t, tf := mem, mlogTo, nTo.View(), nFrom.View(), tTo.View(), tFrom.View();
      mem := mem[parent := mem[parent].(fields := mem[parent].fields[slot := rhs])];
      if inProgress {
        // mutations during a collection are not logged
        return;
      }
      AssignKeepsHeap(mem0, n, nf, t, tf, parent, slot, rhs);
      HeapHasSpaces(mem0, n, nf, t, tf);
      hide External, Assigned;
      if !allowIncremental {
        // full collections need no log
        LogOfNothing(mem, n, t);
        return;
      }
      if tTo.lo <= rhs < tTo.hi {
        // any -> T
      } else if nTo.lo <= rhs < nTo.hi {
        if nTo.lo <= parent < nTo.hi {
          if nTo.lo <= parent < nTo.checkpoint {
            mlogTo := mlogTo + [Entry(parent, slot)];
          }
        } else if tTo.lo <= parent < tTo.hi {
          mlogTo := mlogTo + [Entry(parent, slot)];
        }
      }
      AssignKeepsLog(mem0, n, t, log, parent, slot, rhs, MustLog(n, t, parent, rhs));
    }

    /** Assignment to a variable of the application: nothing to log. */
    method AssignVariable(r: nat, rhs: Addr)
      requires Valid() && PointerOk(rhs)
      modifies this`vars
      ensures Valid() && vars == old(vars)[r := rhs]
    {
      vars := vars[r := rhs];
    }

    method AddGcRoot(r: nat)
      requires Valid() && r in vars && PointerOk(vars[r])
      modifies this`rootv
      ensures Valid() && rootv == old(rootv) + [r]
    {
      rootv := rootv + [r];
    }

    /** Removes every registration of r. */
    method RemoveGcRoot(r: nat)
      requires Valid()
      modifies this`rootv
      ensures Valid() && r !in rootv && forall q :: q != r ==> (q in rootv <==> q in old(rootv))
    {
      var kept: seq<nat> := [];
      var i := 0;
      while i < |rootv|
        invariant 0 <= i <= |rootv| && rootv == old(rootv)
        invariant r !in kept && forall q :: q != r ==> (q in kept <==> q in rootv[..i])
      {
        if rootv[i] != r { kept := kept + [rootv[i]]; }
        assert rootv[..i + 1] == rootv[..i] + [rootv[i]];
        i := i + 1;
      }
      assert rootv[..i] == rootv;
      rootv := kept;
    }

    /** Moves the boundary between N1 and N0, and that of the tenured space, up to now. */
    method Checkpoint()
      requires Valid()
      modifies nTo`checkpoint, tTo`checkpoint
      ensures Valid() && nTo.checkpoint == nTo.free && tTo.checkpoint == tTo.free
      ensures SameReserve()
    {
      hide HeapOk, Remembered, LogOk, Arena.Aligned;
      ghost var n, nf, t, tf := nTo.View(), nFrom.View(), tTo.View(), tFrom.View();
      HeapHasSpaces(mem, n, nf, t, tf);
      nTo.Checkpoint();
      tTo.Checkpoint();
      CheckpointKeepsHeap(mem, n, nf, t, tf, nTo.View(), tTo.View(), mlogTo);
    }

    /**
     * The collector's own check: is field slot of parent either no pointer across
     * generations, or remembered? It holds of every object the collector owns.
     */
    method CheckWriteBarrier(parent: Addr, slot: nat) returns (ok: bool)
      requires Valid() && (parent in mem ==> mem[parent].Obj? && slot < |mem[parent].fields|)
      requires parent in mem || External(nTo.View(), nFrom.View(), tTo.View(), tFrom.View(), parent)
      ensures allowIncremental ==> (ok <==> parent in mem)
      ensures !allowIncremental ==>
        (ok <==> parent in mem && !CrossesGenerations(mem, nTo.View(), tTo.View(), parent, slot))
    {
      hide GC.Valid, HeapOk, LogOk, External;
      ghost var n, nf, t, tf := nTo.View(), nFrom.View(), tTo.View(), tFrom.View();
      ValidMeans();
      ParentByAddress(mem, n, nf, t, tf, parent);
      if !(nTo.lo <= parent < nTo.hi || tTo.lo <= parent < tTo.hi) {
        return false;
      }
      var rhs := mem[parent].fields[slot];
      if rhs == NULL {
        return true;
      }
      var rhsInN := nTo.lo <= rhs < nTo.hi;
      if nTo.lo <= parent < nTo.hi {
        if !(nTo.lo <= parent < nTo.checkpoint) || !rhsInN || nTo.lo <= rhs < nTo.checkpoint {
          return true;
        }
      } else if !rhsInN {
        return true;
      }
      assert CrossesGenerations(mem, n, t, parent, slot);
      var i := 0;
      while i < |mlogTo|
        invariant 0 <= i <= |mlogTo|
        invariant forall j :: 0 <= j < i ==> mlogTo[j] != Entry(parent, slot)
      {
        if mlogTo[i] == Entry(parent, slot) {
          return true;
        }
        i := i + 1;
      }
      return false;
    }

    // -------------------------------------------------------------------------
    // Requesting and enabling collections
    // -------------------------------------------------------------------------

    /**
     * A request for a nursery collection becomes one for a full collection when enough has been
     * promoted, or if no other is allowed.
     */
    predicate NeedFullGc(full: bool)
      reads this, tTo
    {
      full || tTo.free - tTo.checkpoint > fullThreshold || !allowIncremental
    }

    /** At most the threshold has been promoted since the last full collection, and what one more can add. */
    predicate PromotionBounded()
      reads this, nTo, tTo
    {
      tTo.free - tTo.checkpoint <= fullThreshold + (nTo.hi - nTo.lo)
    }

    lemma SizesOf()
      requires Valid()
      ensures !inProgress && nTo.lo <= nTo.checkpoint <= nTo.hi && nTo.hi - nTo.lo == nFrom.hi - nFrom.lo
      ensures nTo.hi <= tTo.lo || tTo.hi <= nTo.lo
      ensures RoomToSwap(nTo.View(), nFrom.View(), tTo.View()) <==>
        && tTo.free + (nTo.checkpoint - nTo.lo) + fullThreshold <= tTo.hi
        && nFrom.lo + (nTo.free - nTo.checkpoint) + incrThreshold <= nFrom.hi
    {
      hide HeapObjects, HeapTiles, HeapPointers, Remembered, LogOk, GC.RootsOk;
    }

    /** Collects now if that is enabled, and otherwise remembers the request. */
    method RequestGc(full: bool) returns (ok: bool, ghost e: Evac<nat>)
      requires Valid()
      modifies this, nTo, nFrom, tTo, tFrom
      ensures ok == old(gcEnabled != 0 || RoomToSwap(nTo.View(), nFrom.View(), tTo.View())) && (!ok ==> inProgress)
      ensures ok ==> Valid() && {nTo, nFrom, tTo, tFrom} == old({nTo, nFrom, tTo, tFrom}) && SameReserve()
      ensures ok && gcEnabled == 0 ==>
        var needFull := full || !allowIncremental || old(tTo.free - tTo.checkpoint) > fullThreshold;
        && Collects(e, needFull, old(mem), old(nTo.View()), old(tTo.View()), old(vars), rootv, mem, vars)
        && (forall a :: a in old(mem) && old(tTo.lo) <= a < old(tTo.hi) ==> (a in e.from <==> needFull))
        && nTo.checkpoint == nTo.free && (needFull ==> tTo.checkpoint == tTo.free)
        && !incrPending && fullPending == (old(fullPending) && !needFull) && PromotionBounded()
      ensures gcEnabled != 0 ==>
        && incrPending && mem == old(mem) && vars == old(vars) && mlogTo == old(mlogTo)
        && nTo == old(nTo) && tTo == old(tTo) && nTo.View() == old(nTo.View()) && tTo.View() == old(tTo.View())
        && fullPending == (
             || old(fullPending) || full || !allowIncremental
             || old(tTo.free - tTo.checkpoint) > fullThreshold)
      ensures rootv == old(rootv) && gcEnabled == old(gcEnabled)
    {
      hide GC.Valid, GC.SameReserve, GC.Owns, GC.RoomToSwap, PlacedByAge, ItemIsExact, LogIsExact, Survives, Phi;
      hide Finished, Headers, Redirected, Remaining, RootSet, OldFields;
      SizesOf();
      e := E();
      var needFull := NeedFullGc(full);
      if !inProgress && gcEnabled == 0 {
        var item, passes;
        ghost var c;
        ok, item, passes, e, c := ExecuteGc(needFull);
      } else {
        NoteRequest(needFull);
        ok := true;
      }
    }

    method NoteRequest(needFull: bool)
      requires Valid()
      modifies this`incrPending, this`fullPending
      ensures Valid() && SameReserve() && incrPending && fullPending == (old(fullPending) || needFull)
    {
      hide HeapOk, Remembered, LogOk, External;
      incrPending := true;
      fullPending := fullPending || needFull;
    }

    method DisableGc()
      requires Valid()
      modifies this`gcEnabled
      ensures Valid() && gcEnabled == old(gcEnabled) - 1
    {
      gcEnabled := gcEnabled - 1;
    }

    /** Undoes one DisableGc; if that enables collections and one is pending, it runs. */
    method EnableGc() returns (ok: bool, ran: bool, ghost e: Evac<nat>)
      requires Valid()
      modifies this, nTo, nFrom, tTo, tFrom
      ensures gcEnabled == old(gcEnabled) + 1 && rootv == old(rootv)
      ensures ran == (gcEnabled == 0 && old(incrPending))
      ensures ok == (!ran || old(RoomToSwap(nTo.View(), nFrom.View(), tTo.View()))) && (!ok ==> inProgress)
      ensures ok ==> Valid() && {nTo, nFrom, tTo, tFrom} == old({nTo, nFrom, tTo, tFrom}) && SameReserve()
      ensures ok && ran ==>
        var needFull := old(fullPending) || !allowIncremental || old(tTo.free - tTo.checkpoint) > fullThreshold;
        && Collects(e, needFull, old(mem), old(nTo.View()), old(tTo.View()), old(vars), rootv, mem, vars)
        && (forall a :: a in old(mem) && old(tTo.lo) <= a < old(tTo.hi) ==> (a in e.from <==> needFull))
        && nTo.checkpoint == nTo.free && (needFull ==> tTo.checkpoint == tTo.free)
        && !incrPending && !fullPending && PromotionBounded()
      ensures !ran ==>
        && mem == old(mem) && vars == old(vars) && mlogTo == old(mlogTo)
        && nTo == old(nTo) && tTo == old(tTo) && nTo.View() == old(nTo.View()) && tTo.View() == old(tTo.View())
        && incrPending == old(incrPending) && fullPending == old(fullPending)
    {
      hide HeapOk, Remembered, LogOk, Collects, Arena.Aligned;
      e := E();
      gcEnabled := gcEnabled + 1;
      ok, ran := true, false;
      if gcEnabled == 0 && incrPending {
        ok, e := RequestGc(fullPending);
        ran := true;
      }
    }

    /** No field of an object of mem0, and no root, holds the address x. */
    ghost predicate UnseenBefore(mem0: Mem<nat>, x: Addr)
      reads this
    {
      && (forall a, i :: a in mem0 && mem0[a].Obj? && 0 <= i < |mem0[a].fields| ==> mem0[a].fields[i] != x)
      && (forall r :: r in rootv && r in vars ==> vars[r] != x)
    }

    /** The next allocation requests a collection: enough has been allocated since the last, and none is pending. */
    predicate CollectionDue()
      reads this, nTo
    {
      !incrPending && nTo.free - nTo.checkpoint > incrThreshold
    }

    /**
     * A new object of z bytes whose fields hold what the root variables init
     * hold. Collects first if enough has been allocated since the last collection.
     */
    method Alloc(z: nat, init: seq<nat>)
      returns (ok: bool, x: Addr, ghost ran: bool, ghost e: Evac<nat>, ghost mem1: Mem<nat>)
      requires Valid() && MIN_OBJECT <= z && forall r :: r in init ==> r in rootv
      modifies this, nTo, nFrom, tTo, tFrom
      ensures rootv == old(rootv) && gcEnabled == old(gcEnabled)
      ensures ran == old(!incrPending && nTo.free - nTo.checkpoint > incrThreshold && gcEnabled == 0)
      ensures !ok && inProgress ==> ran && !old(RoomToSwap(nTo.View(), nFrom.View(), tTo.View()))
      ensures !ok && !inProgress ==> Valid() && nTo.free + WithPadding(z) > nTo.hi
      ensures ok ==> Valid() && {nTo, nFrom, tTo, tFrom} == old({nTo, nFrom, tTo, tFrom}) && SameReserve()
      ensures ok && ran ==>
        var needFull := !allowIncremental || old(tTo.free - tTo.checkpoint) > fullThreshold;
        && Collects(e, needFull, old(mem), old(nTo.View()), old(tTo.View()), old(vars), rootv, mem1, vars)
        && (forall a :: a in old(mem) && old(tTo.lo) <= a < old(tTo.hi) ==> (a in e.from <==> needFull))
        && (needFull ==> tTo.checkpoint == tTo.free)
        && !incrPending && fullPending == (old(fullPending) && !needFull) && PromotionBounded()
      ensures ok && !ran ==>
        && mem1 == old(mem) && vars == old(vars) && mlogTo == old(mlogTo) && tTo == old(tTo)
        && tTo.View() == old(tTo.View())
        && nTo == old(nTo) && nTo.checkpoint == old(nTo.checkpoint) && x == old(nTo.free)
        && incrPending == old(incrPending || nTo.free - nTo.checkpoint > incrThreshold)
      ensures ok ==> nTo.free == x + WithPadding(z) && (ran ==> x == nTo.checkpoint)
      ensures ok ==> UnseenBefore(mem1, x)
      ensures ok ==>
        x !in mem1 && Owns(x) && (forall r :: r in init ==> r in vars) && mem == mem1[x := Obj(z, ReadAll(vars, init))]
    {
      hide HeapOk, Remembered, LogOk, Collects, Arena.Aligned, AllocPadding;
      e, ran, x := E(), false, 0;
      mem1 := mem;
      if CollectionDue() {
        ran := gcEnabled == 0;
        ok, e := RequestGc(false);
        if !ok { return; }
      }
      mem1 := mem;
      ok, x := AllocNursery(z, init);
    }

    /** The allocation itself: bumps the nursery's free pointer and constructs the object there. */
    method AllocNursery(z: nat, init: seq<nat>) returns (ok: bool, x: Addr)
      requires Valid() && MIN_OBJECT <= z && forall r :: r in init ==> r in rootv
      modifies this`mem, nTo`free, nTo`committed
      ensures Valid() && ok == old(nTo.free + WithPadding(z) <= nTo.hi)
      ensures ok ==> nTo.free == x + WithPadding(z)
      ensures ok ==> x == old(nTo.free) && x !in old(mem) && Owns(x) && UnseenBefore(old(mem), x)
      ensures ok ==> (forall r :: r in init ==> r in vars) && mem == old(mem)[x := Obj(z, ReadAll(vars, init))]
      ensures !ok ==> mem == old(mem) && nTo.View() == old(nTo.View())
    {
      hide HeapOk, Remembered, LogOk, Arena.Aligned, AllocPadding;
      ghost var n, nf, t, tf, mem0 := nTo.View(), nFrom.View(), tTo.View(), tFrom.View(), mem;
      HeapHasSpaces(mem, n, nf, t, tf);
      ok, x := nTo.Alloc(z);
      if ok {
        var fields := ReadAll(vars, init);
        NewAddressIsUnseen(mem0, n, nf, t, tf);
        AllocKeepsHeap(mem0, n, nf, t, tf, nTo.View(), z, fields);
        AllocKeepsLog(mem0, n, nf, t, tf, nTo.View(), mlogTo, z, fields);
        mem := mem[x := Obj(z, fields)];
      }
    }
  }
}
