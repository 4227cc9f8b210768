/**
 * The whole-run result for the two-generation collector: an application that keeps its pointers in registered
 * root variables cannot tell the collected heap from an ideal one in which
 * nothing is ever moved or reclaimed.
 */
module Mutator {
  import opened Evacuation
  import opened Ideals
  import opened Layout
  import opened Arenas
  import opened Generations
  import opened Cycles
  import opened Collector

  // ---------------------------------------------------------------------------
  // Operations and their meaning
  // ---------------------------------------------------------------------------

  datatype Op =
    | New(r: nat, size: nat, init: seq<nat>)  // r := a new object whose fields hold what the variables init hold
    | Load(r: nat, s: nat, i: nat)            // r := field i of what s points to
    | Store(s: nat, i: nat, r: nat)           // field i of what s points to := r
    | Copy(r: nat, s: nat)                    // r := s
    | Outside(r: nat, a: Addr)                // r := a pointer the collector does not own
    | AddRoot(r: nat)
    | RemoveRoot(r: nat)
    | Collect(full: bool)
    | Checkpoint
    | Disable
    | Enable

  /** What an operation means. One that does not apply does nothing. Collections mean nothing at all. */
  function IdealStep(d: Ideal<nat>, op: Op): Ideal<nat> {
    match op
    case New(r, size, init) => if MIN_OBJECT <= size then DoNew(d, r, size, init) else d
    case Load(r, s, i) => DoLoad(d, r, s, i)
    case Store(s, i, r) => DoStore(d, s, i, r)
    case Copy(r, s) => DoCopy(d, r, s)
    case Outside(r, a) => DoOutside(d, r, a)
    case AddRoot(r) => DoAddRoot(d, r)
    case RemoveRoot(r) => d.(roots := d.roots - {r})
    case _ => d
  }

  function IdealRun(d: Ideal<nat>, ops: seq<Op>): Ideal<nat> {
    if ops == [] then d else IdealStep(IdealRun(d, ops[..|ops| - 1]), ops[|ops| - 1])
  }

  /** All that the application sees of an object, but for what it refers to, is its size. */
  const Look: nat -> nat := size => size

  // ---------------------------------------------------------------------------
  // A collection is invisible
  // ---------------------------------------------------------------------------

  /** Whatever a collection copied or reclaimed, the same ideal heap is still simulated. */
  lemma CollectionIsInvisible(
      d: Ideal<nat>, e: Evac<nat>, full: bool, mem0: Mem<nat>, n0: Arena, t0: Arena, vars0: map<nat, Addr>,
      rootv: seq<nat>,
      mem': Mem<nat>, vars': map<nat, Addr>, names: map<Addr, nat>)
    requires Simulates(Look, d, mem0, vars0, rootv, names)
    requires Collects(e, full, mem0, n0, t0, vars0, rootv, mem', vars')
    requires forall a, i :: a in mem0 && mem0[a].Obj? && 0 <= i < |mem0[a].fields| ==>
      mem0[a].fields[i] in mem0 || mem0[a].fields[i] !in mem'
    requires forall r :: r in rootv && r in vars0 ==> vars0[r] in mem0 || vars0[r] !in mem'
    ensures Simulates(Look, d, mem', vars', rootv, MovedNames(e, names))
  {
    hide Finished, Simulates, OldFields, RootSet, Redirected;
    MovingIsInvisible(Look, d, e, vars0, rootv, vars', names);
  }

  // ---------------------------------------------------------------------------
  // Runs of the real collector
  // ---------------------------------------------------------------------------

  /** The collector's heap stands for the ideal heap d. */
  ghost predicate Represents(gc: GC, d: Ideal<nat>, names: map<Addr, nat>)
    reads gc, gc.nTo, gc.nFrom, gc.tTo, gc.tFrom
  {
    gc.Valid() && Simulates(Look, d, gc.mem, gc.vars, gc.rootv, names)
  }

  /** The collector still uses the same four spaces. */
  twostate predicate SameSpaces(gc: GC)
    reads gc, gc.nTo, gc.nFrom, gc.tTo, gc.tFrom
  {
    {gc.nTo, gc.nFrom, gc.tTo, gc.tFrom} == old({gc.nTo, gc.nFrom, gc.tTo, gc.tFrom}) && gc.SameReserve()
  }

  /** No more than the threshold and most bytes have been allocated in the nursery since the last collection. */
  predicate NurseryBounded(gc: GC, most: nat)
    reads gc, gc.nTo
  {
    gc.gcEnabled == 0 && !gc.incrPending && gc.nTo.free - gc.nTo.checkpoint <= gc.incrThreshold + most
  }

  /** The operation leaves collections enabled and creates no object of more than most bytes. */
  predicate AtMost(op: Op, most: nat) {
    !op.Disable? && !op.Enable? && (op.New? ==> WithPadding(op.size) <= most)
  }

  /** Collections of the nursery come in time. */
  twostate predicate StaysBounded(gc: GC, most: nat)
    reads gc, gc.nTo
  {
    old(NurseryBounded(gc, most)) ==> NurseryBounded(gc, most)
  }

  lemma NurseryHasSize(gc: GC)
    requires gc.Valid()
    ensures gc.nTo.lo <= gc.nTo.hi
  {
    hide HeapObjects, HeapTiles, HeapPointers, Remembered, LogOk, GC.RootsOk;
  }

  /** What HeapOk and RootsOk say about pointers, in the form the simulation uses. */
  lemma PointersAreOk(gc: GC)
    requires gc.Valid()
    ensures forall a, i :: a in gc.mem && gc.mem[a].Obj? && 0 <= i < |gc.mem[a].fields| ==>
      gc.mem[a].fields[i] in gc.mem || !gc.Owns(gc.mem[a].fields[i])
    ensures forall r :: r in gc.rootv && r in gc.vars ==> gc.vars[r] in gc.mem || !gc.Owns(gc.vars[r])
    ensures forall a :: a in gc.mem ==> gc.Owns(a)
  {
    hide HeapTiles, Remembered, LogOk, Arena.Aligned;
    HeapIsAllocated(gc.mem, gc.nTo.View(), gc.nFrom.View(), gc.tTo.View(), gc.tFrom.View());
  }

  lemma NullIsOutside(gc: GC)
    requires gc.Valid()
    ensures NULL !in gc.mem && gc.PointerOk(NULL)
  {
    hide HeapTiles, HeapPointers, Remembered, LogOk, Arena.Aligned, GC.RootsOk;
    HeapIsAllocated(gc.mem, gc.nTo.View(), gc.nFrom.View(), gc.tTo.View(), gc.tFrom.View());
  }

  /** A request to collect, whether or not it runs, is invisible. */
  method CollectNow(
      gc: GC, full: bool, ghost d: Ideal<nat>, ghost names: map<Addr, nat>)
    returns (ok: bool, ghost names': map<Addr, nat>)
    requires Represents(gc, d, names)
    modifies gc, gc.nTo, gc.nFrom, gc.tTo, gc.tFrom
    ensures ok ==> Represents(gc, d, names')
    ensures ok ==> SameSpaces(gc) && (old(gc.PromotionBounded()) ==> gc.PromotionBounded())
    ensures ok ==> forall most :: StaysBounded(gc, most)
    ensures !ok ==> gc.inProgress && !old(gc.RoomToSwap(gc.nTo.View(), gc.nFrom.View(), gc.tTo.View()))
  {
    hide GC.Valid, Simulates, Collects, External;
    PointersAreOk(gc);
    ghost var e;
    ghost var mem0, n0, t0, vars0 := gc.mem, gc.nTo.View(), gc.tTo.View(), gc.vars;
    ghost var needFull := gc.NeedFullGc(full);
    ok, e := gc.RequestGc(full);
    names' := names;
    if ok && gc.gcEnabled == 0 {
      PointersAreOk(gc);
      CollectionIsInvisible(d, e, needFull, mem0, n0, t0, vars0, gc.rootv, gc.mem, gc.vars, names);
      names' := MovedNames(e, names);
    }
  }

  /** r := a new object; a collection may run first. */
  method CreateObject(gc: GC, r: nat, z: nat, init: seq<nat>, ghost d: Ideal<nat>, ghost names: map<Addr, nat>)
    returns (ok: bool, ghost names': map<Addr, nat>)
    requires Represents(gc, d, names) && r in gc.rootv && MIN_OBJECT <= z && forall v :: v in init ==> v in gc.rootv
    modifies gc, gc.nTo, gc.nFrom, gc.tTo, gc.tFrom
    ensures ok ==> Represents(gc, IdealStep(d, New(r, z, init)), names')
    ensures ok ==> SameSpaces(gc) && (old(gc.PromotionBounded()) ==> gc.PromotionBounded())
    ensures ok ==> forall most :: WithPadding(z) <= most ==> StaysBounded(gc, most)
    ensures !ok ==> if gc.inProgress then !old(gc.RoomToSwap(gc.nTo.View(), gc.nFrom.View(), gc.tTo.View()))
                    else gc.Valid() && gc.nTo.free + WithPadding(z) > gc.nTo.hi
  {
    hide GC.Valid, Simulates, Collects, External, DoNew;
    PointersAreOk(gc);
    ghost var mem0, n0, t0, vars0 := gc.mem, gc.nTo.View(), gc.tTo.View(), gc.vars;
    ghost var needFull := gc.NeedFullGc(false);
    var x;
    ghost var ran, e, mem1;
    ok, x, ran, e, mem1 := gc.Alloc(z, init);
    names' := names;
    if ok {
      PointersAreOk(gc);
      if ran {
        CollectionIsInvisible(d, e, needFull, mem0, n0, t0, vars0, gc.rootv, mem1, gc.vars, names);
        names' := MovedNames(e, names);
      }
      NewIsSimulated(Look, d, mem1, gc.vars, gc.rootv, names', r, z, z, init, x);
      gc.AssignVariable(r, x);
      names' := names'[x := |d.objects|];
    }
  }

  method LoadField(gc: GC, r: nat, s: nat, i: nat, ghost d: Ideal<nat>, ghost names: map<Addr, nat>)
    requires Represents(gc, d, names)
    modifies gc`vars
    ensures Represents(gc, IdealStep(d, Load(r, s, i)), names)
  {
    hide GC.Valid, Simulates, External;
    PointersAreOk(gc);
    HasFieldInMemory(Look, d, gc.mem, gc.vars, gc.rootv, names, s, i);
    RootsAgree(Look, d, gc.mem, gc.vars, gc.rootv, names);
    if r in gc.rootv && s in gc.rootv && s in gc.vars && gc.vars[s] in gc.mem && gc.mem[gc.vars[s]].Obj? {
      if i < |gc.mem[gc.vars[s]].fields| {
        var x := gc.mem[gc.vars[s]].fields[i];
        VariableIsSimulated(Look, d, gc.mem, gc.vars, gc.rootv, names, r, x, Seen(names, x));
        gc.AssignVariable(r, x);
      }
    }
  }

  method StoreField(gc: GC, s: nat, i: nat, r: nat, ghost d: Ideal<nat>, ghost names: map<Addr, nat>)
    requires Represents(gc, d, names)
    modifies gc`mem, gc`mlogTo
    ensures Represents(gc, IdealStep(d, Store(s, i, r)), names)
  {
    hide Simulates, External, HeapOk, Remembered, LogOk, GC.RootsOk;
    PointersAreOk(gc);
    HasFieldInMemory(Look, d, gc.mem, gc.vars, gc.rootv, names, s, i);
    RootsAgree(Look, d, gc.mem, gc.vars, gc.rootv, names);
    if r in gc.rootv && s in gc.rootv && s in gc.vars && gc.vars[s] in gc.mem && gc.mem[gc.vars[s]].Obj? {
      if i < |gc.mem[gc.vars[s]].fields| {
        StoreIsSimulated(Look, d, gc.mem, gc.vars, gc.rootv, names, s, i, r);
        gc.AssignMember(gc.vars[s], i, gc.vars[r]);
      }
    }
  }

  /** Assignments that read no memory: from another variable, or of a pointer to something outside. */
  method CopyVariable(gc: GC, r: nat, s: nat, ghost d: Ideal<nat>, ghost names: map<Addr, nat>)
    requires Represents(gc, d, names)
    modifies gc`vars
    ensures Represents(gc, IdealStep(d, Copy(r, s)), names)
  {
    hide GC.Valid, Simulates, External;
    PointersAreOk(gc);
    RootsAgree(Look, d, gc.mem, gc.vars, gc.rootv, names);
    if r in gc.rootv && s in gc.rootv {
      assert SameRoot(d, gc.vars, names, s);
      VariableIsSimulated(Look, d, gc.mem, gc.vars, gc.rootv, names, r, gc.vars[s], d.vars[s]);
      gc.AssignVariable(r, gc.vars[s]);
    }
  }

  method PointOutside(gc: GC, r: nat, a: Addr, ghost d: Ideal<nat>, ghost names: map<Addr, nat>)
    requires Represents(gc, d, names) && !gc.Owns(a)
    modifies gc`vars
    ensures Represents(gc, IdealStep(d, Outside(r, a)), names)
  {
    hide GC.Valid, Simulates, External;
    PointersAreOk(gc);
    RootsAgree(Look, d, gc.mem, gc.vars, gc.rootv, names);
    if r in gc.rootv {
      VariableIsSimulated(Look, d, gc.mem, gc.vars, gc.rootv, names, r, a, Foreign(a));
      gc.AssignVariable(r, a);
    }
  }

  /** A new root starts as null. */
  method Register(gc: GC, r: nat, ghost d: Ideal<nat>, ghost names: map<Addr, nat>)
    requires Represents(gc, d, names)
    modifies gc`vars, gc`rootv
    ensures Represents(gc, IdealStep(d, AddRoot(r)), names)
  {
    hide GC.Valid, Simulates, External;
    RootsAgree(Look, d, gc.mem, gc.vars, gc.rootv, names);
    NullIsOutside(gc);
    if r !in gc.rootv {
      VariableIsSimulated(Look, d, gc.mem, gc.vars, gc.rootv, names, r, NULL, Foreign(NULL));
      gc.AssignVariable(r, NULL);
      RegistrationIsSimulated(Look, d.(vars := d.vars[r := Foreign(NULL)]), gc.mem, gc.vars, gc.rootv, names,
        gc.rootv + [r], d.roots + {r});
      gc.AddGcRoot(r);
    }
  }

  method Unregister(gc: GC, r: nat, ghost d: Ideal<nat>, ghost names: map<Addr, nat>)
    requires Represents(gc, d, names)
    modifies gc`rootv
    ensures Represents(gc, IdealStep(d, RemoveRoot(r)), names)
  {
    hide GC.Valid, Simulates;
    RootsAgree(Look, d, gc.mem, gc.vars, gc.rootv, names);
    ghost var rootv := gc.rootv;
    gc.RemoveGcRoot(r);
    RegistrationIsSimulated(Look, d, gc.mem, gc.vars, rootv, names, gc.rootv, d.roots - {r});
  }

  /** Enabling collections may run the one that is pending. */
  method EnableNow(
      gc: GC, ghost d: Ideal<nat>, ghost names: map<Addr, nat>)
    returns (ok: bool, ghost names': map<Addr, nat>)
    requires Represents(gc, d, names)
    modifies gc, gc.nTo, gc.nFrom, gc.tTo, gc.tFrom
    ensures ok ==> Represents(gc, d, names') && SameSpaces(gc) && (old(gc.PromotionBounded()) ==> gc.PromotionBounded())
    ensures !ok ==> gc.inProgress && !old(gc.RoomToSwap(gc.nTo.View(), gc.nFrom.View(), gc.tTo.View()))
  {
    hide GC.Valid, Simulates, Collects, External;
    PointersAreOk(gc);
    ghost var e, ran;
    ghost var mem0, n0, t0, vars0 := gc.mem, gc.nTo.View(), gc.tTo.View(), gc.vars;
    ghost var needFull := gc.NeedFullGc(gc.fullPending);
    ok, ran, e := gc.EnableGc();
    names' := names;
    if ok && ran {
      PointersAreOk(gc);
      CollectionIsInvisible(d, e, needFull, mem0, n0, t0, vars0, gc.rootv, gc.mem, gc.vars, names);
      names' := MovedNames(e, names);
    }
  }

  /**
   * The state in which an operation has failed: a collection could not begin
   * for lack of reserve, or the nursery cannot hold the new object.
   */
  ghost predicate OutOfMemory(gc: GC, op: Op)
    reads gc, gc.nTo
  {
    gc.inProgress || (op.New? && gc.nTo.free + WithPadding(op.size) > gc.nTo.hi)
  }

  /** Any one operation. It fails only where the original throws, for lack of memory. */
  method Step(
      gc: GC, op: Op, ghost d: Ideal<nat>, ghost names: map<Addr, nat>)
    returns (ok: bool, ghost names': map<Addr, nat>)
    requires Represents(gc, d, names) && (op.Outside? ==> !gc.Owns(op.a))
    modifies gc, gc.nTo, gc.nFrom, gc.tTo, gc.tFrom
    ensures ok ==> Represents(gc, IdealStep(d, op), names') && SameSpaces(gc)
    ensures ok && old(gc.PromotionBounded()) ==> gc.PromotionBounded()
    ensures ok ==> forall most :: AtMost(op, most) ==> StaysBounded(gc, most)
    ensures !ok && gc.inProgress ==> !old(gc.RoomToSwap(gc.nTo.View(), gc.nFrom.View(), gc.tTo.View()))
    ensures !ok ==> OutOfMemory(gc, op)
  {
    hide GC.Valid, Simulates, External, HasField;
    NurseryHasSize(gc);
    ok, names' := true, names;
    match op {
      case New(r, size, init) =>
        RootsAgree(Look, d, gc.mem, gc.vars, gc.rootv, names);
        if r in gc.rootv && MIN_OBJECT <= size && forall v :: v in init ==> v in gc.rootv {
          ok, names' := CreateObject(gc, r, size, init, d, names);
        }
      case Load(r, s, i) => LoadField(gc, r, s, i, d, names);
      case Store(s, i, r) => StoreField(gc, s, i, r, d, names);
      case Copy(r, s) => CopyVariable(gc, r, s, d, names);
      case Outside(r, a) => PointOutside(gc, r, a, d, names);
      case AddRoot(r) => Register(gc, r, d, names);
      case RemoveRoot(r) => Unregister(gc, r, d, names);
      case Collect(full) => ok, names' := CollectNow(gc, full, d, names);
      case Checkpoint => gc.Checkpoint();
      case Disable => gc.DisableGc();
      case Enable => ok, names' := EnableNow(gc, d, names);
    }
  }

  /**
   * Main result: after any run of operations, with collections whenever they are
   * requested or fall due, the heap stands for the one an ideal heap without any
   * collector would have reached. All that time no more than its threshold and one
   * nursery has been promoted since the last full collection, and while collections
   * stay enabled no more than its threshold and the largest object has been allocated
   * since the last one of the nursery.
   */
  method Run(
      gc: GC, ops: seq<Op>, ghost d: Ideal<nat>, ghost names: map<Addr, nat>, ghost most: nat)
    returns (done: nat, ghost names': map<Addr, nat>)
    requires Represents(gc, d, names)
    requires forall op :: op in ops && op.Outside? ==> !gc.Owns(op.a)
    modifies gc, gc.nTo, gc.nFrom, gc.tTo, gc.tFrom
    ensures done <= |ops|
    ensures done == |ops| ==> Represents(gc, IdealRun(d, ops), names') && SameSpaces(gc)
    ensures done == |ops| && old(gc.tTo.free - gc.tTo.checkpoint <= gc.fullThreshold + (gc.nTo.hi - gc.nTo.lo)) ==>
      gc.tTo.free - gc.tTo.checkpoint <= gc.fullThreshold + (gc.nTo.hi - gc.nTo.lo)
    ensures done == |ops| && (forall op :: op in ops ==> AtMost(op, most)) && old(NurseryBounded(gc, most)) ==>
      gc.nTo.free - gc.nTo.checkpoint <= gc.incrThreshold + most
    ensures done < |ops| ==> OutOfMemory(gc, ops[done])
  {
    hide Simulates, GC.Valid, IdealStep, External;
    done, names' := 0, names;
    assert ops[..0] == [];
    while done < |ops|
      invariant 0 <= done <= |ops|
      invariant Represents(gc, IdealRun(d, ops[..done]), names') && SameSpaces(gc)
      invariant old(gc.PromotionBounded()) ==> gc.PromotionBounded()
      invariant (forall op :: op in ops ==> AtMost(op, most)) && old(NurseryBounded(gc, most)) ==>
        NurseryBounded(gc, most)
    {
      var ok;
      assert ops[done] in ops;
      assert ops[..done + 1][..done] == ops[..done];
      ok, names' := Step(gc, ops[done], IdealRun(d, ops[..done]), names');
      if !ok { return; }
      done := done + 1;
    }
    assert ops[..done] == ops;
  }
}
