/**
 * The whole-run result for the N-generation collector: an application that keeps
 * its pointers in registered root slots cannot tell the collected heap from an
 * ideal one in which nothing is ever moved or reclaimed.
 */
module MutatorX1 {
  import opened Evacuation
  import opened Ideals
  import opened Stores
  import Logs
  import opened Turns
  import opened Depth
  import opened X1

  /** What the application sees of an object, but for what it refers to: not its age. */
  datatype Kind = Kind(tseq: nat, size: nat)

  const Look: Hdr -> Kind := (h: Hdr) => Kind(h.tseq, h.size)

  datatype Op =
    | New(r: nat, kind: Kind, init: seq<nat>) // r := a new object whose fields hold what the slots init hold
    | Load(r: nat, s: nat, i: nat)            // r := field i of what s points to
    | Store(s: nat, i: nat, r: nat)           // field i of what s points to := r
    | Copy(r: nat, s: nat)                    // r := s
    | Outside(r: nat, a: Addr)                // r := a pointer the collector does not own
    | AddRoot(r: nat)                         // a slot may be registered more than once
    | Collect(upto: nat)                      // the generations below upto

  /** What an operation means. Collections mean nothing at all. */
  function IdealStep(d: Ideal<Kind>, op: Op): Ideal<Kind> {
    match op
    case New(r, kind, init) => if MIN_SIZE <= kind.size then DoNew(d, r, kind, init) else d
    case Load(r, s, i) => DoLoad(d, r, s, i)
    case Store(s, i, r) => DoStore(d, s, i, r)
    case Copy(r, s) => DoCopy(d, r, s)
    case Outside(r, a) => DoOutside(d, r, a)
    case AddRoot(r) => DoAddRoot(d, r)
    case Collect(_) => d
  }

  function IdealRun(d: Ideal<Kind>, ops: seq<Op>): Ideal<Kind> {
    if ops == [] then d else IdealStep(IdealRun(d, ops[..|ops| - 1]), ops[|ops| - 1])
  }

  /** The collector's heap stands for the ideal heap d. */
  ghost predicate Represents(c: X1Collector, d: Ideal<Kind>, names: map<Addr, nat>)
    reads c
  {
    c.Valid() && Simulates(Look, d, c.mem, c.vars, c.rootv, names)
  }

  /** The collector owns the addresses it owned. */
  twostate predicate SameOwned(c: X1Collector)
    reads c
  {
    forall x: nat :: Stores.Foreign(c.to, c.fr, x) == old(Stores.Foreign(c.to, c.fr, x))
  }

  /** What HeapOk and RootsOk say about pointers, in the form the simulation uses. */
  lemma PointersAreOk(c: X1Collector)
    requires c.Valid()
    ensures forall a, i :: a in c.mem && c.mem[a].Obj? && 0 <= i < |c.mem[a].fields| ==>
      c.mem[a].fields[i] in c.mem || Stores.Foreign(c.to, c.fr, c.mem[a].fields[i])
    ensures forall r :: r in c.rootv ==> r in c.vars && (c.vars[r] in c.mem || Stores.Foreign(c.to, c.fr, c.vars[r]))
    ensures forall a :: a in c.mem ==> !Stores.Foreign(c.to, c.fr, a)
    ensures Stores.Foreign(c.to, c.fr, NULL)
  {
    hide Age2Gen, Listed, Metered, Logs.Remembered, Logs.LogsOk;
    forall a | a in c.mem ensures !Stores.Foreign(c.to, c.fr, a) {
      assert AtHome(c.cfg, c.to, c.mem[a], a);
      assert c.to[Age2Gen(c.cfg, c.mem[a].hdr.age)].Ok() && c.to[Age2Gen(c.cfg, c.mem[a].hdr.age)].Holds(a);
    }
  }

  // ---------------------------------------------------------------------------
  // Collections
  // ---------------------------------------------------------------------------

  lemma RangesAreOwned(to: seq<Space>, fr: seq<Space>, u: nat, to': seq<Space>, fr': seq<Space>, x: nat)
    requires |to| == |fr| && SameRanges(Exchanged(to, fr, u), to') && SameRanges(Exchanged(fr, to, u), fr')
    ensures Stores.Foreign(to', fr', x) == Stores.Foreign(to, fr, x)
  {
    ExchangeKeepsForeign(to, fr, u, x);
    RangesContain(Exchanged(to, fr, u), to', x);
    RangesContain(Exchanged(fr, to, u), fr', x);
  }

  lemma RangesContain(s: seq<Space>, s': seq<Space>, x: nat)
    requires SameRanges(s, s')
    ensures Contains(s', x) == Contains(s, x)
  {
    if Contains(s, x) { var g :| 0 <= g < |s| && s[g].Holds(x); assert s'[g].Holds(x); }
    if Contains(s', x) { var g :| 0 <= g < |s'| && s'[g].Holds(x); assert s[g].Holds(x); }
  }

  /** A survivor keeps its type and size. */
  lemma LooksStay(cfg: Config, e: Evac<Hdr>, a: Addr)
    requires Finished(e) && a in Remaining(e)
    requires forall o :: o in e.from && Copied(e, o) ==> OneStepUp(cfg, e.mem0, Remaining(e), o, Phi(e.mem, o))
    requires forall o :: o in e.mem0 && o !in e.from ==> StaysPut(e.mem0, Remaining(e), o)
    ensures LooksSame(Look, e, a)
  {
    hide Age2Gen, Finished;
    Ideals.OriginSurvives(e, a);
    var o := Origin(e, a);
    if o in e.from { assert OneStepUp(cfg, e.mem0, Remaining(e), o, Phi(e.mem, o)); } else {
      assert StaysPut(e.mem0, Remaining(e), o);
    }
  }

  /** A collection that ends well is invisible. */
  lemma CollectionIsInvisible(
      cfg: Config, d: Ideal<Kind>, e: Evac<Hdr>, vars0: map<nat, Addr>, rootv: seq<nat>, vars': map<nat, Addr>,
      names: map<Addr, nat>)
    requires Simulates(Look, d, e.mem0, vars0, rootv, names) && Finished(e) && Redirected(vars0, rootv, e, vars')
    requires forall o :: o in e.from && Copied(e, o) ==> OneStepUp(cfg, e.mem0, Remaining(e), o, Phi(e.mem, o))
    requires forall o :: o in e.mem0 && o !in e.from ==> StaysPut(e.mem0, Remaining(e), o)
    requires forall a, i :: a in e.mem0 && e.mem0[a].Obj? && 0 <= i < |e.mem0[a].fields| ==>
      e.mem0[a].fields[i] in e.mem0 || e.mem0[a].fields[i] !in Remaining(e)
    requires forall r :: r in rootv && r in vars0 ==> vars0[r] in e.mem0 || vars0[r] !in Remaining(e)
    ensures Simulates(Look, d, Remaining(e), vars', rootv, MovedNames(e, names))
  {
    forall a | a in Remaining(e) ensures LooksSame(Look, e, a) { LooksStay(cfg, e, a); }
    hide Finished, Simulates, Redirected, LooksSame, OneStepUp, StaysPut;
    MovingIsInvisible(Look, d, e, vars0, rootv, vars', names);
  }

  /** The collector's state before an operation that it could not carry out. */
  datatype Snapshot = Snapshot(mem: Mem<Hdr>, to: seq<Space>, fr: seq<Space>, vars: map<nat, Addr>, rootv: seq<nat>,
    logs: Logs.MutationLogs)

  ghost function State(c: X1Collector): Snapshot
    reads c
  {
    Snapshot(c.mem, c.to, c.fr, c.vars, c.rootv, c.logs)
  }

  /**
   * There was no room for the new object, or for all that a collection could have had to move, or
   * chains were longer than the stack.
   */
  ghost predicate CannotDo(cfg: Config, s: Snapshot, op: Op, fuel: nat) {
    match op
    case New(r, kind, init) => 0 < |s.to| && !s.to[0].Fits(kind.size)
    case Collect(u) =>
      && |s.to| == |s.fr|
      && (!Room(cfg, s.mem, Exchanged(s.to, s.fr, u), u) || !Shallow(cfg, s.mem, u, s.vars, s.rootv, s.logs.to, fuel))
    case _ => false
  }

  /** Collects the generations below u, if the configuration allows it, and drops what is left over in the logs. */
  method CollectNow(
      c: X1Collector, u: nat, fuel: nat, ghost d: Ideal<Kind>, ghost names: map<Addr, nat>)
    returns (ok: bool, ghost names': map<Addr, nat>)
    requires Represents(c, d, names)
    modifies c
    ensures ok ==> Represents(c, d, names') && SameOwned(c) && c.rootv == old(c.rootv)
    ensures !ok ==> CannotDo(c.cfg, old(State(c)), Collect(u), fuel)
  {
    hide X1Collector.Valid, X1Collector.HeapAndLogsOk, Simulates, Stores.Foreign, Room, Shallow, Finished, Age2Gen;
    hide OneStepUp, StaysPut, Redirected;
    hide Logs.Complete, Young, OldFields, RootSet, LogsFollow, LeftoversFollow, RootsAreShallow, TwiceIsShallow;
    hide SameRanges;
    ok, names' := true, names;
    if u <= c.cfg.n && (u == c.cfg.n || c.CanBePartial()) {
      PointersAreOk(c);
      if u != c.cfg.n { MayBePartial(c); }
      ghost var vars0, to0, fr0 := c.vars, c.to, c.fr;
      var r;
      ghost var e;
      r, e := c.ExecuteGc(u, fuel);
      if r != Fine { return false, names; }
      c.DropLeftovers();
      PointersAreOk(c);
      forall x: nat ensures Stores.Foreign(c.to, c.fr, x) == Stores.Foreign(to0, fr0, x) {
        RangesAreOwned(to0, fr0, u, c.to, c.fr, x);
      }
      CollectionIsInvisible(c.cfg, d, e, vars0, c.rootv, c.vars, names);
      names' := MovedNames(e, names);
    }
  }

  lemma MayBePartial(c: X1Collector)
    requires c.Valid() && c.CanBePartial()
    ensures Logs.Complete(c.cfg, c.mem, c.logs.to)
  {
    c.PartialIsSafe();
  }

  // ---------------------------------------------------------------------------
  // The other operations
  // ---------------------------------------------------------------------------

  /** r := a new object. */
  method CreateObject(
      c: X1Collector, r: nat, kind: Kind, init: seq<nat>, ghost d: Ideal<Kind>, ghost names: map<Addr, nat>)
    returns (ok: bool, ghost names': map<Addr, nat>)
    requires Represents(c, d, names) && r in c.rootv && MIN_SIZE <= kind.size && forall v :: v in init ==> v in c.rootv
    modifies c`mem, c`to, c`vars
    ensures ok ==> Represents(c, IdealStep(d, New(r, kind, init)), names') && SameOwned(c)
    ensures !ok ==> CannotDo(c.cfg, old(State(c)), New(r, kind, init), 0)
  {
    hide X1Collector.Valid, Simulates, Stores.Foreign, DoNew;
    PointersAreOk(c);
    ghost var mem0, to0 := c.mem, c.to;
    var x;
    ok, x := c.Alloc(kind.tseq, kind.size, init);
    names' := names;
    if ok {
      AllocIsOwned(to0, c.fr, kind.size, c.to);
      PointersAreOk(c);
      NewIsSimulated(Look, d, mem0, c.vars, c.rootv, names, r, Hdr(kind.tseq, 0, kind.size), kind, init, x);
      c.AssignVariable(r, x);
      names' := names[x := |d.objects|];
    }
  }

  lemma AllocIsOwned(to: seq<Space>, fr: seq<Space>, z: nat, to': seq<Space>)
    requires 0 < |to| && to' == to[0 := to[0].Alloc(z)]
    ensures forall x :: Stores.Foreign(to', fr, x) == Stores.Foreign(to, fr, x)
  {
    forall x ensures Contains(to', x) == Contains(to, x) { RangesContain(to, to', x); }
  }

  method LoadField(c: X1Collector, r: nat, s: nat, i: nat, ghost d: Ideal<Kind>, ghost names: map<Addr, nat>)
    requires Represents(c, d, names)
    modifies c`vars
    ensures Represents(c, IdealStep(d, Load(r, s, i)), names)
  {
    hide X1Collector.Valid, Simulates, Stores.Foreign;
    PointersAreOk(c);
    HasFieldInMemory(Look, d, c.mem, c.vars, c.rootv, names, s, i);
    RootsAgree(Look, d, c.mem, c.vars, c.rootv, names);
    if r in c.rootv && s in c.rootv && s in c.vars && c.vars[s] in c.mem && c.mem[c.vars[s]].Obj? {
      if i < |c.mem[c.vars[s]].fields| {
        var x := c.mem[c.vars[s]].fields[i];
        VariableIsSimulated(Look, d, c.mem, c.vars, c.rootv, names, r, x, Seen(names, x));
        c.AssignVariable(r, x);
      }
    }
  }

  method StoreField(c: X1Collector, s: nat, i: nat, r: nat, ghost d: Ideal<Kind>, ghost names: map<Addr, nat>)
    requires Represents(c, d, names)
    modifies c`mem, c`logs
    ensures Represents(c, IdealStep(d, Store(s, i, r)), names)
  {
    hide X1Collector.Valid, Simulates, Stores.Foreign;
    PointersAreOk(c);
    HasFieldInMemory(Look, d, c.mem, c.vars, c.rootv, names, s, i);
    RootsAgree(Look, d, c.mem, c.vars, c.rootv, names);
    if r in c.rootv && s in c.rootv && s in c.vars && c.vars[s] in c.mem && c.mem[c.vars[s]].Obj? {
      if i < |c.mem[c.vars[s]].fields| {
        StoreIsSimulated(Look, d, c.mem, c.vars, c.rootv, names, s, i, r);
        c.AssignMember(c.vars[s], i, c.vars[r]);
      }
    }
  }

  /** Assignments that read no memory: from another slot, or of a pointer to something outside. */
  method CopyVariable(c: X1Collector, r: nat, s: nat, ghost d: Ideal<Kind>, ghost names: map<Addr, nat>)
    requires Represents(c, d, names)
    modifies c`vars
    ensures Represents(c, IdealStep(d, Copy(r, s)), names)
  {
    hide X1Collector.Valid, Simulates, Stores.Foreign;
    PointersAreOk(c);
    RootsAgree(Look, d, c.mem, c.vars, c.rootv, names);
    if r in c.rootv && s in c.rootv {
      assert SameRoot(d, c.vars, names, s);
      VariableIsSimulated(Look, d, c.mem, c.vars, c.rootv, names, r, c.vars[s], d.vars[s]);
      c.AssignVariable(r, c.vars[s]);
    }
  }

  method PointOutside(c: X1Collector, r: nat, a: Addr, ghost d: Ideal<Kind>, ghost names: map<Addr, nat>)
    requires Represents(c, d, names) && Stores.Foreign(c.to, c.fr, a)
    modifies c`vars
    ensures Represents(c, IdealStep(d, Outside(r, a)), names)
  {
    hide X1Collector.Valid, Simulates, Stores.Foreign;
    PointersAreOk(c);
    RootsAgree(Look, d, c.mem, c.vars, c.rootv, names);
    if r in c.rootv {
      VariableIsSimulated(Look, d, c.mem, c.vars, c.rootv, names, r, a, Value.Foreign(a));
      c.AssignVariable(r, a);
    }
  }

  /** A new root slot starts as null; one that is registered again keeps its value. */
  method Register(c: X1Collector, r: nat, ghost d: Ideal<Kind>, ghost names: map<Addr, nat>)
    requires Represents(c, d, names)
    modifies c`vars, c`rootv
    ensures Represents(c, IdealStep(d, AddRoot(r)), names)
  {
    hide X1Collector.Valid, Simulates, Stores.Foreign;
    PointersAreOk(c);
    RootsAgree(Look, d, c.mem, c.vars, c.rootv, names);
    ghost var d1 := d;
    if r !in c.rootv {
      VariableIsSimulated(Look, d, c.mem, c.vars, c.rootv, names, r, NULL, Value.Foreign(NULL));
      c.AssignVariable(r, NULL);
      d1 := d.(vars := d.vars[r := Value.Foreign(NULL)]);
    }
    RegistrationIsSimulated(Look, d1, c.mem, c.vars, c.rootv, names, c.rootv + [r], d.roots + {r});
    c.AddGcRoot(r);
    assert r in d.roots ==> d.roots + {r} == d.roots;
  }

  // ---------------------------------------------------------------------------
  // Runs
  // ---------------------------------------------------------------------------

  /** Any one operation. */
  method Step(
      c: X1Collector, op: Op, fuel: nat, ghost d: Ideal<Kind>, ghost names: map<Addr, nat>)
    returns (ok: bool, ghost names': map<Addr, nat>)
    requires Represents(c, d, names) && (op.Outside? ==> Stores.Foreign(c.to, c.fr, op.a))
    modifies c
    ensures ok ==> Represents(c, IdealStep(d, op), names') && SameOwned(c)
    ensures !ok ==> CannotDo(c.cfg, old(State(c)), op, fuel)
  {
    hide X1Collector.Valid, Simulates, Stores.Foreign, Room, Shallow;
    ok, names' := true, names;
    match op {
      case New(r, kind, init) =>
        RootsAgree(Look, d, c.mem, c.vars, c.rootv, names);
        if r in c.rootv && MIN_SIZE <= kind.size && forall v :: v in init ==> v in c.rootv {
          ok, names' := CreateObject(c, r, kind, init, d, names);
        }
      case Load(r, s, i) => LoadField(c, r, s, i, d, names);
      case Store(s, i, r) => StoreField(c, s, i, r, d, names);
      case Copy(r, s) => CopyVariable(c, r, s, d, names);
      case Outside(r, a) => PointOutside(c, r, a, d, names);
      case AddRoot(r) => Register(c, r, d, names);
      case Collect(u) => ok, names' := CollectNow(c, u, fuel, d, names);
    }
  }

  /**
   * Main result: after any run of operations, with collections of any generations
   * in between, the heap stands for the one an ideal heap without any collector
   * would have reached. A run stops early only at an operation for which, in the
   * heap that stood for the ideal one until then, there was no room or no stack.
   */
  method Run(c: X1Collector, ops: seq<Op>, fuel: nat, ghost d: Ideal<Kind>, ghost names: map<Addr, nat>)
    returns (done: nat, ghost names': map<Addr, nat>, ghost last: Snapshot)
    requires Represents(c, d, names)
    requires forall op :: op in ops && op.Outside? ==> Stores.Foreign(c.to, c.fr, op.a)
    modifies c
    ensures done <= |ops|
    ensures done == |ops| ==> Represents(c, IdealRun(d, ops), names') && SameOwned(c)
    ensures done < |ops| ==>
      && Simulates(Look, IdealRun(d, ops[..done]), last.mem, last.vars, last.rootv, names')
      && CannotDo(c.cfg, last, ops[done], fuel)
  {
    hide Simulates, X1Collector.Valid, IdealStep, Stores.Foreign, CannotDo;
    done, names', last := 0, names, State(c);
    assert ops[..0] == [];
    while done < |ops|
      invariant 0 <= done <= |ops|
      invariant Represents(c, IdealRun(d, ops[..done]), names') && SameOwned(c)
    {
      var ok;
      assert ops[done] in ops;
      assert ops[..done + 1][..done] == ops[..done];
      last := State(c);
      ghost var names1;
      ok, names1 := Step(c, ops[done], fuel, IdealRun(d, ops[..done]), names');
      if !ok { return; }
      names' := names1;
      done := done + 1;
    }
    assert ops[..done] == ops;
  }
}
