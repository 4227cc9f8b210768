/**
 * The N-generation collector: evacuation by age, with a gray pointer for each
 * generation, and a forwarding step that looks into every object it meets
 * outside from-space.
 */
module X1 {
  import opened Evacuation
  import opened Stores
  import opened Logs
  import opened Turns
  import opened Depth
  import opened Recursion
  import opened Retirement
  import opened Verification

  /**
   * How a step of a collection ended. The original has no name for the two bad
   * ends: it writes through a null pointer when to-space is exhausted, and
   * overruns the stack when forwarding recurses too deeply.
   */
  datatype Outcome = Fine | OutOfSpace | TooDeep

  class X1Collector {
    const cfg: Config
    const logging: bool

    // the spaces of each generation; to- and from-space of the collected generations exchange roles
    var to: seq<Space>
    var fr: seq<Space>
    var mem: Mem<Hdr>

    // the root slots, and which of them are registered
    var vars: map<nat, Addr>
    var rootv: seq<nat>

    // generations below this one are being collected
    var upto: nat

    // the mutation logs of each generation but the last
    var logs: MutationLogs

    // what the last check of the heap found
    var stats: VerifyStats

    // the collection in progress
    ghost var mem0: Mem<Hdr>
    ghost var from: set<Addr>
    ghost var starts: set<Addr>
    ghost var src: map<Addr, Addr>
    ghost var hist: LogHistory

    /** Reserves z bytes for each generation and role, at addresses the operating system chose. */
    constructor (cfg: Config, logging: bool, z: nat, a: seq<nat>, b: seq<nat>)
      requires |a| == |b| == cfg.n && forall x :: x in a + b ==> 0 < x
      requires forall i, j :: 0 <= i < j < |a + b| ==> (a + b)[i] + z <= (a + b)[j] || (a + b)[j] + z <= (a + b)[i]
      ensures this.cfg == cfg && this.logging == logging && Valid()
      ensures mem == map[] && vars == map[] && rootv == [] && logs.to == Empties(cfg.n - 1)
      ensures |to| == |fr| == cfg.n
      ensures forall g :: 0 <= g < cfg.n ==>
        to[g] == Space(a[g], a[g] + z, 0, []) && fr[g] == Space(b[g], b[g] + z, 0, [])
    {
      this.cfg, this.logging := cfg, logging;
      to, fr := Reserved(a, z), Reserved(b, z);
      mem, vars, rootv, upto := map[], map[], [], 0;
      logs := MutationLogs(Empties(cfg.n - 1), Empties(cfg.n - 1), Empties(cfg.n - 1));
      stats := NoStats;
      new;
      ReservedIsApart(a, b, z);
    }

    ghost function E(): Evac<Hdr>
      reads this
    {
      Evac(mem0, mem, from, starts, src)
    }

    ghost function T(): Turn
      reads this
    {
      Turn(cfg, upto, fr)
    }

    /** The invariant while a collection runs. */
    ghost predicate Busy()
      reads this
    {
      Moving(T(), E(), to)
    }

    twostate predicate Went()
      reads this
    {
      Later(old(E()), old(to), E(), to)
    }

    /** An object that is still to be moved has no room where it is to go. */
    ghost predicate Exhausted()
      reads this
    {
      exists x :: x in from && x in mem && mem[x].Obj? && x in mem0 && mem0[x].Obj? && |to| == cfg.n
        && !to[Target(T(), E(), x)].Fits(mem0[x].hdr.size)
    }

    /** Why a step ended badly: no room, or a chain of references longer than the stack. */
    ghost predicate Explains(r: Outcome, fuel: nat)
      reads this
    {
      && (r == OutOfSpace ==> Exhausted())
      && (r == TooDeep ==> exists x :: !Returns(mem, x, fuel))
    }

    /** Is the object with this header, which lies in from-space, subject to the collection? */
    predicate CheckMovePolicy(h: Hdr)
      reads this
    {
      Age2Gen(cfg, h.age) < upto
    }

    /**
     * Copies x to the generation its new age calls for, and overwrites it with a
     * forwarding pointer.
     */
    method ShallowMove(x: Addr) returns (r: Outcome, dest: Addr)
      requires Busy() && x in from && x in mem && mem[x].Obj? && Live(mem0, from, starts, x)
      modifies this`mem, this`to, this`src
      ensures Busy() && Went()
      ensures x in mem0 && mem0[x].Obj? && |old(to)| == cfg.n && r != TooDeep
      ensures r == OutOfSpace <==> !old(to)[Target(T(), old(E()), x)].Fits(mem0[x].hdr.size)
      ensures r == OutOfSpace ==> mem == old(mem) && to == old(to) && src == old(src) && Exhausted()
      ensures r == Fine ==> dest == Phi(mem, x) && dest !in from && x in mem && mem[x] == Fwd(dest)
      ensures forall a :: a in old(mem) && a != x ==> a in mem && mem[a] == old(mem)[a]
      ensures forall f, d :: Quiet(f, old(E()), E(), d)
    {
      hide Moving, Age2Gen, Live, Later, Quiet;
      Movable(T(), E(), to, x);
      var h := mem[x].hdr;
      var g := Age2Gen(cfg, NextAge(h.age));
      if !to[g].Fits(h.size) {
        LaterIsReflexive(E(), to);
        forall f, d ensures Quiet(f, E(), E(), d) { NothingIsQuiet(f, E(), d); }
        return OutOfSpace, NULL;
      }
      dest := to[g].Next();
      MoveKeepsMoving(T(), E(), to, x);
      MoveIsLater(T(), E(), to, x);
      forall f, d ensures Quiet(f, E(), CopyStep(E(), x, dest, Copy(mem[x])), d) { MoveIsQuiet(f, E(), x, dest, d); }
      ghost var e' := CopyStep(E(), x, dest, Copy(mem[x]));
      to := to[g := to[g].Alloc(h.size)];
      mem := mem[dest := Copy(mem[x])][x := Fwd(dest)];
      src := src[dest := x];
      assert E() == e';
      r := Fine;
    }

    /**
     * Forwards field i of the object at d. A pointer into from-space is
     * redirected; behind any other pointer, the children are looked into.
     * fuel is the stack left.
     */
    method ForwardInplace(d: Addr, i: nat, fuel: nat) returns (r: Outcome)
      requires Busy() && d in mem && d !in from && mem[d].Obj? && i < |mem[d].fields|
      modifies this`mem, this`to, this`src
      ensures Explains(r, fuel)
      ensures Busy() && Went()
      ensures d in mem && mem[d].Obj? && |mem[d].fields| == |old(mem[d].fields)|
      ensures r == Fine ==> Reached(E(), mem[d].fields[i])
      ensures r == TooDeep ==> !Returns(mem, mem[d].fields[i], fuel)
      ensures r == Fine ==> ChildReturns(old(Origin(E(), d)), i, fuel)
      ensures old(Plain(T(), E(), to, fuel, mem[d].fields[i])) ==>
        && r != TooDeep && Quiet(fuel, old(E()), E(), d)
        && (Short(E(), fuel, d) || forall j :: 0 <= j < |mem[d].fields| && j != i ==>
          mem[d].fields[j] == old(mem[d].fields[j]))
      ensures old(mem[d].fields[i] !in from && WhiteFrom(E(), mem[d].fields[i])) ==>
        Idle() && r != OutOfSpace && (r == Fine <==> Returns(mem, mem[d].fields[i], fuel))
      decreases fuel, 0
    {
      hide Moving, Age2Gen, Live, Later, Quiet, Foreign, Contains, Plain, Short, Scanned, WhiteFrom, OldReturns;
      ghost var e, t := E(), to;
      FieldIsReady(T(), e, t, d, i);
      FieldOrigin(T(), e, t, d, i);
      if mem[d].fields[i] in from || mem[d].fields[i] !in mem { LeafReturns(T(), e, t, mem[d].fields[i], fuel); }
      NullIsForeign(T(), e, t);
      LaterIsReflexive(e, t);
      NothingIsQuiet(fuel, e, d);
      var x := mem[d].fields[i];
      FromByAddress(T(), e, t, x);
      if x == NULL {
        return Fine;
      }
      if !Contains(fr, x) {
        if x in mem {
          if Plain(T(), e, t, fuel, x) { PlainIsShort(T(), e, t, fuel, x); }
          if fuel == 0 {
            assert !Returns(mem, x, fuel);
            return TooDeep;
          }
          r := VisitChildren(x, fuel - 1);
          ObjectStays(e, t, E(), to, d);
          if Plain(T(), e, t, fuel, x) { AfterDeeper(T(), fuel, e, t, E(), to, x, d); }
          assert r == TooDeep ==> !Returns(mem, x, fuel);
          if r == Fine { VisitReturns(T(), e, t, x, fuel); }
        } else {
          // objects the collector does not own have no children of interest
          r := Fine;
        }
        return;
      }
      r := ForwardFromField(d, i, fuel);
    }

    /** The same for a pointer into from-space. */
    method ForwardFromField(d: Addr, i: nat, ghost fuel: nat) returns (r: Outcome)
      requires Busy() && d in mem && d !in from && mem[d].Obj? && i < |mem[d].fields|
      requires mem[d].fields[i] in from && Live(mem0, from, starts, mem[d].fields[i])
      modifies this`mem, this`to, this`src
      ensures Busy() && Went() && r != TooDeep && (r == OutOfSpace ==> Exhausted())
      ensures d in mem && mem[d].Obj? && |mem[d].fields| == |old(mem[d].fields)|
      ensures r == Fine ==> Reached(E(), mem[d].fields[i])
      ensures Quiet(fuel, old(E()), E(), d)
      ensures forall j :: 0 <= j < |mem[d].fields| && j != i ==> mem[d].fields[j] == old(mem[d].fields[j])
    {
      hide Moving, Age2Gen, Live, Later, Quiet;
      ghost var e, t := E(), to;
      NothingIsQuiet(fuel, e, d);
      var x := mem[d].fields[i];
      MemoryOf(T(), e, t);
      if mem[x].Fwd? {
        ForwardedMeans(T(), e, t, x);
        Redirect(d, i, mem[x].dest);
        QuietFix(fuel, e, e, E(), d);
        r := Fine;
      } else if CheckMovePolicy(mem[x].hdr) {
        var dest;
        r, dest := ShallowMove(x);
        ObjectStays(e, t, E(), to, d);
        if r == Fine {
          ghost var e1, t1 := E(), to;
          Redirect(d, i, dest);
          LaterTrans(e, t, e1, t1, E(), to);
          QuietFix(fuel, e, e1, E(), d);
          ForwardedMeans(T(), e1, t1, x);
        }
      } else {
        Movable(T(), e, t, x);
        assert false;
      }
    }

    /** Field i of the object at d, a pointer into from-space, is redirected to where its target is now. */
    method Redirect(d: Addr, i: nat, dest: Addr)
      requires Busy() && d in mem && mem[d].Obj? && i < |mem[d].fields|
      requires mem[d].fields[i] in from && dest == Phi(mem, mem[d].fields[i]) && dest !in from
      modifies this`mem
      ensures Busy() && Went()
      ensures mem == old(mem)[d := old(mem)[d].(fields := old(mem)[d].fields[i := dest])]
    {
      hide Moving, Later, Phi;
      FixKeepsMoving(T(), E(), to, d, i);
      FixIsLater(E(), to, d, i);
      ghost var e' := SetField(E(), d, i, dest);
      mem := mem[d := mem[d].(fields := mem[d].fields[i := dest])];
      assert E() == e';
    }

    /** Forwards every field of the object at d. */
    method VisitChildren(d: Addr, fuel: nat) returns (r: Outcome)
      requires Busy() && d in mem && d !in from && mem[d].Obj?
      modifies this`mem, this`to, this`src
      ensures Explains(r, fuel)
      ensures Busy() && Went() && d in mem && mem[d].Obj?
      ensures r == Fine ==> Scanned(E(), d)
      ensures r == TooDeep ==> !AllReturn(d, fuel)
      ensures r == Fine ==> ChildrenReturn(mem0, from, old(Origin(E(), d)), fuel)
      ensures old(AllPlain(d, 0, fuel)) ==> r != TooDeep && Quiet(fuel, old(E()), E(), d)
      ensures old(WhiteFrom(E(), d)) ==> Idle() && r != OutOfSpace && (r == Fine <==> AllReturn(d, fuel))
      decreases fuel, 1
    {
      hide Moving, Later, Quiet, Plain, Returns, Reached, WhiteFrom, Scanned, Short, OldReturns, Origin;
      ghost var e0, t0, o := E(), to, Origin(E(), d);
      OriginIsThere(T(), e0, t0, d);
      LaterIsReflexive(e0, t0);
      NothingIsQuiet(fuel, e0, d);
      r := Fine;
      var i := 0;
      while i < |mem[d].fields|
        invariant Busy() && Went() && r == Fine
        invariant d in mem && mem[d].Obj? && 0 <= i <= |mem[d].fields|
        invariant forall j :: 0 <= j < i ==> Reached(E(), mem[d].fields[j])
        invariant Origin(E(), d) == o && |mem[d].fields| == |mem0[o].fields|
        invariant forall j :: 0 <= j < i ==> OldReturns(mem0, from, mem0[o].fields[j], fuel)
        invariant old(AllPlain(d, 0, fuel)) ==> AllPlain(d, i, fuel) && Quiet(fuel, old(E()), E(), d)
        invariant old(WhiteFrom(E(), d)) ==> Idle() && forall j :: 0 <= j < i ==> Returns(mem, mem[d].fields[j], fuel)
        decreases |mem[d].fields| - i
      {
        ghost var e, t := E(), to;
        if old(WhiteFrom(E(), d)) { WhiteFromChild(e, d, i); }
        r := ForwardInplace(d, i, fuel);
        ObjectStays(e, t, E(), to, d);
        OriginStays(T(), e, t, E(), to, d);
        LaterTrans(e0, t0, e, t, E(), to);
        FieldsStayReached(T(), e, t, E(), to, d, i);
        if old(AllPlain(d, 0, fuel)) {
          RestIsPlain(T(), e, t, E(), to, fuel, d, i);
          QuietTransIn(T(), fuel, e0, t0, e, t, E(), to, d);
        }
        if r != Fine { return; }
        i := i + 1;
      }
      AllReached(E(), d);
    }

    /**
     * Through objects that do not move, what field i of the object at o first held leads to chains of
     * no more than f objects.
     */
    ghost predicate ChildReturns(o: Addr, i: nat, f: nat)
      reads this
    {
      o in mem0 && mem0[o].Obj? && i < |mem0[o].fields| && OldReturns(mem0, from, mem0[o].fields[i], f)
    }

    /** Looking into every child of d comes back. */
    ghost predicate AllReturn(d: Addr, fuel: nat)
      requires d in mem && mem[d].Obj?
      reads this
    {
      forall i :: 0 <= i < |mem[d].fields| ==> Returns(mem, mem[d].fields[i], fuel)
    }

    /** Nothing was changed. */
    twostate predicate Idle()
      reads this
    {
      E() == old(E()) && to == old(to)
    }

    ghost predicate AllPlain(d: Addr, i: nat, f: nat)
      requires d in mem && mem[d].Obj?
      reads this
    {
      forall j :: i <= j < |mem[d].fields| ==> Plain(T(), E(), to, f, mem[d].fields[j])
    }

    ghost predicate Scanning(gray: seq<nat>)
      reads this
    {
      Busy() && WhiteBelow(E(), to, gray)
    }

    ghost predicate AllPristine(gray: seq<nat>, f: nat)
      requires |gray| == |to|
      reads this
    {
      Pristine(T(), E(), to, f, gray)
    }

    ghost predicate AllDeep(f: nat)
      reads this`mem0, this`from, this`src
    {
      Deep(mem0, from, src, f)
    }

    ghost predicate AllDeepBelow(gray: seq<nat>, f: nat)
      requires |gray| == |to|
      reads this
    {
      DeepBelow(E(), to, gray, f)
    }

    /** Whatever is still to be moved can be scanned with room for f nested visits. */
    ghost predicate AllCalm(f: nat)
      reads this
    {
      Calm(T(), E(), to, f)
    }

    /** Scans the gray object of generation g. */
    method ScanOne(gray: seq<nat>, g: nat, fuel: nat) returns (r: Outcome)
      requires Scanning(gray) && g < |to| && gray[g] < |to[g].objs|
      modifies this`mem, this`to, this`src
      ensures Explains(r, fuel)
      ensures Busy() && Went()
      ensures r == Fine ==> Scanning(gray[g := gray[g] + 1])
      ensures old(AllPristine(gray, fuel)) ==>
        r != TooDeep && |gray| == |to| && (r == Fine ==> AllPristine(gray[g := gray[g] + 1], fuel))
      ensures old(AllDeepBelow(gray, fuel)) && r == Fine ==>
        |gray| == |to| && AllDeepBelow(gray[g := gray[g] + 1], fuel)
    {
      hide Moving, WhiteBelow, Later, Pristine, Quiet, Plain, Scanned, ChildrenReturn, DeepBelow, Origin;
      ghost var e, t := E(), to;
      assert |gray| == |to| by { MarksFit(e, t, gray); }
      GrayObject(T(), e, t, g, gray[g]);
      var d := to[g].objs[gray[g]];
      if AllPristine(gray, fuel) { GrayIsPlain(T(), e, t, fuel, gray, g); }
      r := VisitChildren(d, fuel);
      OriginStays(T(), e, t, E(), to, d);
      SrcStays(e, t, E(), to);
      if old(AllDeepBelow(gray, fuel)) && r == Fine { DeepStep(T(), e, t, E(), to, gray, g, fuel); }
      if old(AllPristine(gray, fuel)) { ScanStepPristine(T(), e, t, E(), to, fuel, gray, g); }
      if r == Fine { ScanStep(T(), e, t, E(), to, gray, g); }
    }

    /** Scans the gray objects of generation g, and those that are copied to it meanwhile. How many there were. */
    method ScanGeneration(gray: seq<nat>, g: nat, fuel: nat) returns (r: Outcome, gray': seq<nat>, n: nat)
      requires Scanning(gray) && g < |to| && |gray| == |to|
      modifies this`mem, this`to, this`src
      ensures Explains(r, fuel)
      ensures Busy() && Went() && |gray'| == |to| == |old(to)|
      ensures r == Fine ==> Scanning(gray') && gray' == gray[g := gray'[g]] && gray'[g] == |to[g].objs|
      ensures n == 0 && r == Fine ==> Idle() && gray' == gray
      ensures old(gray[g] == |to[g].objs|) ==> r == Fine && n == 0
      ensures old(AllPristine(gray, fuel)) ==> r != TooDeep && (r == Fine ==> AllPristine(gray', fuel))
      ensures old(AllDeepBelow(gray, fuel)) && r == Fine ==> AllDeepBelow(gray', fuel)
    {
      hide Moving, WhiteBelow, Later, Pristine, Unmoved, Returns, DeepBelow;
      ghost var e0, t0 := E(), to;
      LaterIsReflexive(e0, t0);
      MarksFit(e0, t0, gray);
      r, gray', n := Fine, gray, 0;
      while gray'[g] < |to[g].objs|
        invariant Scanning(gray') && Went() && |gray'| == |to| == |old(to)| && r == Fine && gray' == gray[g := gray'[g]]
        invariant gray'[g] <= |to[g].objs|
        invariant n == 0 ==> Idle() && gray' == gray
        invariant old(gray[g] == |to[g].objs|) ==> n == 0
        invariant old(AllPristine(gray, fuel)) ==> AllPristine(gray', fuel)
        invariant old(AllDeepBelow(gray, fuel)) ==> AllDeepBelow(gray', fuel)
        decreases Unmoved(E()), |to[g].objs| - gray'[g]
      {
        ghost var e, t := E(), to;
        r := ScanOne(gray', g, fuel);
        LaterTrans(e0, t0, e, t, E(), to);
        ScanShrinks(e0, t0, e, t, E(), to);
        if r != Fine { return; }
        gray', n := gray'[g := gray'[g] + 1], n + 1;
        MarksFit(E(), to, gray');
      }
    }

    /** One pass over the generations below ub. How many objects were scanned. */
    method ScanPass(marks: seq<nat>, ub: nat, fuel: nat) returns (r: Outcome, gray: seq<nat>, work: nat)
      requires Scanning(marks) && |marks| == |to| && ub <= |to|
      modifies this`mem, this`to, this`src
      ensures Explains(r, fuel)
      ensures Busy() && Went() && |gray| == |to| == |old(to)|
      ensures r == Fine ==> Scanning(gray) && (work == 0 || Unmoved(E()) == old(Unmoved(E())) ==> CaughtUp(gray, ub))
      ensures r == Fine && old(CaughtUp(marks, ub)) && Unmoved(E()) == old(Unmoved(E())) ==> work == 0
      ensures old(CaughtUp(marks, |to|)) ==> r == Fine && work == 0
      ensures r == Fine && work == 0 ==> Idle() && gray == marks
      ensures old(AllPristine(marks, fuel)) ==> r != TooDeep && (r == Fine ==> AllPristine(gray, fuel))
      ensures old(AllDeepBelow(marks, fuel)) && r == Fine ==> AllDeepBelow(gray, fuel)
    {
      hide Moving, WhiteBelow, Later, Pristine, Unmoved, Returns, DeepBelow;
      ghost var e0, t0 := E(), to;
      LaterIsReflexive(e0, t0);
      r, gray, work := Fine, marks, 0;
      var g := 0;
      while g < ub
        invariant 0 <= g <= ub && Scanning(gray) && Went() && |gray| == |to| == |old(to)| && r == Fine
        invariant work == 0 ==> Idle() && gray == marks
        invariant old(CaughtUp(marks, ub)) && Unmoved(E()) == old(Unmoved(E())) ==> work == 0
        invariant old(CaughtUp(marks, |to|)) ==> work == 0
        invariant work == 0 || Unmoved(E()) == old(Unmoved(E())) ==> CaughtUp(gray, g)
        invariant old(AllPristine(marks, fuel)) ==> AllPristine(gray, fuel)
        invariant old(AllDeepBelow(marks, fuel)) ==> AllDeepBelow(gray, fuel)
      {
        ghost var e, t := E(), to;
        var n;
        r, gray, n := ScanGeneration(gray, g, fuel);
        LaterTrans(e0, t0, e, t, E(), to);
        ScanShrinks(e0, t0, e, t, E(), to);
        if r != Fine { return; }
        work := work + n;
        g := g + 1;
      }
    }

    /**
     * Scans gray objects of the generations that copies can have gone to, oldest
     * copies first, until no gray object is left in any of them.
     */
    method ForwardChildrenUntilFixpoint(marks: seq<nat>, fuel: nat) returns (r: Outcome)
      requires Scanning(marks)
      modifies this`mem, this`to, this`src
      ensures Explains(r, fuel)
      ensures Busy() && Went()
      ensures r == Fine ==> White(E())
      ensures |marks| == |old(to)|
      ensures old(AllPristine(marks, fuel)) ==> r != TooDeep && (r == Fine ==> AllCalm(fuel))
      ensures old(CaughtUp(marks, |to|)) ==> r == Fine && Idle()
      ensures old(AllDeepBelow(marks, fuel)) && r == Fine ==> AllDeep(fuel)
    {
      hide Moving, WhiteBelow, Later, Pristine, White, Unmoved, Calm, Returns, DeepBelow, Deep;
      ghost var e0, t0 := E(), to;
      LaterIsReflexive(e0, t0);
      MarksFit(e0, t0, marks);
      SizeIs(T(), e0, t0);
      var gray: seq<nat> := marks;
      var ub := if upto + 1 < cfg.n then upto + 1 else cfg.n;
      var work := 1;
      r := Fine;
      while work > 0
        invariant Scanning(gray) && Went() && |gray| == |to| == cfg.n && r == Fine
        invariant work == 0 ==> CaughtUp(gray, ub)
        invariant old(AllPristine(marks, fuel)) ==> AllPristine(gray, fuel)
        invariant old(AllDeepBelow(marks, fuel)) ==> AllDeepBelow(gray, fuel)
        invariant old(CaughtUp(marks, |to|)) ==> Idle() && gray == marks
        decreases Unmoved(E()), if CaughtUp(gray, ub) then 0 else 1, work
      {
        ghost var e, t := E(), to;
        r, gray, work := ScanPass(gray, ub, fuel);
        LaterTrans(e0, t0, e, t, E(), to);
        LaterShrinks(e, t, E(), to);
        if r != Fine { return; }
      }
      ScanEnds(T(), E(), to, gray);
      if old(AllPristine(marks, fuel)) { PristineIsCalm(T(), E(), to, fuel, gray); }
      if old(AllDeepBelow(marks, fuel)) { DeepEnds(T(), E(), to, gray, fuel); }
    }

    predicate CaughtUp(gray: seq<nat>, k: nat)
      requires |gray| == |to| && k <= |to|
      reads this
    {
      forall g :: 0 <= g < k ==> gray[g] == |to[g].objs|
    }

    /** Evacuates x, which lies in from-space, and everything reachable from it. */
    method DeepMoveGcOwned(x: Addr, fuel: nat) returns (r: Outcome, dest: Addr)
      requires Busy() && White(E()) && x in from && Live(mem0, from, starts, x)
      modifies this`mem, this`to, this`src
      ensures Explains(r, fuel)
      ensures Busy() && Went()
      ensures r == Fine ==> White(E()) && dest == Phi(mem, x) && dest !in from && dest in src
      ensures old(AllCalm(fuel)) ==> r != TooDeep && (r == Fine ==> AllCalm(fuel))
      ensures old(AllDeep(fuel)) && r == Fine ==> AllDeep(fuel)
    {
      hide Moving, Later, White, Live, Age2Gen, Quiet, Calm, Pristine, WhiteBelow, Deep, DeepBelow;
      ghost var e, t := E(), to;
      MemoryOf(T(), e, t);
      LaterIsReflexive(e, t);
      if mem[x].Fwd? {
        ForwardedMeans(T(), e, t, x);
        return Fine, mem[x].dest;
      }
      Movable(T(), e, t, x);
      assert CheckMovePolicy(mem[x].hdr);
      var marks := Marks(to);
      r, dest := ShallowMove(x);
      if r != Fine { return; }
      ghost var e1, t1 := E(), to;
      ForwardedMeans(T(), e1, t1, x);
      MovedOne(T(), e, t, e1, t1);
      if old(AllDeep(fuel)) { DeepBegins(T(), e, t, e1, t1, fuel); }
      if old(AllCalm(fuel)) {
        NullIsForeign(T(), e, t);
        MovedOnePristine(T(), e, t, e1, t1, fuel, NULL);
      }
      r := ForwardChildrenUntilFixpoint(marks, fuel);
      LaterTrans(e, t, e1, t1, E(), to);
      SrcStays(e1, t1, E(), to);
      ResultStays(T(), e1, t1, E(), to, x, dest);
      SrcStays(e, t, E(), to);
    }

    /** Evacuates x if it lies in from-space. */
    method DeepMoveInterior(x: Addr, fuel: nat) returns (r: Outcome, dest: Addr)
      requires Busy() && White(E()) && Known(T(), E(), to, x) && (x in from ==> Live(mem0, from, starts, x))
      modifies this`mem, this`to, this`src
      ensures Explains(r, fuel)
      ensures Busy() && Went()
      ensures r == Fine ==> White(E()) && dest == Phi(mem, x) && dest !in from
      ensures x !in from ==> r == Fine && E() == old(E()) && to == old(to)
      ensures old(AllCalm(fuel)) ==> r != TooDeep && (r == Fine ==> AllCalm(fuel))
      ensures old(AllDeep(fuel)) && r == Fine ==> AllDeep(fuel)
    {
      hide Moving, Later, White, Live, Quiet, Calm, Deep;
      NullIsForeign(T(), E(), to);
      FromByAddress(T(), E(), to, x);
      LaterIsReflexive(E(), to);
      if x !in from { StaysOutside(T(), E(), to, x); }
      if x == NULL {
        return Fine, NULL;
      }
      if !Contains(fr, x) {
        return Fine, x;
      }
      r, dest := DeepMoveGcOwned(x, fuel);
    }

    /**
     * Evacuates what a root slot points to, and redirects the slot. A root that
     * does not move has its children evacuated instead: the stack holds out
     * exactly if the chains behind it are short, where all of them are white.
     */
    method DeepMoveRoot(v: nat, ghost x0: Addr, fuel: nat) returns (r: Outcome)
      requires Busy() && White(E()) && v in vars && x0 in starts
      requires vars[v] == x0 || (vars[v] == Phi(mem, x0) && vars[v] !in from)
      modifies this`vars, this`mem, this`to, this`src
      ensures Explains(r, fuel)
      ensures Busy() && Went() && vars.Keys == old(vars.Keys)
      ensures r == Fine ==>
        White(E()) && v in vars && vars == old(vars)[v := vars[v]] && vars[v] == Phi(mem, x0) && Reached(E(), vars[v])
      ensures old(AllCalm(fuel) && Plain(T(), E(), to, fuel + 1, vars[v])) ==>
        r != TooDeep && (r == Fine ==> AllCalm(fuel))
      ensures r == Fine ==> OldReturns(mem0, from, x0, fuel + 1) && (old(AllDeep(fuel)) ==> AllDeep(fuel))
      ensures old(vars[v] !in from && WhiteFrom(E(), vars[v])) ==>
        Idle() && r != OutOfSpace && (r == Fine <==> Returns(mem, old(vars[v]), fuel + 1))
    {
      hide Moving, Later, White, Live, Quiet, Calm, Plain, Phi, WhiteBelow, Pristine, Scanned, WhiteFrom, Short, Deep;
      hide OldReturns, Origin;
      ghost var e, t := E(), to;
      var x := vars[v];
      StartReturns(T(), e, t, x0, x, fuel + 1);
      StartIsReady(T(), e, t, x0);
      NullIsForeign(T(), e, t);
      FromByAddress(T(), e, t, x);
      LaterIsReflexive(e, t);
      if x !in from { StaysOutside(T(), e, t, x); }
      assert vars == vars[v := vars[v]];
      if x == NULL {
        return Fine;
      }
      if Contains(fr, x) {
        var dest;
        r, dest := DeepMoveGcOwned(x, fuel);
        if r == Fine { vars := vars[v := dest]; }
        return;
      }
      r := DeepMoveChildren(x, fuel);
      ResultStays(T(), e, t, E(), to, x0, x);
      SrcStays(e, t, E(), to);
    }

    /** Evacuates the children of an object that does not move itself. */
    method DeepMoveChildren(x: Addr, fuel: nat) returns (r: Outcome)
      requires Busy() && White(E()) && Known(T(), E(), to, x) && x !in from && x != NULL
      modifies this`mem, this`to, this`src
      ensures Explains(r, fuel)
      ensures Busy() && Went()
      ensures r == Fine ==> White(E()) && Reached(E(), x)
      ensures old(AllCalm(fuel) && Plain(T(), E(), to, fuel + 1, x)) ==> r != TooDeep && (r == Fine ==> AllCalm(fuel))
      ensures r == Fine ==>
        OldReturns(mem0, from, old(Origin(E(), x)), fuel + 1) && (old(AllDeep(fuel)) ==> AllDeep(fuel))
      ensures old(WhiteFrom(E(), x)) ==> Idle() && r != OutOfSpace && (r == Fine <==> Returns(mem, x, fuel + 1))
    {
      hide Moving, Later, White, Quiet, Calm, Plain, WhiteBelow, Pristine, Scanned, WhiteFrom, Short, Deep, DeepBelow;
      hide OldReturns, ChildrenReturn, Origin;
      ghost var e, t := E(), to;
      LaterIsReflexive(e, t);
      var marks := Marks(to);
      ScanBegins(e, t);
      NothingIsQuiet(fuel, e, x);
      r := Fine;
      if x in mem {
        OutsideIsWhole(T(), e, t, x);
        if Plain(T(), e, t, fuel + 1, x) { PlainIsShort(T(), e, t, fuel + 1, x); }
        r := VisitChildren(x, fuel);
        if r != Fine { return; }
        MovedOne(T(), e, t, E(), to);
      }
      ghost var e1, t1 := E(), to;
      SrcStays(e, t, e1, t1);
      VisitReturns(T(), e, t, x, fuel + 1);
      if old(AllDeep(fuel)) { DeepBegins(T(), e, t, e1, t1, fuel); }
      if old(AllCalm(fuel) && Plain(T(), E(), to, fuel + 1, x)) { MovedOnePristine(T(), e, t, e1, t1, fuel, x); }
      KnownStays(T(), e, t, e1, t1, x);
      r := ForwardChildrenUntilFixpoint(marks, fuel);
      LaterTrans(e, t, e1, t1, E(), to);
      ReachedStays(T(), e1, t1, E(), to, x);
    }

    // -------------------------------------------------------------------------
    // Roots
    // -------------------------------------------------------------------------

    /** Root slot v is as it should be after the first k registrations are done. */
    ghost predicate RootDone(vars0: map<nat, Addr>, k: nat, v: nat)
      requires k <= |rootv|
      reads this
    {
      v in vars && v in vars0 &&
      if v in rootv[..k] then vars[v] == Phi(mem, vars0[v]) && vars[v] !in from else vars[v] == vars0[v]
    }

    /**
     * Nothing the roots lead to overruns the stack: neither what does not move nor what an earlier
     * registration has moved.
     */
    ghost predicate RootsShallow(vars0: map<nat, Addr>, fuel: nat)
      reads this
    {
      forall i :: 0 <= i < |rootv| && rootv[i] in vars0 ==>
        && Plain(T(), E(), to, fuel + 1, vars0[rootv[i]])
        && (MetAgain(from, vars0, rootv, i) ==> Returns(mem0, vars0[rootv[i]], fuel + 1))
    }

    /** The first k registrations have been dealt with. */
    ghost predicate RootsDone(vars0: map<nat, Addr>, k: nat)
      requires k <= |rootv|
      reads this
    {
      && vars.Keys == vars0.Keys && (forall v :: v in vars ==> RootDone(vars0, k, v))
      && forall v :: v in vars && v in rootv[..k] ==> Reached(E(), vars[v])
    }

    /** Evacuates what registration k leads to. */
    method CopyRoot(k: nat, fuel: nat, ghost vars0: map<nat, Addr>) returns (r: Outcome)
      requires Busy() && White(E()) && k < |rootv| && RootsDone(vars0, k)
      requires forall v :: v in rootv ==> v in vars0 && vars0[v] in starts
      modifies this`vars, this`mem, this`to, this`src
      ensures Explains(r, fuel)
      ensures Busy() && Went() && vars.Keys == vars0.Keys
      ensures r == Fine ==> White(E()) && RootsDone(vars0, k + 1)
      ensures old(AllCalm(fuel)) && old(Plain(T(), E(), to, fuel + 1, vars0[rootv[k]])) ==>
        (MetAgain(from, vars0, rootv, k) ==> Returns(mem0, vars0[rootv[k]], fuel + 1)) ==>
        r != TooDeep && (r == Fine ==> AllCalm(fuel))
      ensures r == Fine && MetAgain(from, vars0, rootv, k) ==> Returns(mem0, vars0[rootv[k]], fuel + 1)
      ensures r == Fine ==> OldReturns(mem0, from, vars0[rootv[k]], fuel + 1) && (old(AllDeep(fuel)) ==> AllDeep(fuel))
    {
      hide Moving, Later, White, Calm, Phi, Plain, Short, WhiteFrom, Reached, MetAgain, Deep, OldReturns;
      ghost var e, t, v, x0, vars1 := E(), to, rootv[k], vars0[rootv[k]], vars;
      LaterIsReflexive(e, t);
      assert v in rootv && RootDone(vars0, k, v);
      RootIsReady(T(), e, t, e, t, x0, vars[v], fuel);
      if v in rootv[..k] { AgainIsMet(vars0, k); }
      if MetAgain(from, vars0, rootv, k) {
        WasMet(vars0, k);
        WhiteFromScanned(e, vars[v]);
        ReachedIsOutside(e, vars[v]);
      }
      r := DeepMoveRoot(rootv[k], x0, fuel);
      if r != Fine { return; }
      RootsStayDone(k, vars0, e, t, vars1);
    }

    lemma ReachedIsOutside(e: Evac<Hdr>, x: Addr)
      requires Reached(e, x)
      ensures x !in e.from
    {
    }

    lemma AgainIsMet(vars0: map<nat, Addr>, k: nat)
      requires k < |rootv| && rootv[k] in rootv[..k] && rootv[k] in vars0
      ensures MetAgain(from, vars0, rootv, k)
    {
    }

    /** What the other slots lead to is not disturbed. */
    lemma RootsStayDone(k: nat, vars0: map<nat, Addr>, e: Evac<Hdr>, t: seq<Space>, vars1: map<nat, Addr>)
      requires Busy() && k < |rootv| && Moving(T(), e, t) && Later(e, t, E(), to)
      requires vars1.Keys == vars.Keys == vars0.Keys
      requires forall v :: v in rootv ==> v in vars0 && vars0[v] in starts
      requires forall w :: w in vars1 && w !in rootv[..k] ==> vars1[w] == vars0[w]
      requires forall w :: w in vars1 && w in rootv[..k] ==> vars1[w] == Phi(e.mem, vars0[w]) && Reached(e, vars1[w])
      requires rootv[k] in vars && vars == vars1[rootv[k] := vars[rootv[k]]]
      requires vars[rootv[k]] == Phi(mem, vars0[rootv[k]]) && Reached(E(), vars[rootv[k]])
      ensures RootsDone(vars0, k + 1)
    {
      hide Moving, Later, Phi, Scanned;
      SrcStays(e, t, E(), to);
      LaterIsReflexive(e, t);
      assert rootv[..k + 1] == rootv[..k] + [rootv[k]];
      forall w | w in vars ensures RootDone(vars0, k + 1, w) && (w in rootv[..k + 1] ==> Reached(E(), vars[w])) {
        if w != rootv[k] && w in rootv[..k] {
          assert w in rootv;
          ResultStays(T(), e, t, E(), to, vars0[w], vars[w]);
          RootIsReady(T(), e, t, e, t, vars0[w], vars[w], 0);
          ReachedStays(T(), e, t, E(), to, vars[w]);
        }
      }
    }

    /** Evacuates what the root slots point to, one after the other. */
    method CopyRoots(fuel: nat) returns (r: Outcome)
      requires Busy() && White(E())
      requires forall v :: v in rootv ==> v in vars && vars[v] in starts
      modifies this`vars, this`mem, this`to, this`src
      ensures Explains(r, fuel)
      ensures Busy() && Went() && vars.Keys == old(vars.Keys)
      ensures r == Fine ==> White(E()) && forall v :: v in vars ==> RootDone(old(vars), |rootv|, v)
      ensures old(AllCalm(fuel) && RootsShallow(vars, fuel)) ==> r != TooDeep && (r == Fine ==> AllCalm(fuel))
      ensures r == Fine ==>
        RootsReturn(mem0, from, old(vars), rootv, fuel + 1) && (old(AllDeep(fuel)) ==> AllDeep(fuel))
    {
      hide Moving, Later, White, Calm, Phi, Plain, Reached, MetAgain, Deep, OldReturns;
      ghost var e0, t0, vars0, calm := E(), to, vars, AllCalm(fuel) && RootsShallow(vars, fuel);
      LaterIsReflexive(e0, t0);
      r := Fine;
      var k := 0;
      while k < |rootv|
        invariant 0 <= k <= |rootv| && r == Fine
        invariant Busy() && White(E()) && Went() && RootsDone(vars0, k)
        invariant calm ==> AllCalm(fuel)
        invariant forall i :: 0 <= i < k && MetAgain(from, vars0, rootv, i) ==> Returns(mem0, vars0[rootv[i]], fuel + 1)
        invariant forall i :: 0 <= i < k && rootv[i] in vars0 ==> OldReturns(mem0, from, vars0[rootv[i]], fuel + 1)
        invariant old(AllDeep(fuel)) ==> AllDeep(fuel)
      {
        ghost var e, t := E(), to;
        SrcStays(e0, t0, e, t);
        assert rootv[k] in rootv;
        if calm { PlainStays(T(), e0, t0, e, t, fuel + 1, vars0[rootv[k]]); }
        r := CopyRoot(k, fuel, vars0);
        LaterTrans(e0, t0, e, t, E(), to);
        if r != Fine { return; }
        k := k + 1;
      }
    }

    /** What was met before has been dealt with. */
    lemma WasMet(vars0: map<nat, Addr>, k: nat)
      requires k < |rootv| && (forall v :: v in rootv ==> v in vars0 && v in vars) && MetAgain(from, vars0, rootv, k)
      requires RootsDone(vars0, k) && Busy()
      ensures Reached(E(), vars[rootv[k]])
    {
      hide Moving, Phi, Scanned;
      var j :| 0 <= j < k && (rootv[j] == rootv[k] || (vars0[rootv[j]] == vars0[rootv[k]] && vars0[rootv[k]] !in from));
      assert rootv[j] in rootv[..k] && rootv[j] in rootv;
      assert RootDone(vars0, k, rootv[j]) && RootDone(vars0, k, rootv[k]);
      if rootv[j] != rootv[k] { StaysOutside(T(), E(), to, vars0[rootv[k]]); }
    }

    // -------------------------------------------------------------------------
    // The mutation logs
    // -------------------------------------------------------------------------

    /** Log g has been worked through up to entry i. */
    ghost predicate Logging(g: nat, i: nat)
      reads this
    {
      Busy() && White(E()) && LogState(T(), E(), logs, hist, g, i)
    }

    /** No entry makes a collection overrun the stack. */
    ghost predicate LogsShallow(f: nat)
      reads this
    {
      LogsAreShallow(mem0, from, starts, upto, hist.start, f)
    }

    /** Follows the parent of an entry if it has moved. */
    method CheckForwardParentInplace(en: MEntry, ghost en0: MEntry) returns (en': MEntry)
      requires Busy() && Sound(E(), en0) && Version(E(), en0, en)
      ensures Version(E(), en0, en') && en'.parent == Phi(mem, en0.parent) && en'.snap == en.snap && HasField(E(), en0)
      ensures en'.snap in mem && en'.slot == en.slot == en0.slot && (en'.parent == en0.parent || en'.parent !in from)
    {
      hide Moving, Version;
      EntryIsThere(T(), E(), to, en0, en);
      ParentFollowed(E(), en0, en);
      en' := en.(parent := if mem[en.parent].Fwd? then mem[en.parent].dest else en.parent);
    }

    /**
     * Follows parent and snapshot of an entry if they have moved, and repairs the field if it has not
     * been repaired yet.
     */
    method CheckForwardInplace(en: MEntry, k: nat, ghost en0: MEntry, ghost f: nat) returns (en': MEntry)
      requires Busy() && White(E()) && EntryOk(cfg, mem0, k, en0) && Version(E(), en0, en)
      modifies this`mem
      ensures Busy() && White(E()) && Went() && Unmoved(E()) == old(Unmoved(E()))
      ensures Version(E(), en0, en') && en'.parent == Phi(mem, en0.parent)
      ensures FieldNow(E(), en0) == en'.snap <==> Active(E(), en0)
      ensures old(AllCalm(f)) && EntryShallow(mem0, from, starts, f, en0) ==> AllCalm(f)
    {
      hide Moving, Later, White, Unmoved, Age2Gen, Version, Phi, Calm;
      ghost var e, t := E(), to;
      LaterIsReflexive(e, t);
      en' := CheckForwardParentInplace(en, en0);
      if mem[en.snap].Fwd? {
        var snapTo := mem[en.snap].dest;
        ForwardedMeans(T(), e, t, en.snap);
        if mem[en'.parent].fields[en.slot] == en.snap {
          FollowSnapshot(en', snapTo, en0, f);
          en' := en'.(snap := snapTo);
        } else if mem[en'.parent].fields[en.slot] == snapTo {
          SnapshotCaughtUp(e, en0, en');
          en' := en'.(snap := snapTo);
        }
      }
      SnapshotTells(T(), E(), to, en0, en');
    }

    /** The field of an entry whose snapshot has moved is made to follow it. */
    method FollowSnapshot(en: MEntry, snapTo: Addr, ghost en0: MEntry, ghost f: nat)
      requires Busy() && White(E()) && Sound(E(), en0) && Version(E(), en0, en) && en.parent == Phi(mem, en0.parent)
      requires FieldNow(E(), en0) == en.snap && en.snap in mem && mem[en.snap] == Fwd(snapTo) && en.snap in from
      requires snapTo !in from
      modifies this`mem
      ensures Busy() && White(E()) && Went() && Unmoved(E()) == old(Unmoved(E()))
      ensures Version(E(), en0, en.(snap := snapTo)) && en.parent == Phi(mem, en0.parent)
      ensures snapTo in mem && mem[snapTo].Obj?
      ensures old(AllCalm(f)) && EntryShallow(mem0, from, starts, f, en0) ==> AllCalm(f)
    {
      hide Moving, Later, White, Unmoved, Version, Calm, EntryShallow, Sound;
      ghost var e, t := E(), to;
      EntryIsThere(T(), e, t, en0, en);
      VersionMeans(e, en0, en);
      ForwardedMeans(T(), e, t, en.snap);
      Redirect(en.parent, en.slot, snapTo);
      assert E() == SetField(e, en.parent, en.slot, snapTo);
      SnapshotWasFollowed(T(), e, E(), to, en0, en, snapTo, f);
    }

    /**
     * The parent of a current entry is alive: its child is evacuated if nothing
     * else has done so, and the field redirected. Counts as a rescue even if the
     * child does not move.
     */
    method RescueChild(en: MEntry, k: nat, ghost en0: MEntry, fuel: nat) returns (r: Outcome, rescue: nat, child: Addr)
      requires Busy() && White(E()) && EntryOk(cfg, mem0, k, en0) && Version(E(), en0, en)
      requires en.parent == Phi(mem, en0.parent) && en.parent !in from
      requires FieldNow(E(), en0) == en.snap && Active(E(), en0)
      modifies this`mem, this`to, this`src
      ensures Explains(r, fuel)
      ensures Busy() && Went() && rescue <= 1
      ensures r == Fine ==> White(E()) && Version(E(), en0, en) && en.parent == Phi(mem, en0.parent)
      ensures r == Fine ==> child == FieldNow(E(), en0) == Phi(mem, en0.snap) && child !in from && child in mem
      ensures rescue == 0 ==> Unmoved(E()) == old(Unmoved(E()))
      ensures from == mem0.Keys ==> r == Fine
      ensures old(AllCalm(fuel)) ==> r != TooDeep && (r == Fine ==> AllCalm(fuel))
      ensures old(AllDeep(fuel)) && r == Fine ==> AllDeep(fuel)
    {
      hide Moving, Later, White, Unmoved, Age2Gen, Live, Calm, Deep;
      ghost var e, t := E(), to;
      EntryIsThere(T(), e, t, en0, en);
      LaterIsReflexive(e, t);
      InvOf(T(), e, t);
      FieldIsReady(T(), e, t, en.parent, en.slot);
      FieldStartsThere(T(), e, t, en0);
      if from == mem0.Keys { CopyFieldIsClean(T(), e, t, en.parent, en.slot); }
      var from_ := mem[en.parent].fields[en.slot];
      if mem[from_].Fwd? {
        ForwardedMeans(T(), e, t, from_);
        r, rescue, child := Fine, 0, mem[from_].dest;
      } else {
        rescue := 1;
        r, child := DeepMoveInterior(from_, fuel);
        if r != Fine { return; }
      }
      ghost var e1, t1 := E(), to;
      ChildWasEvacuated(T(), e, t, e1, t1, en0, en, from_);
      RepairField(en, en0, from_, child, fuel);
      LaterTrans(e, t, e1, t1, E(), to);
    }

    /** The field of an entry is made to name the child where it is now. */
    method RepairField(en: MEntry, ghost en0: MEntry, ghost x: Addr, child: Addr, ghost f: nat)
      requires Busy() && White(E()) && Sound(E(), en0) && Version(E(), en0, en) && en.parent == Phi(mem, en0.parent)
      requires en.parent !in from
      requires child == Phi(mem, en0.snap) == Phi(mem, x) && child !in from && x in mem
      requires FieldNow(E(), en0) == x || FieldNow(E(), en0) == child
      modifies this`mem
      ensures Busy() && White(E()) && Went() && Unmoved(E()) == old(Unmoved(E()))
      ensures Version(E(), en0, en) && en.parent == Phi(mem, en0.parent)
      ensures FieldNow(E(), en0) == child == Phi(mem, en0.snap)
      ensures child in mem
      ensures old(AllCalm(f)) ==> AllCalm(f)
    {
      hide Moving, Later, White, Unmoved, Phi, Version, Calm;
      ghost var e, t := E(), to;
      LaterIsReflexive(e, t);
      EntryIsThere(T(), e, t, en0, en);
      InvOf(T(), e, t);
      VersionMeans(e, en0, en);
      SetSameField(e, en.parent, en.slot);
      PhiIsInMemory(T(), e, t, x);
      FieldRedirected(T(), e, SetField(e, en.parent, en.slot, child), t, en0, en, child);
      if child != mem[en.parent].fields[en.slot] {
        MovedFrom(T(), e, t, x);
        Redirect(en.parent, en.slot, child);
        RedirectMovesNothing(e, E());
        InvOf(T(), E(), to);
        WhiteStaysOn(e, t, E(), to);
        assert E() == SetField(e, en.parent, en.slot, child);
        if old(AllCalm(f)) { RepairKeepsCalm(T(), e, t, E(), en.parent, en.slot, child, f); }
      }
    }

    /** Age at which objects are promoted to generation g. */
    function PromotionThreshold(g: nat): nat { g * cfg.survive }

    /** Is an entry still needed, now that its child is where it is? Decided by generation, not by age. */
    method RefreshSnapshot(parent: Addr, parentGen: nat, child: Addr) returns (keep: bool)
      requires Busy() && parent in mem && parent !in from && child in mem && child !in from
      requires parentGen == GenerationOf(to, parent)
      ensures keep <==> MustRemember(cfg, mem, parent, child)
      ensures mem[parent].Obj? && mem[child].Obj?
      ensures var p, c := Age2Gen(cfg, mem[parent].hdr.age), Age2Gen(cfg, mem[child].hdr.age);
        keep <==> c < p && c < cfg.n - 1
    {
      hide Moving, Age2Gen, GenerationOf;
      FromByAddress(T(), E(), to, parent);
      FromByAddress(T(), E(), to, child);
      NeedIsMustRemember(T(), E(), to, parent, child);
      var childGen := GenerationOf(to, child);
      keep := childGen + 1 < cfg.n && PromotionThreshold(parentGen) > PromotionThreshold(childGen);
    }

    /** The state of an entry that has been followed. */
    ghost predicate Followed(k: nat, en0: MEntry, en: MEntry)
      reads this
    {
      && Busy() && White(E()) && EntryOk(cfg, mem0, k, en0) && Version(E(), en0, en)
      && en.parent == Phi(mem, en0.parent)
      && (FieldNow(E(), en0) == en.snap <==> Active(E(), en0))
    }

    /** The parent of a current entry is alive. What is to be added to the outgoing log, if anything. */
    method PreserveChildOfLiveParent(en: MEntry, k: nat, ghost en0: MEntry, parentGen: nat, fuel: nat)
      returns (r: Outcome, rescue: nat, keep: seq<MEntry>)
      requires Followed(k, en0, en) && en.parent !in from && Active(E(), en0)
      requires parentGen == GenerationOf(to, en.parent)
      modifies this`mem, this`to, this`src
      ensures Explains(r, fuel)
      ensures Busy() && Went() && rescue <= 1
      ensures r == Fine ==> White(E()) && (forall log :: Dealt(cfg, E(), log + keep, en0)) && forall x :: x in keep ==>
        KeepOk(cfg, E(), k, x) && KeptFor(E(), en0, x)
      ensures rescue == 0 ==> Unmoved(E()) == old(Unmoved(E()))
      ensures from == mem0.Keys ==> r == Fine
      ensures old(AllCalm(fuel)) ==> r != TooDeep && (r == Fine ==> AllCalm(fuel))
      ensures old(AllDeep(fuel)) && r == Fine ==> AllDeep(fuel)
    {
      hide Moving, Later, White, Unmoved, Age2Gen, Version, GenerationOf, Dealt, KeepOk, MustRemember, Calm, KeptFor;
      hide Deep;
      ghost var e, t := E(), to;
      EntryIsThere(T(), e, t, en0, en);
      VersionMeans(e, en0, en);
      keep := [];
      var child;
      r, rescue, child := RescueChild(en, k, en0, fuel);
      if r != Fine { return; }
      ObjectStays(e, t, E(), to, en.parent);
      GenerationStays(T(), e, t, E(), to, en.parent);
      var need := RefreshSnapshot(en.parent, parentGen, child);
      if need { keep := [en.(snap := child)]; }
      forall log ensures Dealt(cfg, E(), log + keep, en0) {
        PreservedIsSettled(T(), E(), to, k, en0, en, log, need);
      }
      PreservedIsSettled(T(), E(), to, k, en0, en, [], need);
    }

    /** Entry i of log k, followed to en, is the one in hand. */
    ghost predicate InHand(k: nat, i: nat, en: MEntry)
      reads this
    {
      && Logging(k, i) && k < |logs.to| && k < upto && k < |logs.fr| && i < |logs.fr[k]| && k < |hist.fr|
      && i < |hist.fr[k]|
      && k < |logs.triage| && k < |hist.triage| && Followed(k, hist.fr[k][i], en)
    }

    ghost predicate AllStuck(k: nat)
      reads this
    {
      k < |hist.triage| && Stuck(E(), hist.triage[k])
    }

    /** The parent is not known to be alive: the entry is put aside. */
    method TriageEntry(k: nat, i: nat, en: MEntry)
      requires InHand(k, i, en) && GenerationOf(to, en.parent) == cfg.n && Active(E(), hist.fr[k][i])
      modifies this`logs, this`hist
      ensures Logging(k, i + 1) && SameIncoming() && OthersUntouched(k) && |logs.triage[k]| == |old(logs).triage[k]| + 1
      ensures old(AllStuck(k)) ==> AllStuck(k)
      ensures E() == old(E())
    {
      hide Moving, White, Unmoved, Age2Gen, Version, GenerationOf, Stuck, LogState;
      ghost var e, en0 := E(), hist.fr[k][i];
      LogSizes(T(), e, logs, hist, k, i);
      EntryTriaged(T(), e, logs, hist, k, i, en);
      ParentIsStuck(T(), e, to, en0, en, hist.triage[k]);
      hist := hist.(triage := hist.triage[k := hist.triage[k] + [en0]]);
      logs := logs.(triage := logs.triage[k := logs.triage[k] + [en]]);
    }

    /** The parent is alive, and the entry current. */
    method KeepEntry(k: nat, i: nat, en: MEntry, parentGen: nat, fuel: nat) returns (r: Outcome, rescue: nat)
      requires InHand(k, i, en) && parentGen == GenerationOf(to, en.parent) < cfg.n && Active(E(), hist.fr[k][i])
      modifies this`mem, this`to, this`src, this`logs
      ensures Explains(r, fuel)
      ensures Busy() && Went() && rescue <= 1 && hist == old(hist)
      ensures r == Fine ==> Logging(k, i + 1) && SameIncoming() && logs.triage == old(logs).triage && OthersUntouched(k)
      ensures rescue == 0 ==> Unmoved(E()) == old(Unmoved(E()))
      ensures from == mem0.Keys ==> r == Fine
      ensures old(AllCalm(fuel)) ==> r != TooDeep && (r == Fine ==> AllCalm(fuel))
      ensures old(AllDeep(fuel)) && r == Fine ==> AllDeep(fuel)
    {
      hide Moving, Later, White, Unmoved, Age2Gen, Version, GenerationOf, KeepOk, Dealt, LogState, Calm, KeptFor;
      hide Returns, Target, Deep;
      ghost var e, t, en0 := E(), to, hist.fr[k][i];
      LogSizes(T(), e, logs, hist, k, i);
      EntryIsThere(T(), e, t, en0, en);
      GenerationByAge(T(), e, t, en.parent);
      var keep;
      r, rescue, keep := PreserveChildOfLiveParent(en, k, en0, parentGen, fuel);
      if r != Fine { return; }
      EntryKept(T(), e, t, E(), to, logs, hist, k, i, keep);
      logs := logs.(to := logs.to[k := logs.to[k] + keep]);
    }

    /** Takes entry i of log k in hand. */
    method FollowEntry(k: nat, i: nat, ghost f: nat) returns (en: MEntry)
      requires Logging(k, i) && k < |logs.to| && k < |logs.fr| && k < upto && i < |logs.fr[k]|
      modifies this`mem
      ensures InHand(k, i, en) && Went() && Unmoved(E()) == old(Unmoved(E()))
      ensures old(AllStuck(k)) ==> AllStuck(k)
      ensures old(AllCalm(f)) && LogsShallow(f) ==> AllCalm(f)
    {
      hide Moving, Later, White, Unmoved, Age2Gen, Version, LogState, Stuck, Calm, EntryShallow;
      ghost var e, t := E(), to;
      LogSizes(T(), e, logs, hist, k, i);
      NextEntry(T(), e, logs, hist, k, i);
      en := CheckForwardInplace(logs.fr[k][i], k, hist.fr[k][i], f);
      InvOf(T(), e, t);
      InvOf(T(), E(), to);
      LogStateStays(T(), e, t, E(), to, logs, hist, k, i);
      if Stuck(e, hist.triage[k]) { StuckStays(e, t, E(), to, hist.triage[k]); }
    }

    /**
     * An entry in hand that has been superseded is dealt with: the store that superseded it has an
     * entry of its own.
     */
    lemma DiscardEntry(k: nat, i: nat, en: MEntry)
      requires InHand(k, i, en) && !Active(E(), hist.fr[k][i])
      ensures Logging(k, i + 1)
    {
      hide Moving, White, Age2Gen, Version, Dealt, LogState;
      LogSizes(T(), E(), logs, hist, k, i);
      SupersededIsDealt(cfg, E(), logs.to[k], hist.fr[k][i]);
      EntryDealt(T(), E(), logs, hist, k, i, []);
      NothingAppended(logs, k);
    }

    /**
     * Entry i of incoming log k: discarded if superseded, put aside if its parent may be garbage, and
     * preserved otherwise.
     */
    method ForwardEntry(k: nat, i: nat, fuel: nat) returns (r: Outcome, rescue: nat)
      requires Logging(k, i) && k < |logs.to| && k < |logs.fr| && k < upto && i < |logs.fr[k]|
      modifies this`mem, this`to, this`src, this`logs, this`hist
      ensures Explains(r, fuel)
      ensures Busy() && Went() && rescue <= 1
      ensures r == Fine ==> Logging(k, i + 1) && SameIncoming() && OthersUntouched(k)
      ensures r == Fine ==> |logs.triage[k]| + rescue <= |old(logs).triage[k]| + 1
      ensures rescue == 0 ==> Unmoved(E()) == old(Unmoved(E()))
      ensures r == Fine && rescue == 0 && old(AllStuck(k)) ==> AllStuck(k)
      ensures from == mem0.Keys ==> r == Fine
      ensures old(AllCalm(fuel)) && old(LogsShallow(fuel)) ==> r != TooDeep && (r == Fine ==> AllCalm(fuel))
      ensures old(AllDeep(fuel)) && r == Fine ==> AllDeep(fuel)
    {
      hide Moving, Later, White, Unmoved, Age2Gen, Version, GenerationOf, LogState, Stuck, MustRemember, Calm;
      hide LogsAreShallow, Deep;
      ghost var e, t := E(), to;
      LogSizes(T(), e, logs, hist, k, i);
      SizeIs(T(), e, t);
      var en := FollowEntry(k, i, fuel);
      ghost var e1, t1 := E(), to;
      EntryIsThere(T(), e1, t1, hist.fr[k][i], en);
      VersionMeans(e1, hist.fr[k][i], en);
      SizeIs(T(), e1, t1);
      rescue := 0;
      r := Fine;
      var parentGen := GenerationOf(to, en.parent);
      if mem[en.parent].fields[en.slot] != en.snap {
        DiscardEntry(k, i, en);
      } else if parentGen == cfg.n {
        TriageEntry(k, i, en);
      } else {
        r, rescue := KeepEntry(k, i, en, parentGen, fuel);
        LaterTrans(e, t, e1, t1, E(), to);
        if rescue == 0 && Stuck(e1, hist.triage[k]) { StuckStays(e1, t1, E(), to, hist.triage[k]); }
      }
    }

    twostate predicate SameIncoming()
      reads this
    {
      logs.fr == old(logs.fr) && hist.fr == old(hist.fr) && hist.start == old(hist.start)
    }

    /** Only log k changed. */
    twostate predicate OthersUntouched(k: nat)
      reads this
    {
      && |logs.triage| == |old(logs).triage| == |hist.triage| == |old(hist).triage| && k < |logs.triage|
      && forall g :: 0 <= g < |logs.triage| && g != k ==>
        logs.triage[g] == old(logs).triage[g] && hist.triage[g] == old(hist).triage[g]
    }

    /** Works through incoming log k. */
    method ForwardMutationLogPhase(k: nat, fuel: nat) returns (r: Outcome, rescue: nat)
      requires Logging(k, 0) && k < |logs.to| && k < |logs.fr| && k < upto && k < |logs.triage| && logs.triage[k] == []
      modifies this`mem, this`to, this`src, this`logs, this`hist
      ensures Explains(r, fuel)
      ensures Busy() && Went()
      ensures r == Fine ==> k < |logs.fr| && Logging(k, |logs.fr[k]|) && SameIncoming() && OthersUntouched(k)
      ensures r == Fine ==> |logs.triage[k]| + rescue <= |old(logs).fr[k]|
      ensures r == Fine && rescue == 0 ==> Unmoved(E()) == old(Unmoved(E())) && AllStuck(k)
      ensures from == mem0.Keys ==> r == Fine
      ensures old(AllCalm(fuel)) && old(LogsShallow(fuel)) ==> r != TooDeep && (r == Fine ==> AllCalm(fuel))
      ensures old(AllDeep(fuel)) && r == Fine ==> AllDeep(fuel)
    {
      hide Moving, Later, White, Unmoved, LogState, Calm, LogsAreShallow, Deep;
      ghost var e0, t0 := E(), to;
      LaterIsReflexive(e0, t0);
      LogSizes(T(), e0, logs, hist, k, 0);
      NothingIsStuck(e0);
      assert hist.triage[k] == [];
      r, rescue := Fine, 0;
      var i := 0;
      while i < |logs.fr[k]|
        invariant r == Fine && SameIncoming() && OthersUntouched(k) && k < |logs.to| && 0 <= i <= |logs.fr[k]|
        invariant Logging(k, i) && Went() && |logs.triage[k]| + rescue <= i
        invariant rescue == 0 ==> Unmoved(E()) == old(Unmoved(E())) && AllStuck(k)
        invariant old(AllCalm(fuel)) && old(LogsShallow(fuel)) ==> AllCalm(fuel)
        invariant old(AllDeep(fuel)) ==> AllDeep(fuel)
      {
        ghost var e, t := E(), to;
        var more;
        r, more := ForwardEntry(k, i, fuel);
        LaterTrans(e0, t0, e, t, E(), to);
        if r != Fine { return; }
        LogSizes(T(), E(), logs, hist, k, i + 1);
        rescue := rescue + more;
        i := i + 1;
      }
    }

    /** No log holds anything in triage. */
    ghost predicate TriageEmpty()
      reads this
    {
      forall k :: 0 <= k < |logs.triage| ==> logs.triage[k] == []
    }

    /** Log k, if there is anything in it: afterwards what was put aside is the incoming log. */
    method ForwardGeneration(k: nat, fuel: nat) returns (r: Outcome, rescue: nat)
      requires Logging(k, 0) && k < |logs.to| && TriageEmpty()
      modifies this`mem, this`to, this`src, this`logs, this`hist
      ensures Explains(r, fuel)
      ensures Busy() && Went()
      ensures r == Fine ==>
        Logging(k + 1, 0) && TriageEmpty() && hist.start == old(hist.start) && |logs.to| == |old(logs).to|
      ensures r == Fine ==> |logs.fr| == |old(logs).fr| == |hist.fr| == |old(hist).fr| && k < |logs.fr|
      ensures r == Fine ==> |logs.fr[k]| + rescue <= |old(logs).fr[k]| && logs.fr == old(logs).fr[k := logs.fr[k]]
      ensures r == Fine ==> hist.fr == old(hist).fr[k := hist.fr[k]]
      ensures r == Fine && rescue == 0 ==> Unmoved(E()) == old(Unmoved(E())) && Stuck(E(), hist.fr[k])
      ensures from == mem0.Keys ==> r == Fine
      ensures old(AllCalm(fuel)) && old(LogsShallow(fuel)) ==> r != TooDeep && (r == Fine ==> AllCalm(fuel))
      ensures old(AllDeep(fuel)) && r == Fine ==> AllDeep(fuel)
    {
      hide Moving, Later, White, Unmoved, LogState, Calm, LogsAreShallow, Deep;
      ghost var e, t := E(), to;
      LaterIsReflexive(e, t);
      LogSizes(T(), e, logs, hist, k, 0);
      OldLogsAreEmpty(T(), e, logs, hist, k, 0);
      NothingIsStuck(e);
      if logs.fr[k] == [] {
        NextLog(T(), e, logs, hist, k, k + 1);
        r, rescue := Fine, 0;
        return;
      }
      r, rescue := ForwardMutationLogPhase(k, fuel);
      if r != Fine { return; }
      LogSizes(T(), E(), logs, hist, k, |logs.fr[k]|);
      LogDone(T(), E(), logs, hist, k);
      hist := hist.(fr := hist.fr[k := hist.triage[k]], triage := hist.triage[k := []]);
      logs := logs.(fr := logs.fr[k := logs.triage[k]], triage := logs.triage[k := []]);
    }

    /** One pass over the logs of all generations. */
    method ForwardPass(fuel: nat) returns (r: Outcome, work: nat)
      requires Logging(0, 0) && TriageEmpty()
      modifies this`mem, this`to, this`src, this`logs, this`hist
      ensures Explains(r, fuel)
      ensures Busy() && Went()
      ensures r == Fine ==> Logging(0, 0) && TriageEmpty() && hist.start == old(hist.start)
      ensures r == Fine ==> TotalSize(logs.fr) + work <= TotalSize(old(logs).fr)
      ensures r == Fine && work == 0 ==> Unmoved(E()) == old(Unmoved(E())) && forall k :: 0 <= k < |hist.fr| ==>
        Stuck(E(), hist.fr[k])
      ensures from == mem0.Keys ==> r == Fine
      ensures old(AllCalm(fuel)) && old(LogsShallow(fuel)) ==> r != TooDeep && (r == Fine ==> AllCalm(fuel))
      ensures old(AllDeep(fuel)) && r == Fine ==> AllDeep(fuel)
    {
      hide Moving, Later, White, Unmoved, LogState, Stuck, Calm, LogsAreShallow, Deep;
      ghost var e0, t0 := E(), to;
      LaterIsReflexive(e0, t0);
      LogSizes(T(), e0, logs, hist, 0, 0);
      r, work := Fine, 0;
      var k := 0;
      while k + 1 < cfg.n
        invariant r == Fine && 0 <= k && k + 1 <= cfg.n && |logs.to| == |logs.fr| == |hist.fr| == cfg.n - 1
        invariant Logging(k, 0) && TriageEmpty() && Went() && hist.start == old(hist.start)
        invariant TotalSize(logs.fr) + work <= TotalSize(old(logs).fr)
        invariant work == 0 ==> Unmoved(E()) == old(Unmoved(E())) && forall g :: 0 <= g < k ==> Stuck(E(), hist.fr[g])
        invariant old(AllCalm(fuel)) && old(LogsShallow(fuel)) ==> AllCalm(fuel)
        invariant old(AllDeep(fuel)) ==> AllDeep(fuel)
      {
        ghost var e, t, fr0 := E(), to, logs.fr;
        ghost var was := hist.fr;
        var rescue;
        r, rescue := ForwardGeneration(k, fuel);
        LaterTrans(e0, t0, e, t, E(), to);
        if r != Fine { return; }
        TotalSizeUpdate(fr0, k, logs.fr[k]);
        if work == 0 && rescue == 0 {
          forall g | 0 <= g < k + 1 ensures Stuck(E(), hist.fr[g]) {
            if g < k { StuckStays(e, t, E(), to, was[g]); }
          }
        }
        work := work + rescue;
        k := k + 1;
      }
      NextLog(T(), E(), logs, hist, k, 0);
    }

    /**
     * Passes over the logs until one rescues nothing. Each entry that rescues is
     * dealt with, so the entries that wait get fewer with every pass but the last.
     */
    method ForwardMutationLog(fuel: nat) returns (r: Outcome)
      requires Logging(0, 0) && TriageEmpty()
      modifies this`mem, this`to, this`src, this`logs, this`hist
      ensures Explains(r, fuel)
      ensures Busy() && Went()
      ensures r == Fine ==> Logging(0, 0) && TriageEmpty() && hist.start == old(hist.start)
      ensures r == Fine ==> forall k :: 0 <= k < |hist.fr| ==> Stuck(E(), hist.fr[k])
      ensures from == mem0.Keys ==> r == Fine
      ensures old(AllCalm(fuel)) && old(LogsShallow(fuel)) ==> r != TooDeep
      ensures old(AllDeep(fuel)) && r == Fine ==> AllDeep(fuel)
    {
      hide Moving, Later, White, Unmoved, LogState, Stuck, Calm, LogsAreShallow, Deep;
      ghost var e0, t0 := E(), to;
      var work;
      r, work := ForwardPass(fuel);
      while r == Fine && work > 0
        invariant Busy() && Went() && Explains(r, fuel)
        invariant r == Fine ==> Logging(0, 0) && TriageEmpty() && hist.start == old(hist.start)
        invariant r == Fine && work == 0 ==> forall k :: 0 <= k < |hist.fr| ==> Stuck(E(), hist.fr[k])
        invariant from == mem0.Keys ==> r == Fine
        invariant old(AllCalm(fuel)) && old(LogsShallow(fuel)) ==> r != TooDeep && (r == Fine ==> AllCalm(fuel))
        invariant old(AllDeep(fuel)) && r == Fine ==> AllDeep(fuel)
        decreases if r == Fine then 1 else 0, TotalSize(logs.fr) + work
      {
        ghost var e, t := E(), to;
        r, work := ForwardPass(fuel);
        LaterTrans(e0, t0, e, t, E(), to);
      }
    }

    // -------------------------------------------------------------------------
    // A whole collection
    // -------------------------------------------------------------------------

    /**
     * Collections of the young generations alone are possible: stores are logged,
     * and no entry is retired too early.
     */
    predicate CanBePartial() { logging && DecidesRightly(cfg) }

    ghost predicate RootsOk()
      reads this
    {
      forall v :: v in rootv ==> v in vars && (vars[v] in mem || Foreign(to, fr, vars[v]))
    }

    /** The invariant between collections, except that the incoming logs may still hold entries. */
    ghost predicate HeapAndLogsOk()
      reads this
    {
      && HeapOk(cfg, mem, to, fr) && RootsOk()
      && LogsOk(cfg, mem, logs.to) && |logs.fr| == cfg.n - 1 && logs.triage == Empties(cfg.n - 1)
      && (CanBePartial() ==> Remembered(cfg, mem, logs.to))
    }

    /** The invariant between collections. */
    ghost predicate Valid()
      reads this
    {
      HeapAndLogsOk() && logs.fr == Empties(cfg.n - 1)
    }

    /** Exchanges to- and from-space, and the logs, of the generations below u. */
    method SwapRoles(u: nat)
      requires u <= |to| == |fr| && |logs.to| == |logs.fr| == |to| - 1
      modifies this`to, this`fr, this`logs
      ensures to == Exchanged(old(to), old(fr), u) && fr == Exchanged(old(fr), old(to), u)
      ensures logs.to == Exchanged(old(logs).to, old(logs).fr, u) && logs.fr == Exchanged(old(logs).fr, old(logs).to, u)
      ensures logs.triage == old(logs).triage
    {
      var g := 0;
      while g < u
        invariant 0 <= g <= u && |to| == |fr| == |old(to)| && |logs.to| == |logs.fr| == |old(logs).to|
        invariant to == Exchanged(old(to), old(fr), g) && fr == Exchanged(old(fr), old(to), g)
        invariant logs.to == Exchanged(old(logs).to, old(logs).fr, g)
        invariant logs.fr == Exchanged(old(logs).fr, old(logs).to, g)
        invariant logs.triage == old(logs).triage
      {
        to, fr := to[g := fr[g]], fr[g := to[g]];
        if g < |logs.to| {
          logs := logs.(to := logs.to[g := logs.fr[g]], fr := logs.fr[g := logs.to[g]]);
        }
        g := g + 1;
      }
    }

    /** A collection has begun, and nothing has been moved yet. */
    ghost predicate Begun(u: nat, mem1: Mem<Hdr>, roots: set<Addr>, log: seq<seq<MEntry>>)
      reads this
    {
      && upto == u && u <= cfg.n && E() == Starting(cfg, mem1, u, roots) && Logging(0, 0) && TriageEmpty()
      && hist.start == log
      && (forall g :: u <= g < |fr| ==> fr[g].Empty()) && forall a :: a in mem1 ==> mem1[a].Obj?
    }

    /** What the exchange of roles will establish. */
    lemma TurnIsReady(u: nat)
      requires Valid() && u <= cfg.n
      ensures |to| == |fr| == cfg.n && |logs.to| == |logs.fr| == |logs.triage| == cfg.n - 1
      ensures var c, e := Turn(cfg, u, Exchanged(fr, to, u)), Starting(cfg, mem, u, RootSet(vars, rootv));
        && Moving(c, e, Exchanged(to, fr, u)) && White(e)
        && LogState(c, e, MutationLogs(Exchanged(logs.to, logs.fr, u), Exchanged(logs.fr, logs.to, u), logs.triage),
             LogHistory(logs.to, Exchanged(logs.fr, logs.to, u), logs.triage), 0, 0)
      ensures (forall g :: 0 <= g < |fr| ==> fr[g].Empty()) && forall a :: a in mem ==> mem[a].Obj?
      ensures forall k :: 0 <= k < |logs.triage| ==> logs.triage[k] == []
    {
      hide Moving, White, LogState, Age2Gen, Foreign, LogsOk, Remembered;
      HeapHasParts(cfg, mem, to, fr);
      LogsFitHeap(cfg, mem, logs.to);
      var roots := RootSet(vars, rootv);
      forall s | s in roots ensures s in mem || Foreign(to, fr, s) {}
      TurnBegins(cfg, mem, to, fr, u, roots);
      LogsBegin(cfg, mem, Turn(cfg, u, Exchanged(fr, to, u)), u, roots, logs.to);
    }

    method BeginTurn(u: nat)
      requires Valid() && u <= cfg.n
      modifies this`to, this`fr, this`logs, this`upto, this`mem0, this`from, this`starts, this`src, this`hist
      ensures Begun(u, mem, RootSet(vars, rootv), old(logs).to)
      ensures |old(to)| == |old(fr)| && fr == Exchanged(old(fr), old(to), u) && to == Exchanged(old(to), old(fr), u)
    {
      hide Moving, White, LogState, Age2Gen, X1Collector.Valid, RootSet;
      TurnIsReady(u);
      ghost var log0, roots := logs.to, RootSet(vars, rootv);
      SwapRoles(u);
      upto := u;
      mem0, from, starts, src := mem, Young(cfg, mem, u), roots + OldFields(mem, Young(cfg, mem, u)), map[];
      hist := LogHistory(log0, logs.fr, logs.triage);
      assert E() == Starting(cfg, mem, u, roots);
    }

    /** The outcome of a collection: what is live was moved a step up, and the roots redirected. */
    ghost predicate Collected(
      e: Evac<Hdr>, u: nat, mem1: Mem<Hdr>, vars1: map<nat, Addr>)
      reads this
    {
      && Finished(e) && e.mem0 == mem1 && mem == Remaining(e) && e.from == Young(cfg, mem1, u)
      && e.starts == RootSet(vars1, rootv) + OldFields(mem1, e.from)
      && Redirected(vars1, rootv, e, vars)
      && (forall a :: a in e.from && Copied(e, a) ==> OneStepUp(cfg, mem1, mem, a, Phi(e.mem, a)))
      && forall a :: a in mem1 && a !in e.from ==> StaysPut(mem1, mem, a)
    }

    /** Roots and logs have been dealt with. */
    ghost predicate Done(u: nat, mem1: Mem<Hdr>, roots: set<Addr>, log: seq<seq<MEntry>>, vars1: map<nat, Addr>)
      reads this
    {
      && upto == u && mem0 == mem1 && from == Young(cfg, mem1, u) && hist.start == log
      && AllDone(T(), E(), to, logs, hist, roots) && Redirected(vars1, rootv, E(), vars)
      && forall g :: u <= g < |fr| ==> fr[g].Empty()
    }

    /** Roots and logs. */
    method RunTurn(
        u: nat, ghost mem1: Mem<Hdr>, ghost roots: set<Addr>, ghost log: seq<seq<MEntry>>, fuel: nat)
      returns (r: Outcome)
      requires Begun(u, mem1, roots, log) && roots == RootSet(vars, rootv) && (forall v :: v in rootv ==> v in vars)
      requires u == cfg.n || Complete(cfg, mem1, log)
      modifies this`vars, this`mem, this`to, this`src, this`logs, this`hist
      ensures r == OutOfSpace ==> !Room(cfg, mem1, old(to), u)
      ensures r == TooDeep ==> !Shallow(cfg, mem1, u, old(vars), rootv, log, fuel)
      ensures r == Fine ==> Done(u, mem1, roots, log, old(vars)) && Grown(old(to), to)
      ensures r == Fine ==> RootsReturn(mem1, Young(cfg, mem1, u), old(vars), rootv, fuel + 1) && AllDeep(fuel)
    {
      hide Moving, White, LogState, Age2Gen, Later, Phi, OldFields, Stuck, Complete, Live, Young, Calm, Shallow, Deep;
      hide RootsReturn, LogsAreShallow, Plain, Room;
      ghost var e0, t0, vars1 := E(), to, vars;
      BeginsShallow(u, mem1, roots, log, fuel);
      assert AllDeep(fuel) by { BeginsDeep(u, mem1, roots, log, fuel); }
      forall v | v in rootv ensures vars[v] in starts {}
      r := CopyRoots(fuel);
      ghost var e1, t1 := E(), to;
      SrcStays(e0, t0, e1, t1);
      if r != Fine {
        if r == OutOfSpace { NoRoom(t0); }
        return;
      }
      InvOf(T(), e0, t0);
      InvOf(T(), e1, t1);
      LogStateStays(T(), e0, t0, e1, t1, logs, hist, 0, 0);
      assert rootv[..|rootv|] == rootv;
      forall v | v in vars ensures Redirection(vars1, rootv, e1, vars, v) { assert RootDone(vars1, |rootv|, v); }
      assert Redirected(vars1, rootv, e1, vars);
      hide Redirected, Redirection, RootSet;
      r := ForwardMutationLog(fuel);
      SrcStays(e1, t1, E(), to);
      LaterTrans(e0, t0, e1, t1, E(), to);
      SrcStays(e0, t0, E(), to);
      if r != Fine {
        if r == OutOfSpace { NoRoom(t0); }
        return;
      }
      RootsStayRedirected(T(), e1, t1, E(), to, vars1, rootv, vars);
    }

    /** If an object has no room, there was not room for everything when the collection began. */
    lemma NoRoom(t0: seq<Space>)
      requires Busy() && Exhausted() && Grown(t0, to)
      ensures !Room(cfg, mem0, t0, upto)
    {
      hide Moving, Age2Gen, Room;
      var x :| x in from && x in mem && mem[x].Obj? && x in mem0 && mem0[x].Obj? && |to| == cfg.n
        && !to[Target(T(), E(), x)].Fits(mem0[x].hdr.size);
      OutOfRoom(T(), E(), to, x);
      RoomStays(cfg, mem0, t0, to, upto);
    }

    /** A collection that does with the stack there is, as it begins. */
    lemma BeginsShallow(u: nat, mem1: Mem<Hdr>, roots: set<Addr>, log: seq<seq<MEntry>>, fuel: nat)
      requires Begun(u, mem1, roots, log) && roots == RootSet(vars, rootv) && forall v :: v in rootv ==> v in vars
      ensures from == Young(cfg, mem1, u) && (u == cfg.n ==> from == mem0.Keys)
      ensures Shallow(cfg, mem1, u, vars, rootv, log, fuel) ==>
        AllCalm(fuel) && RootsShallow(vars, fuel) && (u == cfg.n || LogsShallow(fuel))
    {
      hide Moving, White, LogState, Age2Gen, Calm, Plain, LogsAreShallow, Young, YoungAreShallow, OldFields;
      if u == cfg.n { AllAreYoung(cfg, mem1, u); }
      if Shallow(cfg, mem1, u, vars, rootv, log, fuel) {
        StartIsCalm(T(), mem1, to, roots, fuel);
        forall i | 0 <= i < |rootv| && rootv[i] in vars ensures Plain(T(), E(), to, fuel + 1, vars[rootv[i]]) {
          assert rootv[i] in rootv;
          RootsBegin(T(), mem1, to, roots, vars[rootv[i]], fuel + 1);
        }
      }
    }

    lemma BeginsDeep(u: nat, mem1: Mem<Hdr>, roots: set<Addr>, log: seq<seq<MEntry>>, fuel: nat)
      requires Begun(u, mem1, roots, log)
      ensures AllDeep(fuel)
    {
      hide Moving, White, LogState;
    }

    method ClearFromSpaces()
      requires upto <= |fr|
      modifies this`fr
      ensures fr == Cleared(old(fr), upto)
    {
      var g := 0;
      while g < upto
        invariant 0 <= g <= upto <= |fr| == |old(fr)| && fr == Cleared(old(fr), g)
      {
        fr := fr[g := fr[g].(used := 0, objs := [])];
        g := g + 1;
      }
    }

    /** Empties from-space. */
    method CleanupPhase()
      requires Busy() && Finished(E())
      modifies this`mem, this`fr
      ensures mem == Remaining(old(E())) && fr == Cleared(old(fr), upto)
    {
      hide Finished, Age2Gen, Moving, Remaining, Cleared;
      RemainingByAddress(T(), E(), to);
      SizeIs(T(), E(), to);
      ClearFromSpaces();
      mem := map a | a in mem && Contains(to, a) :: mem[a];
    }

    /** Every entry left over in an incoming log has a parent that no longer exists. */
    ghost predicate LeftoversDangle()
      reads this
    {
      forall k, en :: 0 <= k < |logs.fr| && en in logs.fr[k] ==> en.parent !in mem
    }

    /** The last step of a collection. */
    method FinishTurn(
        u: nat, ghost mem1: Mem<Hdr>, ghost log: seq<seq<MEntry>>, ghost vars1: map<nat, Addr>)
      returns (ghost e: Evac<Hdr>)
      requires Done(u, mem1, RootSet(vars1, rootv), log, vars1) && u <= cfg.n && forall v :: v in rootv ==> v in vars1
      requires LogsOk(cfg, mem1, log) && (CanBePartial() ==> Remembered(cfg, mem1, log))
      modifies this`mem, this`fr
      ensures HeapAndLogsOk() && LeftoversDangle() && LeftoversFollow(e, u, logs.fr, log)
      ensures LogsFollow(cfg, e, u, logs.to, log)
      ensures Collected(e, u, mem1, vars1) && SameRanges(old(fr), fr) && e == old(E())
    {
      hide AllDone, Finished, Age2Gen, Moving, Remaining, Cleared, Foreign, HeapOk, LogsOk, Remembered, OneStepUp;
      hide StaysPut, RootSet, Redirected, LeftoversFollow, LogsFollow;
      e := E();
      ghost var c, t, h, roots := T(), to, hist, RootSet(vars1, rootv);
      PartsOfDone(c, e, t, logs, h, roots);
      NothingLeftBehind(c, e, t, logs, h, roots);
      TurnEnds(c, e, t, logs, h, roots, mem1, log, vars1, rootv, vars);
      AllLeftovers(c, e, t, logs, h, roots);
      AllLogsFollow(c, e, t, logs, h, roots);
      if CanBePartial() { RememberedAgain(c, e, t, logs, h, roots); }
      ClearedRanges(fr, upto);
      CleanupPhase();
    }

    /**
     * Collects the generations below u. It ends badly only if a to-space is
     * exhausted, which takes more objects than there was room for, or if the
     * stack is overrun: never where the collection is shallow, and always where
     * chains through objects that do not move, or behind what the roots lead to
     * again, are too long. Unless an object that does not move, in reach, refers
     * to one that does, that is exact. When everything is collected, it comes to
     * a slot that is registered twice and leads to such a chain. The original
     * leaves entries with dead parents in the incoming logs, where the next
     * collection will find them.
     */
    method ExecuteGc(u: nat, fuel: nat) returns (r: Outcome, ghost e: Evac<Hdr>)
      requires Valid() && u <= cfg.n && (u == cfg.n || Complete(cfg, mem, logs.to))
      modifies this
      ensures |old(to)| == |old(fr)| && (r == OutOfSpace ==> !Room(cfg, old(mem), Exchanged(old(to), old(fr), u), u))
      ensures r == TooDeep ==> !Shallow(cfg, old(mem), u, old(vars), rootv, old(logs).to, fuel)
      ensures r == Fine ==> CameBack(cfg, old(mem), u, old(vars), rootv, fuel)
      ensures old(Separate(cfg, mem, u, vars, rootv, logs.to)) && r != OutOfSpace ==>
        (r == Fine <==> CameBack(cfg, old(mem), u, old(vars), rootv, fuel))
      ensures u == cfg.n && r != OutOfSpace ==> (r == Fine <==> TwiceIsShallow(old(mem), old(vars), rootv, fuel + 1))
      ensures r == Fine ==>
        SameRanges(Exchanged(old(to), old(fr), u), to) && SameRanges(Exchanged(old(fr), old(to), u), fr)
      ensures r == Fine ==> HeapAndLogsOk() && Collected(e, u, old(mem), old(vars))
      ensures r == Fine ==> forall a :: a in old(mem) && old(mem)[a].Obj? ==>
        (a in e.from <==> Age2Gen(cfg, old(mem)[a].hdr.age) < u)
      ensures r == Fine ==> forall a :: a in e.from && Copied(e, a) ==>
        a in old(mem) && old(mem)[a].Obj? &&
        var y, h := Phi(e.mem, a), old(mem)[a].hdr;
        y in mem && mem[y].Obj? && mem[y].hdr == Hdr(h.tseq, if h.age < 127 then h.age + 1 else 127, h.size)
      ensures r == Fine ==> LogsFollow(cfg, e, u, logs.to, old(logs).to)
      ensures r == Fine ==> LeftoversDangle() && LeftoversFollow(e, u, logs.fr, old(logs).to)
      ensures rootv == old(rootv)
    {
      hide HeapOk, LogsOk, Remembered, Complete, Age2Gen, X1Collector.Begun, X1Collector.Done;
      hide X1Collector.HeapAndLogsOk, RootSet;
      hide Room, Shallow, RootsReturn, YoungReturn, Separate, Young, OldFields, TwiceIsShallow, Exchanged, Deep;
      hide Finished;
      ghost var mem1, log, vars1 := mem, logs.to, vars;
      YoungAre(cfg, mem, u);
      ValidMeans();
      FullIsShallowIff(cfg, mem, vars, rootv, log, fuel);
      if Separate(cfg, mem, u, vars, rootv, log) { ShallowIffCameBack(cfg, mem, u, vars, rootv, log, fuel); }
      e := E();
      BeginTurn(u);
      r := RunTurn(u, mem1, RootSet(vars, rootv), log, fuel);
      if r != Fine { return; }
      e := FinishTurn(u, mem1, log, vars1);
      DeepIsYoungReturn(e, fuel);
    }

    /** Where no entry is retired too early, the young generations can be collected alone at any time. */
    lemma PartialIsSafe()
      requires HeapAndLogsOk() && CanBePartial()
      ensures Complete(cfg, mem, logs.to)
    {
      hide Age2Gen, Remembered, Complete;
      RememberedIsComplete(cfg, mem, logs.to);
    }

    lemma ValidMeans()
      requires Valid()
      ensures LogsOk(cfg, mem, logs.to) && (CanBePartial() ==> Remembered(cfg, mem, logs.to))
      ensures forall v :: v in rootv ==> v in vars
      ensures forall a :: a in mem ==> mem[a].Obj?
    {
      hide LogsOk, Remembered, Age2Gen;
    }

    /**
     * What the original intends at the end of a collection, and needs before the next: to forget the
     * entries with dead parents.
     */
    method DropLeftovers()
      requires HeapAndLogsOk()
      modifies this`logs
      ensures Valid() && logs == old(logs).(fr := Empties(cfg.n - 1))
    {
      logs := logs.(fr := Empties(cfg.n - 1));
    }

    // -------------------------------------------------------------------------
    // The mutator's operations
    // -------------------------------------------------------------------------

    /**
     * The write barrier. Stores a pointer to x in field i of parent, and logs the
     * store under the generation of x if x is the younger.
     */
    method AssignMember(parent: Addr, i: nat, x: Addr)
      requires Valid() && parent in mem && mem[parent].Obj? && i < |mem[parent].fields|
      requires (x in mem || Foreign(to, fr, x))
      modifies this`mem, this`logs
      ensures Valid() && mem == Assigned(old(mem), parent, i, x)
      ensures logs.to == if logging && MustLog(cfg, old(mem), parent, x)
                         then Append(old(logs).to, GenOf(cfg, old(mem), x), [MEntry(parent, i, x)]) else old(logs).to
      ensures |logs.to| == old(|logs.to|)
      ensures forall k :: 0 <= k < |logs.to| ==>
        if logging && x in old(mem) && old(mem)[x].Obj? &&
          k == Age2Gen(cfg, old(mem)[x].hdr.age) < cfg.n - 1 &&
          (k < Age2Gen(cfg, old(mem)[parent].hdr.age) ||
            (k == Age2Gen(cfg, old(mem)[parent].hdr.age) && old(mem)[x].hdr.age < old(mem)[parent].hdr.age))
        then logs.to[k] == old(logs.to)[k] + [MEntry(parent, i, x)]
        else logs.to[k] == old(logs.to)[k]
    {
      hide Age2Gen, HeapOk, LogsOk, Remembered, Foreign, GenerationOf;
      ghost var mem1, logs1 := mem, logs.to;
      RootsStay(parent, i, x);
      StoreKeepsHeap(cfg, mem, to, fr, parent, i, x);
      LogsFitHeap(cfg, mem, logs.to);
      HomeOf(cfg, mem, to, fr, parent);
      HomeOf(cfg, mem, to, fr, x);
      mem := mem[parent := mem[parent].(fields := mem[parent].fields[i := x])];
      assert mem == Assigned(mem1, parent, i, x);
      if !logging {
        // full collections need no log
        StoreKeepsBounds(cfg, mem1, logs1, parent, i, x);
        return;
      }
      var srcGen, destGen := GenerationOf(to, parent), GenerationOf(to, x);
      if srcGen < cfg.n && destGen + 1 < cfg.n {
        if destGen < srcGen || (srcGen == destGen && mem[x].hdr.age < mem[parent].hdr.age) {
          logs := logs.(to := Append(logs.to, destGen, [MEntry(parent, i, x)]));
        }
      }
      StoreKeepsLogs(cfg, mem1, logs1, parent, i, x, logs.to);
    }

    lemma RootsStay(parent: Addr, i: nat, x: Addr)
      requires RootsOk() && parent in mem && mem[parent].Obj? && i < |mem[parent].fields|
      ensures forall v :: v in rootv ==>
        v in vars && (vars[v] in Assigned(mem, parent, i, x) || Foreign(to, fr, vars[v]))
    {
    }

    /** A new object in the youngest generation, whose fields hold what the root slots init hold. */
    method Alloc(tseq: nat, z: nat, init: seq<nat>) returns (ok: bool, x: Addr)
      requires Valid() && MIN_SIZE <= z && forall v :: v in init ==> v in rootv
      modifies this`mem, this`to
      ensures Valid() && |old(to)| == cfg.n && ok == (old(to)[0].lo + old(to)[0].used + 8 + z <= old(to)[0].hi)
      ensures ok ==> x == old(to)[0].lo + old(to)[0].used + 8
      ensures ok ==> x !in old(mem) && (forall v :: v in init ==> v in vars)
      ensures ok ==> mem == old(mem)[x := Obj(Hdr(tseq, 0, z), ReadAll(vars, init))]
      ensures ok ==> var s := old(to)[0]; to == old(to)[0 := s.(used := s.used + 8 + z, objs := s.objs + [x])]
      ensures !ok ==> mem == old(mem) && to == old(to)
    {
      hide Age2Gen, HeapOk, LogsOk, Remembered, Foreign;
      HeapHasParts(cfg, mem, to, fr);
      ok, x := to[0].Fits(z), to[0].Next();
      if ok {
        var fields := ReadAll(vars, init);
        forall y | y in fields ensures y in mem || Foreign(to, fr, y) {
          var j :| 0 <= j < |init| && fields[j] == y;
          assert init[j] in init;
        }
        AllocKeepsHeap(cfg, mem, to, fr, logs.to, tseq, z, fields);
        mem := mem[x := Obj(Hdr(tseq, 0, z), fields)];
        to := to[0 := to[0].Alloc(z)];
      }
    }

    method AssignVariable(v: nat, x: Addr)
      requires Valid() && (x in mem || Foreign(to, fr, x))
      modifies this`vars
      ensures Valid() && vars == old(vars)[v := x]
    {
      hide HeapOk, LogsOk, Remembered, Foreign;
      vars := vars[v := x];
    }

    method AddGcRoot(v: nat)
      requires Valid() && v in vars && (vars[v] in mem || Foreign(to, fr, vars[v]))
      modifies this`rootv
      ensures Valid() && rootv == old(rootv) + [v]
    {
      hide HeapOk, LogsOk, Remembered, Foreign;
      rootv := rootv + [v];
    }

    // -------------------------------------------------------------------------
    // The collector's check of its heap
    // -------------------------------------------------------------------------

    ghost function V(): View
      reads this
    {
      View(cfg, mem, to, fr)
    }

    /** Looks at one pointer. */
    method VerifyAux(x: Addr)
      requires |to| == |fr| == cfg.n && Readable(V(), x)
      modifies this`stats
      ensures stats == Counted(V(), old(stats), [x])
      ensures !Contains(to, x) && !Contains(fr, x) ==> stats == old(stats).(ext := old(stats.ext) + 1)
      ensures !Contains(to, x) && Contains(fr, x) ==> stats == old(stats).(fromSpace := old(stats.fromSpace) + 1)
      ensures Contains(to, x) ==>
        var g := Age2Gen(cfg, mem[x].hdr.age);
        if to[g].Holds(x) && forall h :: 0 <= h < g ==> !to[h].Holds(x) then
          stats == old(stats).(toSpace := old(stats.toSpace) + 1, ageOk := old(stats.ageOk) + 1)
        else stats == old(stats).(toSpace := old(stats.toSpace) + 1, ageBad := old(stats.ageBad) + 1)
    {
      hide Age2Gen, Contains;
      var g := GenerationOf(to, x);
      if g == cfg.n {
        if GenerationOf(fr, x) < cfg.n {
          stats := stats.(fromSpace := stats.fromSpace + 1);
        } else {
          stats := stats.(ext := stats.ext + 1);
        }
      } else {
        stats := stats.(toSpace := stats.toSpace + 1);
        if Age2Gen(cfg, mem[x].hdr.age) == g {
          stats := stats.(ageOk := stats.ageOk + 1);
        } else {
          stats := stats.(ageBad := stats.ageBad + 1);
        }
      }
    }

    /** Looks at every pointer of an object. */
    method VerifyChildren(a: Addr)
      requires |to| == |fr| == cfg.n && AllReadable(V(), FieldsOf(mem, a))
      modifies this`stats
      ensures stats == Counted(V(), old(stats), FieldsOf(mem, a))
    {
      hide Readable, Contains;
      hide Count;
      if a !in mem || mem[a].Fwd? { return; }
      var i := 0;
      while i < |mem[a].fields|
        invariant 0 <= i <= |mem[a].fields|
        invariant AllReadable(V(), mem[a].fields[..i]) && stats == Counted(V(), old(stats), mem[a].fields[..i])
      {
        VerifyAux(mem[a].fields[i]);
        CountedTwice(V(), old(stats), mem[a].fields[..i], [mem[a].fields[i]]);
        assert mem[a].fields[..i] + [mem[a].fields[i]] == mem[a].fields[..i + 1];
        i := i + 1;
      }
      assert mem[a].fields[..i] == mem[a].fields;
    }

    /** Visits one object of a space. */
    method VerifyObject(a: Addr)
      requires |to| == |fr| == cfg.n && CanVisit(V(), [a])
      modifies this`stats
      ensures stats == Visited(V(), old(stats), [a])
    {
      hide Readable, Contains, Visited, Count;
      VisitedOne(V(), stats, a);
      if mem[a].Fwd? {
        assert Counted(V(), stats, []) == stats by { NothingVisited(V(), stats); }
        stats := stats.(fwd := stats.fwd + 1);
      } else {
        VerifyChildren(a);
      }
    }

    /** Visits the objects of one generation. */
    method VerifySpace(g: nat)
      requires |to| == |fr| == cfg.n && g < cfg.n && CanVisit(V(), to[g].objs)
      modifies this`stats
      ensures stats == Visited(V(), old(stats), to[g].objs)
    {
      hide Contains, Visited, AllReadable;
      ghost var objs := to[g].objs;
      NothingVisited(V(), stats);
      var j := 0;
      while j < |to[g].objs|
        invariant 0 <= j <= |objs| && objs == to[g].objs
        invariant CanVisit(V(), objs[..j]) && stats == Visited(V(), old(stats), objs[..j])
      {
        VerifyObject(to[g].objs[j]);
        VisitedTwice(V(), old(stats), objs[..j], [objs[j]]);
        assert objs[..j] + [objs[j]] == objs[..j + 1];
        j := j + 1;
      }
      assert objs[..j] == objs;
    }

    /** Visits the objects of all generations. */
    method VerifySpaces()
      requires |to| == |fr| == cfg.n && CanVisit(V(), AllObjs(to))
      modifies this`stats
      ensures stats == Visited(V(), old(stats), AllObjs(to))
    {
      hide Contains, Visited, AllReadable;
      NothingVisited(V(), stats);
      var g := 0;
      while g < cfg.n
        invariant 0 <= g <= cfg.n
        invariant CanVisit(V(), AllObjs(to[..g])) && stats == Visited(V(), old(stats), AllObjs(to[..g]))
      {
        VerifySpace(g);
        VisitedTwice(V(), old(stats), AllObjs(to[..g]), to[g].objs);
        assert to[..g + 1][..g] == to[..g];
        g := g + 1;
      }
      assert to[..g] == to;
    }

    /** Visits what the root slots refer to. */
    method VerifyRoots()
      requires |to| == |fr| == cfg.n && (forall r :: r in rootv ==> r in vars)
      requires CanVisitRoots(V(), Contents(vars, rootv))
      modifies this`stats
      ensures stats == CountedRoots(V(), old(stats), Contents(vars, rootv))
    {
      hide Contains, AllReadable, Count;
      ghost var roots := Contents(vars, rootv);
      NothingVisited(V(), stats);
      var i := 0;
      while i < |rootv|
        invariant 0 <= i <= |rootv|
        invariant CanVisitRoots(V(), roots[..i]) && stats == CountedRoots(V(), old(stats), roots[..i])
      {
        assert roots[i] == vars[rootv[i]] && roots[i] in roots;
        VerifyChildren(vars[rootv[i]]);
        stats := stats.(gcRoot := stats.gcRoot + 1);
        CountedRootsPrefix(V(), old(stats), roots, i);
        i := i + 1;
      }
      assert roots[..i] == roots;
    }

    /** Looks at the entries of one log. */
    method VerifyLog(g: nat)
      requires |to| == |fr| == cfg.n && g < |logs.to| && AllHaveSlots(V(), logs.to)
      modifies this`stats
      ensures stats == CountedEntries(V(), old(stats), logs.to, g)
    {
      hide Contains, CountEntries;
      ghost var log, v := logs.to[g], V();
      WholeLog(logs.to, g);
      var j := 0;
      while j < |logs.to[g]|
        invariant 0 <= j <= |log| && log == logs.to[g] && V() == v
        invariant stats == CountedPrefix(v, old(stats), logs.to, g, j)
      {
        var en := logs.to[g][j];
        NextVerdict(v, logs.to, g, j);
        var current := mem[en.parent].fields[en.slot];
        if en.snap == current {
          if to[g].lo <= en.snap < to[g].lo + to[g].used {
            stats := stats.(mlogVital := stats.mlogVital + 1);
          } else if fr[g].Holds(current) {
            stats := stats.(mlogFrom := stats.mlogFrom + 1);
          } else {
            stats := stats.(mlogWild := stats.mlogWild + 1);
          }
        } else {
          stats := stats.(mlogStale := stats.mlogStale + 1);
        }
        j := j + 1;
      }
    }

    /** Looks at the entries of all logs. */
    method VerifyLogs()
      requires |to| == |fr| == cfg.n && |logs.to| == cfg.n - 1 && AllHaveSlots(V(), logs.to)
      modifies this`stats
      ensures stats == CountedLogs(V(), old(stats), logs.to, cfg.n - 1)
      ensures
        && stats.mlogStale == old(stats.mlogStale) + |set k: nat, j: nat | k < |logs.to| && j < |logs.to[k]| &&
             HasSlot(mem, logs.to[k][j]) &&
             mem[logs.to[k][j].parent].fields[logs.to[k][j].slot] != logs.to[k][j].snap :: (k, j)|
        && stats.mlogVital == old(stats.mlogVital) + |set k: nat, j: nat | k < |logs.to| && j < |logs.to[k]| &&
             HasSlot(mem, logs.to[k][j]) &&
             mem[logs.to[k][j].parent].fields[logs.to[k][j].slot] == logs.to[k][j].snap &&
             to[k].lo <= logs.to[k][j].snap < to[k].lo + to[k].used :: (k, j)|
        && stats.mlogFrom == old(stats.mlogFrom) + |set k: nat, j: nat | k < |logs.to| && j < |logs.to[k]| &&
             HasSlot(mem, logs.to[k][j]) &&
             mem[logs.to[k][j].parent].fields[logs.to[k][j].slot] == logs.to[k][j].snap &&
             !(to[k].lo <= logs.to[k][j].snap < to[k].lo + to[k].used) && fr[k].Holds(logs.to[k][j].snap) :: (k, j)|
        && stats.mlogWild == old(stats.mlogWild) + |set k: nat, j: nat | k < |logs.to| && j < |logs.to[k]| &&
             HasSlot(mem, logs.to[k][j]) &&
             mem[logs.to[k][j].parent].fields[logs.to[k][j].slot] == logs.to[k][j].snap &&
             !(to[k].lo <= logs.to[k][j].snap < to[k].lo + to[k].used) && !fr[k].Holds(logs.to[k][j].snap) :: (k, j)|
    {
      hide Contains, CountedEntries, CountLogs, AllHaveSlots;
      ghost var v := V();
      var g := 0;
      while g + 1 < cfg.n
        invariant 0 <= g <= cfg.n - 1 && V() == v
        invariant stats == CountedLogs(v, old(stats), logs.to, g)
      {
        AnotherLog(V(), old(stats), logs.to, g);
        VerifyLog(g);
        g := g + 1;
      }
      EntriesSpelledOut(cfg, mem, to, fr, logs.to);
    }

    /** The root slots, and what the check needs of the heap. */
    ghost predicate CanVerify()
      reads this
    {
      && |to| == |fr| == cfg.n && |logs.to| == cfg.n - 1 && (forall r :: r in rootv ==> r in vars)
      && CanVisit(V(), AllObjs(to)) && CanVisitRoots(V(), Contents(vars, rootv)) && AllHaveSlots(V(), logs.to)
    }

    /** The objects whose fields are looked at: what the root slots hold, and all of to-space. */
    ghost function Holders(): (s: seq<Addr>)
      requires CanVerify()
      reads this
    {
      Contents(vars, rootv) + AllObjs(to)
    }

    /** Looks at everything. */
    method VerifyAll()
      requires CanVerify()
      modifies this`stats
      ensures stats == Final(V(), Contents(vars, rootv), logs.to)
    {
      hide Contains, AllReadable, CountLogs, Contents, Visited, CountedRoots, CountedLogs, AllFieldsOf, AllObjs;
      stats := NoStats;
      VerifyRoots();
      VerifySpaces();
      VerifyLogs();
    }

    /**
     * Checks the heap. The answer is yes exactly if no object of to-space is forwarded,
     * every pointer into to-space leads to the space for the age of its object, and
     * none leads to from-space; the counters say how many pointers and log entries
     * there are of each kind. Between collections it is always yes, every pointer to
     * an object has been counted as one of the right age, and every other as external.
     */
    method VerifyOk() returns (ok: bool)
      requires CanVerify()
      modifies this`stats
      ensures ok <==> Passes(V(), Contents(vars, rootv))
      ensures ok <==> stats.fromSpace == 0 && stats.fwd == 0 && stats.ageBad == 0
      ensures var holders := Holders();
        && stats.ext == |set p | p in Slots(mem, holders) &&
             var x := mem[holders[p.0]].fields[p.1]; !Contains(to, x) && !Contains(fr, x)|
        && stats.fromSpace == |set p | p in Slots(mem, holders) &&
             var x := mem[holders[p.0]].fields[p.1]; !Contains(to, x) && Contains(fr, x)|
        && stats.toSpace == |set p | p in Slots(mem, holders) && Contains(to, mem[holders[p.0]].fields[p.1])|
        && stats.ageOk == |set p | p in Slots(mem, holders) &&
             IsAtAge(cfg, mem, to, mem[holders[p.0]].fields[p.1])|
      ensures stats.gcRoot == |rootv| && stats.toSpace == stats.ageOk + stats.ageBad
      ensures stats.fwd ==
        |set k: nat | k < |AllObjs(to)| && AllObjs(to)[k] in mem && mem[AllObjs(to)[k]].Fwd?|
      ensures stats.mlogVital == |LogHits(V(), logs.to, |logs.to|, Vital)|
      ensures stats.mlogStale == |LogHits(V(), logs.to, |logs.to|, Stale)|
      ensures stats.mlogFrom == |LogHits(V(), logs.to, |logs.to|, LeadsToFromSpace)|
      ensures stats.mlogWild == |LogHits(V(), logs.to, |logs.to|, Wild)|
      ensures old(HeapAndLogsOk()) ==> HeapAndLogsOk() && ok && stats.mlogFrom == 0
      ensures old(HeapAndLogsOk()) ==>
        && stats.ageOk == stats.toSpace ==
             |set i: nat, j: nat | i < |rootv| && rootv[i] in vars &&
               vars[rootv[i]] in mem && mem[vars[rootv[i]]].Obj? && j < |mem[vars[rootv[i]]].fields| &&
               mem[vars[rootv[i]]].fields[j] in mem :: (i, j)| +
             |set a, j: nat | a in mem && mem[a].Obj? && j < |mem[a].fields| && mem[a].fields[j] in mem :: (a, j)|
        && stats.ext ==
             |set i: nat, j: nat | i < |rootv| && rootv[i] in vars &&
               vars[rootv[i]] in mem && mem[vars[rootv[i]]].Obj? && j < |mem[vars[rootv[i]]].fields| &&
               mem[vars[rootv[i]]].fields[j] !in mem :: (i, j)| +
             |set a, j: nat | a in mem && mem[a].Obj? && j < |mem[a].fields| && mem[a].fields[j] !in mem :: (a, j)|
    {
      hide Contains, AllReadable, Passes, CountLogs, Contents, X1Collector.HeapAndLogsOk, Visited, CountedRoots;
      hide CountedLogs, AllFieldsOf, AllObjs, Final, NumberOf, LogHits, Slots, Age2Gen, Forwarded, RootSlots;
      hide ObjectSlots;
      ghost var roots := Contents(vars, rootv);
      if HeapAndLogsOk() { HeapVerifies(); }
      VerifyAll();
      ok := stats.IsOk();
      Accounts(V(), roots, logs.to);
      PlacesSpelledOut(cfg, mem, to, fr, roots + AllObjs(to));
      ForwardedIs(mem, AllObjs(to));
      LogAccounts(V(), roots, logs.to);
      StatsDoNotMatter();
      SlotsSpelledOut(mem, vars, rootv);
      if old(HeapAndLogsOk()) { HealthyTally(); }
    }

    lemma HealthyTally()
      requires HeapAndLogsOk()
      ensures NumberOf(V(), Contents(vars, rootv) + AllObjs(to), AgeOk) ==
        |RootSlots(mem, vars, rootv, true)| + |ObjectSlots(mem, true)|
      ensures NumberOf(V(), Contents(vars, rootv) + AllObjs(to), External) ==
        |RootSlots(mem, vars, rootv, false)| + |ObjectSlots(mem, false)|
    {
      hide HeapOk, LogsOk, NumberOf, Contents, AllObjs, RootSlots, ObjectSlots;
      HealthyNumbers(V(), vars, rootv, true);
      HealthyNumbers(V(), vars, rootv, false);
    }

    /** Checking the heap does not change it. */
    twostate lemma StatsDoNotMatter()
      requires mem == old(mem) && to == old(to) && fr == old(fr) && logs == old(logs) && vars == old(vars)
      requires rootv == old(rootv)
      ensures old(HeapAndLogsOk()) ==> HeapAndLogsOk()
    {
      hide HeapOk, LogsOk, Remembered;
    }

    /** Between collections the check can be made, and finds nothing wrong. */
    lemma HeapVerifies()
      requires HeapAndLogsOk()
      ensures CanVerify() && Passes(V(), Contents(vars, rootv))
      ensures CountLogs(V(), logs.to, cfg.n - 1, LeadsToFromSpace) == 0
    {
      hide HeapOk, CanVisit, CanVisitRoots, AllHaveSlots, LogsOk, Passes, CountLogs, Contents;
      ValidSizes();
      HeapIsReadable(V(), Contents(vars, rootv));
      NoneLeadsToFromSpace(V(), logs.to);
      HeapPasses(V(), Contents(vars, rootv));
    }

    lemma ValidSizes()
      requires HeapAndLogsOk()
      ensures |to| == |fr| == cfg.n && |logs.to| == cfg.n - 1 && forall r :: r in rootv ==> r in vars
    {
    }
  }
}
