/**
 * Runs of the N-generation collector, in its default configuration, that overrun
 * any stack. In the first, an old object refers to itself. In the second, an old
 * object that two root slots hold refers to a cycle of two young ones: the first
 * slot has the old object's field redirected to a copy; behind the second, the
 * forwarding step follows it and goes round the copied cycle for ever.
 */
module Overrun {
  import opened Evacuation
  import opened Stores
  import opened Logs
  import opened Turns
  import opened Depth
  import opened Recursion
  import opened Retirement
  import opened X1
  import opened SmallHeaps

  /** Two generations, two survivals. */
  const Default: Config := Cfg(2, 2)

  lemma OldAtTwo()
    ensures Age2Gen(Default, 2) == 1 && Age2Gen(Default, 0) == 0
  {
  }

  // ---------------------------------------------------------------------------
  // A cycle of old objects
  // ---------------------------------------------------------------------------

  /**
   * Even with one root slot that is registered once and leads to it, an old object that refers to
   * itself is never done with.
   */
  lemma OldLoopIsDeep(mem: Mem<Hdr>, o: Addr, vars: map<nat, Addr>, rootv: seq<nat>, f: nat)
    requires mem == map[o := Node(2, o)] && 0 < |rootv| && rootv[0] in vars && vars[rootv[0]] == o
    ensures !CameBack(Default, mem, 1, vars, rootv, f)
  {
    OldAtTwo();
    var from := Young(Default, mem, 1);
    assert o !in from;
    SelfReferenceNeverReturns(Without(mem, from), o, 0, f + 1);
  }

  /** However large the stack, collecting the youngest generation overruns it. */
  method OverrunByOld(fuel: nat) returns (r: Outcome)
    ensures r == TooDeep
  {
    hide X1Collector.Valid, Age2Gen, Room, X1Collector.HeapAndLogsOk, Complete, Young, CameBack, Shallow, Separate;
    var c, o := Start(Default);
    o := GrowOlder(c, o, fuel, 0);
    o := GrowOlder(c, o, fuel, 1);
    StoredNode(c.mem, o, 2, NULL, o);
    c.AssignMember(o, 0, o);
    assert c.mem == map[o := Node(2, o)];
    FewFit(c.cfg, c.mem, c.to, c.fr, 1);
    OldLoopIsDeep(c.mem, o, c.vars, c.rootv, fuel);
    assert Complete(c.cfg, c.mem, c.logs.to) by { PartialIsPossible(c); }
    ghost var e;
    r, e := c.ExecuteGc(1, fuel);
  }

  // ---------------------------------------------------------------------------
  // A cycle of young objects behind an old one
  // ---------------------------------------------------------------------------

  /** The heap: o, old, held by both slots, and a young cycle behind it. */
  ghost predicate Trap(c: X1Collector, o: Addr, a: Addr, b: Addr)
    reads c
  {
    && Roomy(c) && c.cfg == Default
    && o != a && o != b && a != b
    && c.mem == map[o := Node(2, a), a := Node(0, b), b := Node(0, a)]
    && c.vars == map[0 := o, 1 := o] && c.rootv == [0, 1]
  }

  /** Two young objects that refer to each other. */
  method MakeCycle(c: X1Collector, o: Addr) returns (a: Addr, b: Addr)
    requires c.cfg == Default && Solo(c, o, 2)
    modifies c
    ensures Roomy(c) && c.rootv == old(c.rootv)
    ensures o != a && o != b && a != b && c.vars == map[0 := o, 1 := a]
    ensures c.mem == map[o := Node(2, NULL), a := Node(0, b), b := Node(0, a)]
  {
    hide X1Collector.Valid, Age2Gen, GenOf;
    NurseryHasRoom(c, o, 2);
    var ok;
    ok, a := c.Alloc(0, 8, [1]);
    assert ReadAll(c.vars, [1]) == [NULL];
    assert c.mem == map[o := Node(2, NULL), a := Node(0, NULL)] && Wide(c.cfg, c.to);
    c.AssignVariable(1, a);
    ok, b := c.Alloc(0, 8, [1]);
    assert ReadAll(c.vars, [1]) == [a];
    assert c.mem == map[o := Node(2, NULL), a := Node(0, NULL), b := Node(0, a)] && Wide(c.cfg, c.to);
    StoredNode(c.mem, a, 0, NULL, b);
    c.AssignMember(a, 0, b);
  }

  /** The young cycle is put behind the old object. */
  method SetTrap(c: X1Collector, o: Addr) returns (a: Addr, b: Addr)
    requires c.cfg == Default && Solo(c, o, 2)
    modifies c
    ensures Trap(c, o, a, b)
  {
    hide X1Collector.Valid, Age2Gen, GenOf;
    a, b := MakeCycle(c, o);
    StoredNode(c.mem, o, 2, NULL, a);
    c.AssignMember(o, 0, a);
    c.AssignVariable(1, o);
  }

  /** There is no end to the chains behind o. */
  lemma TrapIsCyclic(mem: Mem<Hdr>, o: Addr, a: Addr, b: Addr, f: nat)
    requires o != a && o != b && a != b && mem == map[o := Node(2, a), a := Node(0, b), b := Node(0, a)]
    ensures !Returns(mem, o, f)
  {
    var p := [o, a, b, a];
    assert p[1] == p[3] && IsWalk(mem, o, p) && Repeats(p);
    ReturnsIffAcyclic(mem, o);
  }

  lemma TrapIsMet(mem: Mem<Hdr>, o: Addr, vars: map<nat, Addr>)
    requires o in mem && mem[o].Obj? && mem[o].hdr.age == 2 && vars == map[0 := o, 1 := o]
    ensures MetAgain(Young(Default, mem, 1), vars, [0, 1], 1)
  {
    OldAtTwo();
    var rootv: seq<nat> := [0, 1];
    assert rootv[0] in vars && rootv[1] in vars;
  }

  /** However large the stack, collecting the youngest generation overruns it. */
  method OverrunStack(fuel: nat) returns (r: Outcome)
    ensures r == TooDeep
  {
    hide X1Collector.Valid, Age2Gen, Room, X1Collector.HeapAndLogsOk, Complete, Young, MetAgain, Returns, Exchanged;
    var c, o := Start(Default);
    o := GrowOlder(c, o, fuel, 0);
    o := GrowOlder(c, o, fuel, 1);
    var a, b := SetTrap(c, o);
    r := Spring(c, o, a, b, fuel);
  }

  method Spring(c: X1Collector, o: Addr, ghost a: Addr, ghost b: Addr, fuel: nat) returns (r: Outcome)
    requires Trap(c, o, a, b)
    modifies c
    ensures r == TooDeep
  {
    hide X1Collector.Valid, Age2Gen, Room, X1Collector.HeapAndLogsOk, Complete, Young, MetAgain, Returns;
    FewFit(c.cfg, c.mem, c.to, c.fr, 1);
    TrapIsCyclic(c.mem, o, a, b, fuel + 1);
    TrapIsMet(c.mem, o, c.vars);
    assert Complete(c.cfg, c.mem, c.logs.to) by { PartialIsPossible(c); }
    ghost var e;
    r, e := c.ExecuteGc(1, fuel);
  }

  lemma PartialIsPossible(c: X1Collector)
    requires c.Valid() && c.logging && c.cfg == Default
    ensures Complete(c.cfg, c.mem, c.logs.to)
  {
    c.PartialIsSafe();
  }
}
