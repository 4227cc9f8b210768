/**
 * Runs of the N-generation collector that lose a log entry. Wherever entries may
 * be retired too early, a parent and its child can be brought to ages at which a
 * collection retires the entry for the pointer between them, and later ones take
 * the parent to an older generation than the child, with nothing to remember it.
 */
module TooEarly {
  import opened Evacuation
  import opened Recursion
  import opened Stores
  import opened Logs
  import opened Turns
  import opened Depth
  import opened Retirement
  import opened X1
  import opened SmallHeaps

  function PairOf(p: Addr, x: Addr, pa: nat, xa: nat, linked: bool): Mem<Hdr> {
    map[p := Node(pa, if linked then x else NULL), x := Node(xa, NULL)]
  }

  /** The heap holds a parent and a child, each held by a root slot. */
  ghost predicate Pair(c: X1Collector, p: Addr, x: Addr, pa: nat, xa: nat, linked: bool)
    reads c
  {
    && Roomy(c) && p != x && c.mem == PairOf(p, x, pa, xa, linked) && c.vars == map[0 := p, 1 := x] && c.rootv == [0, 1]
  }

  /** The logs after the pointer from p to x has been stored. */
  function OneEntry(n: nat, p: Addr, x: Addr): seq<seq<MEntry>> {
    seq(n, k => if k == 0 then [MEntry(p, 0, x)] else [])
  }

  method AddChild(c: X1Collector, p: Addr, ghost pa: nat) returns (x: Addr)
    requires Solo(c, p, pa)
    modifies c
    ensures Pair(c, p, x, pa, 0, false) && c.logs.to == Empties(c.cfg.n - 1)
  {
    hide X1Collector.Valid, Age2Gen;
    NurseryHasRoom(c, p, pa);
    var ok;
    ok, x := c.Alloc(0, 8, [1]);
    assert ReadAll(c.vars, [1]) == [NULL];
    c.AssignVariable(1, x);
  }

  method Link(c: X1Collector, p: Addr, x: Addr, ghost pa: nat, ghost xa: nat)
    requires Pair(c, p, x, pa, xa, false) && c.logs.to == Empties(c.cfg.n - 1)
    requires LoggedFor(c.cfg, pa, xa) && Age2Gen(c.cfg, xa) == 0
    modifies c
    ensures Pair(c, p, x, pa, xa, true) && c.logs.to == OneEntry(c.cfg.n - 1, p, x)
  {
    hide X1Collector.Valid, Age2Gen;
    StoredNode(c.mem, p, pa, NULL, x);
    OneAppended(c.cfg.n - 1, p, x);
    c.AssignMember(p, 0, x);
  }

  lemma OneAppended(n: nat, p: Addr, x: Addr)
    requires 0 < n
    ensures Append(Empties(n), 0, [MEntry(p, 0, x)]) == OneEntry(n, p, x)
  {
    assert [] + [MEntry(p, 0, x)] == [MEntry(p, 0, x)];
  }

  // ---------------------------------------------------------------------------
  // One collection
  // ---------------------------------------------------------------------------

  lemma PairReturns(p: Addr, x: Addr, pa: nat, xa: nat, linked: bool, f: nat)
    requires p != x && p != NULL && x != NULL && 2 <= f
    ensures forall z :: Returns(PairOf(p, x, pa, xa, linked), z, f)
  {
    var mem := PairOf(p, x, pa, xa, linked);
    assert forall g :: Returns(mem, NULL, g);
    assert forall g: nat :: 1 <= g ==> Returns(mem, x, g);
  }

  /** After a collection that both survived there are two objects. */
  lemma TwoAreLeft(e: Evac<Hdr>, p: Addr, x: Addr, pa: nat, xa: nat, linked: bool)
    requires Finished(e) && e.mem0 == PairOf(p, x, pa, xa, linked) && p != x && p != NULL && x != NULL
    requires Phi(e.mem, p) !in e.from && Phi(e.mem, x) !in e.from
    ensures var p', x' := Phi(e.mem, p), Phi(e.mem, x);
      && Phi(e.mem, NULL) == NULL && p' != x' && Remaining(e).Keys == {p', x'}
      && p' in e.mem && e.mem[p'].Obj? && e.mem[p'].fields == [if linked then x' else NULL]
      && x' in e.mem && e.mem[x'].Obj? && e.mem[x'].fields == [NULL]
  {
    hide Finished, Survives, Phi, Origin;
    SurvivesIn(e, p);
    SurvivesIn(e, x);
    NullStays(e);
    ForwardingIsHomomorphism(e, p, 0);
    ForwardingIsHomomorphism(e, x, 0);
    BothDiffer(e, p, x);
    forall d | d in Remaining(e) ensures d in {Phi(e.mem, p), Phi(e.mem, x)} { OriginSurvives(e, d); }
  }

  lemma BothDiffer(e: Evac<Hdr>, a: Addr, b: Addr)
    requires Finished(e) && Survives(e, a) && Survives(e, b) && a != b
    ensures Phi(e.mem, a) != Phi(e.mem, b)
  {
    if Phi(e.mem, a) == Phi(e.mem, b) { ForwardingIsInjective(e, a, b); }
  }

  /** How old a survivor is. */
  lemma SurvivorIsAged(c: X1Collector, e: Evac<Hdr>, u: nat, mem1: Mem<Hdr>, vars1: map<nat, Addr>, a: Addr, age: nat)
    requires c.Collected(e, u, mem1, vars1) && a in mem1 && mem1[a].Obj? && mem1[a].hdr == Hdr(0, age, 8)
    requires Phi(e.mem, a) !in e.from && Phi(e.mem, a) in c.mem && c.mem[Phi(e.mem, a)].Obj?
    ensures c.mem[Phi(e.mem, a)].hdr == Hdr(0, Aged(c.cfg, age, u), 8)
  {
    hide Age2Gen;
    SurvivesIn(e, a);
    hide Finished;
    if a in e.from {
      assert OneStepUp(c.cfg, mem1, c.mem, a, Phi(e.mem, a));
    } else {
      assert StaysPut(mem1, c.mem, a);
      OutsideStaysHere(e, a);
    }
  }

  lemma OutsideStaysHere(e: Evac<Hdr>, a: Addr)
    requires Finished(e) && a !in e.from
    ensures Phi(e.mem, a) == a
  {
    PhiOfOutside(e, a);
  }

  /** What is left of parent and child. */
  lemma PairIsAged(
      c: X1Collector, e: Evac<Hdr>, u: nat, p: Addr, x: Addr, pa: nat, xa: nat, linked: bool)
    requires p != x && p != NULL && x != NULL && c.rootv == [0, 1]
    requires c.Collected(e, u, PairOf(p, x, pa, xa, linked), map[0 := p, 1 := x])
    ensures var p', x' := Phi(e.mem, p), Phi(e.mem, x);
      && p' != x' && c.vars == map[0 := p', 1 := x'] && c.mem == Remaining(e)
      && c.mem == PairOf(p', x', Aged(c.cfg, pa, u), Aged(c.cfg, xa, u), linked)
  {
    hide Age2Gen, Finished, Phi, OneStepUp, StaysPut, Young, OldFields, RootSet;
    var mem1, vars1: map<nat, Addr> := PairOf(p, x, pa, xa, linked), map[0 := p, 1 := x];
    assert Redirection(vars1, c.rootv, e, c.vars, 0) && Redirection(vars1, c.rootv, e, c.vars, 1);
    TwoAreLeft(e, p, x, pa, xa, linked);
    SurvivorIsAged(c, e, u, mem1, vars1, p, pa);
    SurvivorIsAged(c, e, u, mem1, vars1, x, xa);
  }

  /** If the entry is not needed afterwards, it is retired. */
  lemma EntryIsRetired(
      cfg: Config, e: Evac<Hdr>, u: nat, logs': seq<seq<MEntry>>, n: nat, p: Addr, x: Addr, mem': Mem<Hdr>)
    requires LogsFollow(cfg, e, u, logs', OneEntry(n, p, x)) && 0 < u && mem' == Remaining(e)
    requires forall en: MEntry :: !MustRemember(cfg, mem', en.parent, en.snap)
    ensures logs' == Empties(n)
  {
    hide MustRemember;
    forall k | 0 <= k < n ensures logs'[k] == [] {
      FirstIsIn(logs'[k]);
      if k < u { assert LogFollows(cfg, e, logs'[k], OneEntry(n, p, x)[k]); }
    }
  }

  lemma NothingCrosses(cfg: Config, p: Addr, x: Addr, pa: nat, xa: nat, linked: bool, en: MEntry)
    requires p != x && !Crosses(cfg, pa, xa) && !Crosses(cfg, xa, pa)
    ensures !MustRemember(cfg, PairOf(p, x, pa, xa, linked), en.parent, en.snap)
  {
    hide Age2Gen;
  }

  /** A collection of the generations below u: both objects age, if theirs is among them. */
  method CollectPair(
      c: X1Collector, u: nat, fuel: nat, p: Addr, x: Addr, ghost pa: nat, ghost xa: nat, ghost linked: bool)
    returns (p': Addr, x': Addr)
    requires Pair(c, p, x, pa, xa, linked) && 2 <= fuel && u <= c.cfg.n
    requires (u == c.cfg.n || Complete(c.cfg, c.mem, c.logs.to))
    modifies c
    ensures Pair(c, p', x', Aged(c.cfg, pa, u), Aged(c.cfg, xa, u), linked)
    ensures old(c.logs.to) == Empties(c.cfg.n - 1) ==> c.logs.to == Empties(c.cfg.n - 1)
    ensures old(c.logs.to) == OneEntry(c.cfg.n - 1, p, x) && 0 < u ==>
      SameGeneration(c.cfg, Aged(c.cfg, pa, u), Aged(c.cfg, xa, u)) ==> c.logs.to == Empties(c.cfg.n - 1)
  {
    hide X1Collector.Valid, Age2Gen, Finished, Room, Phi, X1Collector.HeapAndLogsOk, LogsFollow, LeftoversFollow;
    hide CameBack, Separate;
    hide Complete, Shallow, SameRanges, Returns, X1Collector.Collected;
    ghost var mem1, vars1, to1, fr1, logs1 := c.mem, c.vars, c.to, c.fr, c.logs.to;
    FewFit(c.cfg, mem1, to1, fr1, u);
    ObjectsAreNotNull(c, p);
    ObjectsAreNotNull(c, x);
    PairReturns(p, x, pa, xa, linked, fuel);
    AcyclicIsShallow(c.cfg, mem1, u, vars1, c.rootv, logs1, fuel);
    var r; ghost var e;
    r, e := c.ExecuteGc(u, fuel);
    assert r == X1.Fine;
    WideRanges(c.cfg, to1, fr1, u, c.to, c.fr);
    PairIsAged(c, e, u, p, x, pa, xa, linked);
    p', x' := c.vars[0], c.vars[1];
    LogsAfter(c.cfg, e, u, c.logs.to, logs1, p, x, p', x', Aged(c.cfg, pa, u), Aged(c.cfg, xa, u), linked);
    c.DropLeftovers();
  }

  predicate SameGeneration(cfg: Config, a: nat, b: nat) { Age2Gen(cfg, a) == Age2Gen(cfg, b) }

  lemma LogsAfter(
      cfg: Config, e: Evac<Hdr>, u: nat, logs': seq<seq<MEntry>>, logs: seq<seq<MEntry>>,
      p: Addr, x: Addr, p': Addr, x': Addr, pa: nat, xa: nat, linked: bool)
    requires LogsFollow(cfg, e, u, logs', logs) && Remaining(e) == PairOf(p', x', pa, xa, linked) && p' != x'
    ensures logs == Empties(cfg.n - 1) ==> logs' == Empties(cfg.n - 1)
    ensures logs == OneEntry(cfg.n - 1, p, x) && 0 < u && SameGeneration(cfg, pa, xa) ==> logs' == Empties(cfg.n - 1)
  {
    hide LogsFollow, Age2Gen;
    if logs == Empties(cfg.n - 1) { EmptyLogsStay(cfg, e, u, logs', cfg.n - 1); }
    if logs == OneEntry(cfg.n - 1, p, x) && 0 < u && SameGeneration(cfg, pa, xa) {
      forall en: MEntry ensures !MustRemember(cfg, Remaining(e), en.parent, en.snap) {
        NothingCrosses(cfg, p', x', pa, xa, linked, en);
      }
      EntryIsRetired(cfg, e, u, logs', cfg.n - 1, p, x, Remaining(e));
    }
  }

  // ---------------------------------------------------------------------------
  // What is complete, and what is not
  // ---------------------------------------------------------------------------

  lemma TogetherIsComplete(cfg: Config, p: Addr, x: Addr, pa: nat, xa: nat, linked: bool, logs: seq<seq<MEntry>>)
    requires p != x && SameGeneration(cfg, pa, xa)
    ensures Complete(cfg, PairOf(p, x, pa, xa, linked), logs)
  {
    hide Age2Gen;
  }

  lemma LoggedIsComplete(cfg: Config, p: Addr, x: Addr, pa: nat, xa: nat)
    requires p != x && p != NULL && x != NULL && LoggedFor(cfg, pa, xa) && Age2Gen(cfg, xa) == 0
    ensures Complete(cfg, PairOf(p, x, pa, xa, true), OneEntry(cfg.n - 1, p, x))
  {
    hide Age2Gen;
    var mem, logs := PairOf(p, x, pa, xa, true), OneEntry(cfg.n - 1, p, x);
    forall a, i | a in mem && mem[a].Obj? && 0 <= i < |mem[a].fields| && MustRemember(cfg, mem, a, mem[a].fields[i])
      ensures InLogs(logs, GenOf(cfg, mem, mem[a].fields[i]), MEntry(a, i, mem[a].fields[i]))
    {
      assert a == p && i == 0;
      assert MEntry(p, 0, x) in logs[0];
    }
  }

  lemma ForgottenIsNotComplete(cfg: Config, p: Addr, x: Addr, pa: nat, xa: nat)
    requires p != x && Crosses(cfg, pa, xa)
    ensures !Complete(cfg, PairOf(p, x, pa, xa, true), Empties(cfg.n - 1))
  {
    hide Age2Gen;
    var mem := PairOf(p, x, pa, xa, true);
    assert MustRemember(cfg, mem, p, mem[p].fields[0]);
  }

  // ---------------------------------------------------------------------------
  // The runs
  // ---------------------------------------------------------------------------

  /** Two survivals and three generations, or more. */
  method LoseInSecond(cfg: Config, fuel: nat) returns (c: X1Collector)
    requires 3 <= cfg.n && cfg.survive == 2 && 2 <= fuel
    ensures fresh(c) && c.cfg == cfg && c.logging && c.Valid() && !Complete(c.cfg, c.mem, c.logs.to)
  {
    hide X1Collector.Valid, Complete;
    var p, x;
    c, p := Start(cfg);
    p := GrowOlder(c, p, fuel, 0);
    p := GrowOlder(c, p, fuel, 1);
    x := AddChild(c, p, 2);
    p, x := CollectPair(c, cfg.n, fuel, p, x, 2, 0, false);
    Link(c, p, x, 3, 1);
    ObjectsAreNotNull(c, p);
    ObjectsAreNotNull(c, x);
    LoggedIsComplete(cfg, p, x, 3, 1);
    p, x := CollectPair(c, 1, fuel, p, x, 3, 1, true);
    TogetherIsComplete(cfg, p, x, 3, 2, true, c.logs.to);
    p, x := CollectPair(c, 2, fuel, p, x, 3, 2, true);
    ForgottenIsNotComplete(cfg, p, x, 4, 3);
  }

  lemma StillInNursery(cfg: Config, a: nat)
    requires a < cfg.survive <= MAX_AGE && 2 <= cfg.n
    ensures Age2Gen(cfg, a) == 0 && Aged(cfg, a, 1) == a + 1 && Aged(cfg, a, cfg.n) == a + 1
  {
    DivFacts(a, cfg.survive);
  }

  /** Three survivals or more. */
  method LoseInNursery(cfg: Config, fuel: nat) returns (c: X1Collector)
    requires 2 <= cfg.n && 3 <= cfg.survive <= MAX_AGE && 2 <= fuel
    ensures fresh(c) && c.cfg == cfg && c.logging && c.Valid() && !Complete(c.cfg, c.mem, c.logs.to)
  {
    hide X1Collector.Valid, Complete, Age2Gen;
    var p, x;
    c, p := Start(cfg);
    p := GrowOlder(c, p, fuel, 0);
    x := AddChild(c, p, 1);
    StillInNursery(cfg, 0);
    StillInNursery(cfg, 1);
    StillInNursery(cfg, 2);
    Link(c, p, x, 1, 0);
    ObjectsAreNotNull(c, p);
    ObjectsAreNotNull(c, x);
    LoggedIsComplete(cfg, p, x, 1, 0);
    p, x := CollectPair(c, 1, fuel, p, x, 1, 0, true);
    var i := 2;
    while i < cfg.survive
      invariant 2 <= i <= cfg.survive && fresh(c) && c.cfg == cfg && Pair(c, p, x, i, i - 1, true)
      invariant c.logs.to == Empties(cfg.n - 1)
    {
      StillInNursery(cfg, i);
      StillInNursery(cfg, i - 1);
      TogetherIsComplete(cfg, p, x, i, i - 1, true, c.logs.to);
      p, x := CollectPair(c, 1, fuel, p, x, i, i - 1, true);
      i := i + 1;
    }
    JustPromotedCrosses(cfg);
    ForgottenIsNotComplete(cfg, p, x, cfg.survive, cfg.survive - 1);
  }

  lemma JustPromotedCrosses(cfg: Config)
    requires 2 <= cfg.n && 3 <= cfg.survive
    ensures Crosses(cfg, cfg.survive, cfg.survive - 1)
  {
    DivFacts(cfg.survive, cfg.survive);
    DivFacts(cfg.survive - 1, cfg.survive);
  }

  /**
   * In every configuration in which deciding by generation is not right, the
   * collector comes to a state in which an old-to-young pointer has no entry.
   */
  method LoseEntry(cfg: Config, fuel: nat) returns (c: X1Collector)
    requires !DecidesRightly(cfg) && 2 <= fuel
    ensures fresh(c) && c.cfg == cfg && c.logging && c.Valid() && !Complete(c.cfg, c.mem, c.logs.to)
  {
    hide X1Collector.Valid, Complete;
    if cfg.survive == 2 {
      c := LoseInSecond(cfg, fuel);
    } else {
      c := LoseInNursery(cfg, fuel);
    }
  }
}
