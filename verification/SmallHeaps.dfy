/**
 * Runs of the N-generation collector on heaps of one or two objects, for the
 * runs that show where it fails.
 */
module SmallHeaps {
  import opened Evacuation
  import opened Recursion
  import opened Stores
  import opened Logs
  import opened Turns
  import opened Depth
  import opened Retirement
  import opened X1

  const ROOM: nat := 1000

  /** An object of 8 bytes with one field. */
  function Node(age: nat, x: Addr): Cell<Hdr> { Obj(Hdr(0, age, 8), [x]) }

  // ---------------------------------------------------------------------------
  // Room
  // ---------------------------------------------------------------------------

  lemma {:induction false} BytesAreFew(mem: Mem<Hdr>, S: set<Addr>)
    requires forall a :: a in S ==> Stride(mem, a) <= 16
    ensures BytesOf(mem, S) <= 16 * |S|
  {
    if S != {} {
      var x :| x in S && BytesOf(mem, S) == Stride(mem, x) + BytesOf(mem, S - {x});
      BytesAreFew(mem, S - {x});
    }
  }

  lemma {:induction false} SubsetIsSmaller(S: set<Addr>, T: set<Addr>)
    requires S <= T
    ensures |S| <= |T|
  {
    if S != {} {
      var x :| x in S;
      SubsetIsSmaller(S - {x}, T - {x});
    }
  }

  /** All spaces are as large as they were reserved. */
  ghost predicate Wide(cfg: Config, spaces: seq<Space>) {
    |spaces| == cfg.n && forall g :: 0 <= g < |spaces| ==> spaces[g].hi - spaces[g].lo == ROOM
  }

  /** A handful of small objects fits anywhere. */
  lemma FewFit(cfg: Config, mem: Mem<Hdr>, to: seq<Space>, fr: seq<Space>, u: nat)
    requires Wide(cfg, to) && Wide(cfg, fr)
    requires |mem.Keys| <= 3 && forall a :: a in mem ==> mem[a].Obj? && mem[a].hdr.size == 8
    ensures Room(cfg, mem, Exchanged(to, fr, u), u)
  {
    var to' := Exchanged(to, fr, u);
    forall g | 0 <= g < |to'| ensures BytesOf(mem, Destined(cfg, mem, u, g)) <= to'[g].hi - to'[g].lo {
      var S := Destined(cfg, mem, u, g);
      SubsetIsSmaller(S, mem.Keys);
      BytesAreFew(mem, S);
    }
  }

  lemma WideRanges(cfg: Config, a: seq<Space>, b: seq<Space>, u: nat, a': seq<Space>, b': seq<Space>)
    requires Wide(cfg, a) && Wide(cfg, b) && SameRanges(Exchanged(a, b, u), a') && SameRanges(Exchanged(b, a, u), b')
    ensures Wide(cfg, a') && Wide(cfg, b')
  {
  }

  /** Where the spaces of role r of n generations are. */
  function Places(n: nat, r: nat): seq<nat> { seq(n, g requires 0 <= g < n => 1000 + 2000 * (n * r + g)) }

  lemma PlacesAreApart(n: nat)
    ensures var ab := Places(n, 0) + Places(n, 1);
      && (forall x :: x in ab ==> 0 < x)
      && forall i, j :: 0 <= i < j < |ab| ==> ab[i] + ROOM <= ab[j] || ab[j] + ROOM <= ab[i]
  {
    var ab := Places(n, 0) + Places(n, 1);
    assert forall i :: 0 <= i < |ab| ==> ab[i] == 1000 + 2000 * i;
  }

  // ---------------------------------------------------------------------------
  // One object
  // ---------------------------------------------------------------------------

  /** Spaces and configuration as they were chosen. */
  ghost predicate Roomy(c: X1Collector)
    reads c
  {
    c.Valid() && c.logging && Wide(c.cfg, c.to) && Wide(c.cfg, c.fr)
  }

  /** The heap holds one object, held by slot 0; nothing was ever logged. */
  ghost predicate Solo(c: X1Collector, o: Addr, age: nat)
    reads c
  {
    && Roomy(c) && c.mem == map[o := Node(age, NULL)] && c.vars == map[0 := o, 1 := NULL] && c.rootv == [0, 1]
    && c.logs.to == Empties(c.cfg.n - 1)
  }

  lemma ObjectsAreNotNull(c: X1Collector, a: Addr)
    requires c.Valid() && a in c.mem
    ensures a != NULL
  {
    hide Age2Gen, Metered, LogsOk, Remembered;
    var g := Age2Gen(c.cfg, c.mem[a].hdr.age);
    assert AtHome(c.cfg, c.to, c.mem[a], a) && c.to[g].Ok();
  }

  lemma NullIsNowhere(c: X1Collector)
    requires c.Valid()
    ensures Foreign(c.to, c.fr, NULL)
  {
    hide Age2Gen, Listed, AtHome, Metered;
    assert AllOk(c.to) && AllOk(c.fr);
  }

  /** A new collector with one object. */
  method Start(cfg: Config) returns (c: X1Collector, o: Addr)
    ensures fresh(c) && c.cfg == cfg && Solo(c, o, 0)
  {
    hide X1Collector.Valid, Age2Gen;
    PlacesAreApart(cfg.n);
    c := new X1Collector(cfg, true, ROOM, Places(cfg.n, 0), Places(cfg.n, 1));
    NullIsNowhere(c);
    c.AssignVariable(0, NULL);
    c.AssignVariable(1, NULL);
    c.AddGcRoot(0);
    c.AddGcRoot(1);
    var ok;
    ok, o := c.Alloc(0, 8, [0]);
    assert ReadAll(c.vars, [0]) == [NULL];
    assert c.mem == map[o := Node(0, NULL)];
    c.AssignVariable(0, o);
  }

  lemma EveryoneIsYoung(cfg: Config, mem: Mem<Hdr>)
    requires forall a :: a in mem ==> mem[a].Obj?
    ensures Young(cfg, mem, cfg.n) == mem.Keys
  {
    AllAreYoung(cfg, mem, cfg.n);
  }

  /** After a collection of everything that held one object there is one object. */
  lemma OneIsLeft(e: Evac<Hdr>, o: Addr, age: nat)
    requires Finished(e) && e.mem0 == map[o := Node(age, NULL)] && e.from == {o} && Phi(e.mem, o) !in e.from
    requires o != NULL
    ensures Phi(e.mem, NULL) == NULL && Phi(e.mem, o) in e.mem && e.mem[Phi(e.mem, o)].Obj? && Copied(e, o)
    ensures e.mem[Phi(e.mem, o)].fields == [NULL] && Remaining(e).Keys == {Phi(e.mem, o)}
  {
    hide Finished, Survives, Phi, Origin;
    SurvivesIn(e, o);
    NullStays(e);
    ForwardingIsHomomorphism(e, o, 0);
    forall d | d in Remaining(e) ensures d == Phi(e.mem, o) { OriginSurvives(e, d); }
  }

  lemma SurvivesIn(e: Evac<Hdr>, a: Addr)
    requires Finished(e) && a in e.mem0 && Phi(e.mem, a) !in e.from
    ensures Survives(e, a) && Phi(e.mem, a) in e.mem && (a in e.from ==> Copied(e, a))
  {
    if a in e.from { assert Accounted(e, a); } else { PhiOfOutside(e, a); }
  }

  lemma NullStays(e: Evac<Hdr>)
    requires Finished(e) && NULL !in e.mem0
    ensures Phi(e.mem, NULL) == NULL
  {
    PhiOfOutside(e, NULL);
  }

  /** Nothing comes from empty logs. */
  lemma EmptyLogsStay(cfg: Config, e: Evac<Hdr>, u: nat, logs': seq<seq<MEntry>>, n: nat)
    requires LogsFollow(cfg, e, u, logs', Empties(n))
    ensures logs' == Empties(n)
  {
    forall k | 0 <= k < n ensures logs'[k] == [] {
      FirstIsIn(logs'[k]);
      if k < u { assert LogFollows(cfg, e, logs'[k], Empties(n)[k]); }
    }
  }

  lemma FirstIsIn<X>(s: seq<X>)
    ensures s == [] || s[0] in s
  {
  }

  /** A collection of everything: the object gets older. */
  method GrowOlder(c: X1Collector, o: Addr, fuel: nat, ghost age: nat) returns (o': Addr)
    requires Solo(c, o, age) && age < MAX_AGE
    modifies c
    ensures Solo(c, o', age + 1)
  {
    hide X1Collector.Valid, Age2Gen, Finished, Room, Phi, X1Collector.HeapAndLogsOk, LogsFollow, LeftoversFollow;
    hide CameBack, Separate;
    ghost var mem1, vars1, to1, fr1, n := c.mem, c.vars, c.to, c.fr, c.cfg.n - 1;
    FewFit(c.cfg, mem1, to1, fr1, c.cfg.n);
    ObjectsAreNotNull(c, o);
    EveryoneIsYoung(c.cfg, mem1);
    var r; ghost var e;
    r, e := c.ExecuteGc(c.cfg.n, fuel);
    assert r == X1.Fine;
    WideRanges(c.cfg, to1, fr1, c.cfg.n, c.to, c.fr);
    EmptyLogsStay(c.cfg, e, c.cfg.n, c.logs.to, n);
    assert Redirection(vars1, c.rootv, e, c.vars, 0) && Redirection(vars1, c.rootv, e, c.vars, 1);
    OneIsLeft(e, o, age);
    o' := c.vars[0];
    assert OneStepUp(c.cfg, mem1, c.mem, o, o');
    assert c.mem == map[o' := Node(age + 1, NULL)];
    c.DropLeftovers();
  }

  /** There is room for a few more objects in the youngest space. */
  lemma NurseryHasRoom(c: X1Collector, o: Addr, age: nat)
    requires Solo(c, o, age)
    ensures c.to[0].used <= 16 && c.to[0].hi - c.to[0].lo == ROOM
  {
    hide Age2Gen, AtHome, Apart, LogsOk, Remembered;
    assert Listed(c.cfg, c.mem, c.to) && Metered(c.mem, c.to) && AllOk(c.to);
    assert 0 < |c.to| && c.to[0].Ok();
    forall a | a in c.to[0].objs ensures a == o { assert a in c.mem; }
    OnceOnly(c.to[0].objs, o);
    OneStride(c.mem, c.to[0].objs);
  }

  lemma OnceOnly(s: seq<Addr>, o: Addr)
    requires (forall i, j :: 0 <= i < j < |s| ==> s[i] < s[j]) && forall a :: a in s ==> a == o
    ensures |s| <= 1
  {
    FirstTwoAreIn(s);
  }

  lemma FirstTwoAreIn<X>(s: seq<X>)
    ensures 2 <= |s| ==> s[0] in s && s[1] in s
  {
  }

  lemma OneStride(mem: Mem<Hdr>, s: seq<Addr>)
    requires |s| <= 1 && forall a :: a in s ==> a in mem && mem[a].Obj? && mem[a].hdr.size == 8
    ensures Total(mem, s) <= 16
  {
    if |s| == 1 { assert s[..0] == [] && s[0] in s; }
  }

  lemma StoredNode(mem: Mem<Hdr>, p: Addr, age: nat, x: Addr, y: Addr)
    requires p in mem && mem[p] == Node(age, x)
    ensures Assigned(mem, p, 0, y) == mem[p := Node(age, y)]
  {
    assert [x][0 := y] == [y];
  }
}
