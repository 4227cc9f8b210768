/**
 * How a collection of the N-generation heap begins and ends: the heap and the
 * logs between collections give the invariants a collection needs, and when
 * roots and logs have been dealt with, what is left is such a heap again.
 */
module Turns {
  import opened Evacuation
  import opened Stores
  import opened Logs
  import opened Retirement

  // ---------------------------------------------------------------------------
  // The start
  // ---------------------------------------------------------------------------

  /** xs with its first k elements taken from ys. */
  function Exchanged<X>(xs: seq<X>, ys: seq<X>, k: nat): (r: seq<X>)
    requires |xs| == |ys|
    ensures |r| == |xs|
  {
    seq(|xs|, g requires 0 <= g < |xs| => if g < k then ys[g] else xs[g])
  }

  /** The objects a collection moves: those of the generations below upto. */
  function Young(cfg: Config, mem: Mem<Hdr>, upto: nat): set<Addr> {
    set a | a in mem && mem[a].Obj? && GenOf(cfg, mem, a) < upto
  }

  lemma YoungAre(cfg: Config, mem: Mem<Hdr>, u: nat)
    ensures forall a :: a in mem && mem[a].Obj? ==> (a in Young(cfg, mem, u) <==> Age2Gen(cfg, mem[a].hdr.age) < u)
  {
    hide Age2Gen;
  }

  function Starting(cfg: Config, mem: Mem<Hdr>, upto: nat, roots: set<Addr>): Evac<Hdr> {
    var from := Young(cfg, mem, upto);
    Evac(mem, mem, from, roots + OldFields(mem, from), map[])
  }

  lemma ExchangeKeepsApart(to: seq<Space>, fr: seq<Space>, k: nat)
    requires Apart(to, fr) && AllOk(to) && AllOk(fr)
    ensures Apart(Exchanged(to, fr, k), Exchanged(fr, to, k))
    ensures AllOk(Exchanged(to, fr, k)) && AllOk(Exchanged(fr, to, k))
  {
    hide Space.Ok;
    var to', fr' := Exchanged(to, fr, k), Exchanged(fr, to, k);
    forall g, h | 0 <= g < |to'| && 0 <= h < |fr'| ensures Disj(to'[g], fr'[h]) {
      if g < h { assert Disj(to[g], to[h]) && Disj(fr[g], fr[h]); }
      if h < g { assert Disj(to[h], to[g]) && Disj(fr[h], fr[g]); }
      assert Disj(to[g], fr[h]) && Disj(to[h], fr[g]);
    }
    forall g, h | 0 <= g < h < |to'| ensures Disj(to'[g], to'[h]) && Disj(fr'[g], fr'[h]) {
      assert Disj(to[g], to[h]) && Disj(fr[g], fr[h]);
      assert Disj(to[g], fr[h]) && Disj(to[h], fr[g]);
    }
  }

  lemma ExchangeKeepsForeign(to: seq<Space>, fr: seq<Space>, k: nat, x: Addr)
    requires |to| == |fr|
    ensures Foreign(Exchanged(to, fr, k), Exchanged(fr, to, k), x) <==> Foreign(to, fr, x)
  {
    var to', fr' := Exchanged(to, fr, k), Exchanged(fr, to, k);
    if !Foreign(to, fr, x) {
      var g :| 0 <= g < |to| && (to[g].Holds(x) || fr[g].Holds(x));
      assert to'[g].Holds(x) || fr'[g].Holds(x);
    }
    if !Foreign(to', fr', x) {
      var g :| 0 <= g < |to| && (to'[g].Holds(x) || fr'[g].Holds(x));
      assert to[g].Holds(x) || fr[g].Holds(x);
    }
  }

  lemma TurnBegins(cfg: Config, mem: Mem<Hdr>, to: seq<Space>, fr: seq<Space>, upto: nat, roots: set<Addr>)
    requires HeapOk(cfg, mem, to, fr) && upto <= cfg.n
    requires forall s :: s in roots ==> s in mem || Foreign(to, fr, s)
    ensures |to| == |fr|
    ensures Moving(Turn(cfg, upto, Exchanged(fr, to, upto)), Starting(cfg, mem, upto, roots), Exchanged(to, fr, upto))
    ensures White(Starting(cfg, mem, upto, roots))
  {
    hide Age2Gen, Foreign;
    var e := Starting(cfg, mem, upto, roots);
    var c, to' := Turn(cfg, upto, Exchanged(fr, to, upto)), Exchanged(to, fr, upto);
    ExchangeKeepsApart(to, fr, upto);
    StartInv(cfg, mem, to, upto, roots);
    hide Apart;
    StartPlaces(cfg, mem, to, fr, upto, e, c, to');
    StartPointers(cfg, mem, to, fr, upto, roots);
  }

  lemma StartInv(cfg: Config, mem: Mem<Hdr>, to: seq<Space>, upto: nat, roots: set<Addr>)
    requires forall a :: a in mem ==> AtHome(cfg, to, mem[a], a)
    ensures Inv(Starting(cfg, mem, upto, roots))
  {
    hide Age2Gen;
    var from := Young(cfg, mem, upto);
    forall t, i | t in mem && t !in from && 0 <= i < |mem[t].fields| ensures mem[t].fields[i] in OldFields(mem, from) {}
    InvStart(mem, from, roots + OldFields(mem, from));
  }

  lemma StartPlaces(
      cfg: Config, mem: Mem<Hdr>, to: seq<Space>, fr: seq<Space>, upto: nat, e: Evac<Hdr>, c: Turn, to': seq<Space>)
    requires |to| == |fr| == cfg.n && c == Turn(cfg, upto, Exchanged(fr, to, upto)) && to' == Exchanged(to, fr, upto)
    requires Spaces(c, to') && AllOk(to)
    requires forall a :: a in mem ==> AtHome(cfg, to, mem[a], a)
    requires Listed(cfg, mem, to) && Metered(mem, to) && forall g :: 0 <= g < |fr| ==> fr[g].Empty()
    requires e.mem == e.mem0 == mem && e.from == Young(cfg, mem, upto) && e.src == map[]
    ensures Originals(c, e, to') && Copies(c, e, to') && InUse(c, e, to')
  {
    hide Age2Gen, Apart, Spaces;
    hide Metered;
    assert Metered(mem, to') by { ExchangedIsMetered(mem, to, fr, upto); }
    forall g, a | 0 <= g < |to'| && a in to'[g].objs ensures a in mem && AgedFor(cfg, g, mem[a]) && a !in e.from {
      assert upto <= g && a in to[g].objs;
    }
  }

  lemma ExchangedIsMetered(mem: Mem<Hdr>, to: seq<Space>, fr: seq<Space>, u: nat)
    requires |to| == |fr| && Metered(mem, to) && forall g :: 0 <= g < |fr| ==> fr[g].Empty()
    ensures Metered(mem, Exchanged(to, fr, u))
  {
  }

  lemma StartPointers(cfg: Config, mem: Mem<Hdr>, to: seq<Space>, fr: seq<Space>, upto: nat, roots: set<Addr>)
    requires HeapOk(cfg, mem, to, fr) && |to| == |fr|
    requires forall s :: s in roots ==> s in mem || Foreign(to, fr, s)
    ensures Pointers(Turn(cfg, upto, Exchanged(fr, to, upto)), Starting(cfg, mem, upto, roots), Exchanged(to, fr, upto))
  {
    hide Age2Gen, Foreign, Apart, AllOk, Listed, AtHome;
    forall x ensures Foreign(Exchanged(to, fr, upto), Exchanged(fr, to, upto), x) <==> Foreign(to, fr, x) {
      ExchangeKeepsForeign(to, fr, upto, x);
    }
    forall s | s in OldFields(mem, Young(cfg, mem, upto)) ensures s in mem || Foreign(to, fr, s) {
      var a, i :| a in mem && a !in Young(cfg, mem, upto) && mem[a].Obj? && 0 <= i < |mem[a].fields| &&
        s == mem[a].fields[i];
    }
  }

  function Empties(n: nat): seq<seq<MEntry>> { seq(n, _ => []) }

  /** The logs when the spaces have exchanged roles: those of the collected generations come in. */
  lemma LogsBegin(cfg: Config, mem: Mem<Hdr>, c: Turn, upto: nat, roots: set<Addr>, logs: seq<seq<MEntry>>)
    requires LogsOk(cfg, mem, logs) && c.cfg == cfg && c.upto == upto
    requires forall a :: a in mem ==> mem[a].Obj?
    ensures var es := Empties(|logs|);
      LogState(c, Starting(cfg, mem, upto, roots),
        MutationLogs(Exchanged(logs, es, upto), Exchanged(es, logs, upto), es),
          LogHistory(logs, Exchanged(es, logs, upto), es), 0, 0)
  {
    hide Age2Gen;
    var es := Empties(|logs|);
    var e, ml := Starting(cfg, mem, upto, roots),
      MutationLogs(Exchanged(logs, es, upto), Exchanged(es, logs, upto), es);
    var h := LogHistory(logs, Exchanged(es, logs, upto), es);
    forall k | 0 <= k < |ml.to| && k < c.upto ensures LogOkAt(c, e, ml, h, k, 0, 0) {
      forall j | 0 <= j < |ml.fr[k]| ensures EntryOk(cfg, mem, k, h.fr[k][j]) && Version(e, h.fr[k][j], ml.fr[k][j]) {
        assert ml.fr[k][j] in logs[k];
      }
    }
  }

  // ---------------------------------------------------------------------------
  // The end
  // ---------------------------------------------------------------------------

  /** Everything the phases of a collection have established. */
  ghost predicate AllDone(c: Turn, e: Evac<Hdr>, to: seq<Space>, ml: MutationLogs, h: LogHistory, roots: set<Addr>) {
    && Moving(c, e, to) && White(e) && LogState(c, e, ml, h, 0, 0)
    && (forall k :: 0 <= k < |h.fr| ==> Stuck(e, h.fr[k]))
    && (forall k :: 0 <= k < |ml.triage| ==> ml.triage[k] == [])
    && e.starts == roots + OldFields(e.mem0, e.from)
    && (forall s :: s in roots ==> Phi(e.mem, s) !in e.from)
    && (c.upto == c.cfg.n || Complete(c.cfg, e.mem0, h.start))
  }

  /** An entry that was current and whose parent survives has been settled. */
  lemma SurvivorIsSettled(
      c: Turn, e: Evac<Hdr>, to: seq<Space>, ml: MutationLogs, h: LogHistory, roots: set<Addr>, k: nat, en0: MEntry)
    requires AllDone(c, e, to, ml, h, roots) && k < |h.start| && k < c.upto && k < |ml.to| && en0 in h.start[k]
    requires Sound(e, en0) && Active(e, en0) && Survives(e, en0.parent)
    ensures Settled(c.cfg, e, ml.to[k], en0)
  {
    hide Moving, White, Settled, Matches, KeepOk;
    assert LogOkAt(c, e, ml, h, k, 0, 0);
    assert k < |h.fr| && Stuck(e, h.fr[k]);
    assert h.triage[k] == [];
  }

  lemma OldObjectIsClean(
      c: Turn, e: Evac<Hdr>, to: seq<Space>, ml: MutationLogs, h: LogHistory, roots: set<Addr>, d: Addr)
    requires AllDone(c, e, to, ml, h, roots) && d in e.mem && d !in e.from && d !in e.src
    ensures Clean(e, d)
  {
    MemoryOf(c, e, to);
    InvOf(c, e, to);
    assert Faithful(e, d);
    hide Moving, White, LogState, Age2Gen, Inv;
    forall i | 0 <= i < |e.mem[d].fields| ensures e.mem[d].fields[i] !in e.from {
      OldFieldIsForwarded(c, e, to, ml, h, roots, d, i);
    }
  }

  /** A pointer from an old object into the collected generations was remembered, hence redirected. */
  lemma OldFieldIsForwarded(
      c: Turn, e: Evac<Hdr>, to: seq<Space>, ml: MutationLogs, h: LogHistory, roots: set<Addr>, d: Addr, i: nat)
    requires AllDone(c, e, to, ml, h, roots) && d in e.mem0 && d !in e.from && d in e.mem && e.mem[d].Obj?
    requires i < |e.mem[d].fields|
    ensures e.mem[d].fields[i] !in e.from
  {
    InvOf(c, e, to);
    assert Faithful(e, d);
    PhiOfOutside(e, d);
    var x := e.mem0[d].fields[i];
    assert FieldOk(e, x, e.mem[d].fields[i]);
    if x in e.from {
      YoungerThan(c, e, to, d, x);
      hide Moving, White, LogState, Age2Gen, Inv;
      assert InLogs(h.start, GenOf(c.cfg, e.mem0, x), MEntry(d, i, x));
      var k :| 0 <= k <= GenOf(c.cfg, e.mem0, x) && k < |h.start| && MEntry(d, i, x) in h.start[k];
      LogsFit(c, e, ml, h);
      SurvivorIsSettled(c, e, to, ml, h, roots, k, MEntry(d, i, x));
    }
  }

  lemma LogsFit(c: Turn, e: Evac<Hdr>, ml: MutationLogs, h: LogHistory)
    requires LogState(c, e, ml, h, 0, 0)
    ensures Sizes(c, ml, h)
  {
  }

  lemma YoungerThan(c: Turn, e: Evac<Hdr>, to: seq<Space>, d: Addr, x: Addr)
    requires Moving(c, e, to) && d in e.mem0 && d !in e.from && x in e.from
    ensures x in e.mem0 && e.mem0[x].Obj? && e.mem0[d].Obj? && c.upto < c.cfg.n
    ensures GenOf(c.cfg, e.mem0, x) < c.upto <= GenOf(c.cfg, e.mem0, d)
  {
    hide Copies, InUse, Pointers, AllFaithful, OnlyLive, Age2Gen;
    assert Accounted(e, x);
  }

  /** When every phase is done, no pointer into from-space is left anywhere. */
  lemma NothingLeftBehind(c: Turn, e: Evac<Hdr>, to: seq<Space>, ml: MutationLogs, h: LogHistory, roots: set<Addr>)
    requires AllDone(c, e, to, ml, h, roots)
    ensures Finished(e)
  {
    InvOf(c, e, to);
    MemoryOf(c, e, to);
    hide Moving, LogState, Age2Gen, Inv, Clean, Copied, Stuck;
    forall d | d in e.mem && d !in e.from ensures Clean(e, d) {
      if d !in e.src { OldObjectIsClean(c, e, to, ml, h, roots, d); }
    }
    forall s | s in e.starts && s in e.from ensures Copied(e, s) {
      if s !in roots {
        var a, i :| a in e.mem0 && a !in e.from && e.mem0[a].Obj? && 0 <= i < |e.mem0[a].fields| &&
          s == e.mem0[a].fields[i];
        OldFieldWasCopied(c, e, to, a, i);
      }
      MovedIsCopied(c, e, to, s);
    }
  }

  lemma MovedIsCopied(c: Turn, e: Evac<Hdr>, to: seq<Space>, s: Addr)
    requires Moving(c, e, to) && s in e.from && Phi(e.mem, s) !in e.from
    ensures Copied(e, s)
  {
    assert Accounted(e, s);
  }

  lemma OldFieldWasCopied(c: Turn, e: Evac<Hdr>, to: seq<Space>, a: Addr, i: nat)
    requires Moving(c, e, to) && a in e.mem0 && a !in e.from && e.mem0[a].Obj? && i < |e.mem0[a].fields|
    requires e.mem0[a].fields[i] in e.from && (a in e.mem ==> Clean(e, a))
    ensures Phi(e.mem, e.mem0[a].fields[i]) !in e.from
  {
    MemoryOf(c, e, to);
    InvOf(c, e, to);
    hide Moving;
    assert a !in e.src by { OldIsNotCopy(e, a); }
    assert Faithful(e, a);
    assert FieldOk(e, e.mem0[a].fields[i], e.mem[a].fields[i]);
  }

  lemma OldIsNotCopy(e: Evac<Hdr>, a: Addr)
    requires Inv(e) && a in e.mem0
    ensures a !in e.src
  {
  }

  // ---------------------------------------------------------------------------
  // The heap and the logs afterwards
  // ---------------------------------------------------------------------------

  /** The from-spaces after cleanup: empty. */
  function Cleared(fr: seq<Space>, k: nat): (r: seq<Space>)
    ensures |r| == |fr|
  {
    seq(|fr|, g requires 0 <= g < |fr| => if g < k then fr[g].(used := 0, objs := []) else fr[g])
  }

  lemma ClearedIsApart(to: seq<Space>, fr: seq<Space>, k: nat)
    requires Apart(to, fr) && AllOk(fr)
    ensures Apart(to, Cleared(fr, k)) && AllOk(Cleared(fr, k))
    ensures forall x :: Foreign(to, Cleared(fr, k), x) <==> Foreign(to, fr, x)
  {
    var fr' := Cleared(fr, k);
    forall x ensures Contains(fr', x) <==> Contains(fr, x) {
      if Contains(fr', x) { var g :| 0 <= g < |fr'| && fr'[g].Holds(x); assert fr[g].Holds(x); }
      if Contains(fr, x) { var g :| 0 <= g < |fr| && fr[g].Holds(x); assert fr'[g].Holds(x); }
    }
    forall g | 0 <= g < |fr'| ensures fr'[g].Ok() { assert fr[g].Ok(); }
    forall g, h | 0 <= g < h < |to| ensures Disj(to[g], to[h]) && Disj(fr'[g], fr'[h]) { assert Disj(fr[g], fr[h]); }
    forall g, h | 0 <= g < |to| && 0 <= h < |fr'| ensures Disj(to[g], fr'[h]) { assert Disj(to[g], fr[h]); }
  }

  lemma HeapIsOkAgain(c: Turn, e: Evac<Hdr>, to: seq<Space>)
    requires Moving(c, e, to) && Finished(e)
    requires forall g :: c.upto <= g < |c.fr| ==> c.fr[g].Empty()
    ensures HeapOk(c.cfg, Remaining(e), to, Cleared(c.fr, c.upto))
  {
    hide Finished, Age2Gen, Foreign, Copies, Originals, Pointers, Inv, Metered;
    ClearedIsApart(to, c.fr, c.upto);
    MemoryOf(c, e, to);
    RemainingIsMetered(c, e, to);
    hide Spaces, Apart, AllOk;
    var mem' := Remaining(e);
    forall a | a in mem' ensures AtHome(c.cfg, to, mem'[a], a) { RemainingIsAtHome(c, e, to, a); }
    forall a, i | a in mem' && mem'[a].Obj? && 0 <= i < |mem'[a].fields|
      ensures mem'[a].fields[i] in mem' || Foreign(to, Cleared(c.fr, c.upto), mem'[a].fields[i])
    {
      RemainingFieldIsOk(c, e, to, a, i);
    }
    SpacesAreOk(c, e, to);
  }

  lemma RemainingIsMetered(c: Turn, e: Evac<Hdr>, to: seq<Space>)
    requires Moving(c, e, to)
    ensures Metered(Remaining(e), to)
  {
    hide Originals, Copies, Pointers, Inv, Age2Gen, Spaces, Metered;
    MeterStays(e.mem, Remaining(e), to);
  }

  lemma SpacesAreOk(c: Turn, e: Evac<Hdr>, to: seq<Space>)
    requires Moving(c, e, to)
    ensures |to| == c.cfg.n && AllOk(to)
  {
  }

  lemma RemainingIsAtHome(c: Turn, e: Evac<Hdr>, to: seq<Space>, a: Addr)
    requires Moving(c, e, to) && a in Remaining(e)
    ensures AtHome(c.cfg, to, e.mem[a], a)
  {
    hide Age2Gen, InUse, Pointers, AllFaithful, OnlyLive, Apart, AllOk;
    if a in e.src { assert e.mem[a].hdr == Copy(e.mem0[e.src[a]]).hdr; }
  }

  lemma RemainingFieldIsOk(c: Turn, e: Evac<Hdr>, to: seq<Space>, a: Addr, i: nat)
    requires Moving(c, e, to) && Finished(e) && a in Remaining(e) && e.mem[a].Obj? && i < |e.mem[a].fields|
    ensures e.mem[a].fields[i] in Remaining(e) || Foreign(to, c.fr, e.mem[a].fields[i])
  {
    assert Clean(e, a);
    hide Moving, Finished;
    FieldIsReady(c, e, to, a, i);
  }

  /** The outgoing logs are in order. */
  lemma LogsAreOkAgain(c: Turn, e: Evac<Hdr>, to: seq<Space>, ml: MutationLogs, h: LogHistory, roots: set<Addr>)
    requires AllDone(c, e, to, ml, h, roots) && LogsOk(c.cfg, e.mem0, h.start)
    ensures LogsOk(c.cfg, Remaining(e), ml.to)
  {
    hide Moving, Age2Gen, Matches, Dealt, Version;
    MemoryOf(c, e, to);
    forall k, en | 0 <= k < |ml.to| && en in ml.to[k] ensures EntryOk(c.cfg, Remaining(e), k, en) {
      if k < c.upto {
        assert LogOkAt(c, e, ml, h, k, 0, 0);
        assert KeepOk(c.cfg, e, k, en);
      } else {
        assert EntryOk(c.cfg, e.mem0, k, en);
        OldStays(c, e, to, en.parent);
        OldStays(c, e, to, en.snap);
      }
    }
  }

  /** An object of a generation that is not collected is where it was. */
  lemma OldStays(c: Turn, e: Evac<Hdr>, to: seq<Space>, a: Addr)
    requires Moving(c, e, to) && a in e.mem0 && e.mem0[a].Obj? && c.upto <= GenOf(c.cfg, e.mem0, a)
    ensures a in Remaining(e) && a !in e.from && e.mem[a].Obj? && e.mem[a].hdr == e.mem0[a].hdr
    ensures |e.mem[a].fields| == |e.mem0[a].fields|
    ensures a !in e.src && Phi(e.mem, a) == a
  {
    hide Copies, InUse, Pointers, Age2Gen;
    OldIsNotCopy(e, a);
    assert Faithful(e, a);
    PhiOfOutside(e, a);
  }

  /**
   * Where a remembered pointer comes from: before the collection the same field
   * of the same object was a pointer whose entry must not be lost.
   */
  lemma CrossingOrigin(c: Turn, e: Evac<Hdr>, to: seq<Space>, a: Addr, i: nat)
    requires Moving(c, e, to) && Finished(e)
    requires a in Remaining(e) && e.mem[a].Obj? && i < |e.mem[a].fields|
    requires Owed(c.cfg, Remaining(e), a, e.mem[a].fields[i])
    ensures var o := Origin(e, a);
      && o in e.mem0 && Survives(e, o) && Phi(e.mem, o) == a && e.mem0[o].Obj? && i < |e.mem0[o].fields|
      && e.mem[a].fields[i] == Phi(e.mem, e.mem0[o].fields[i]) && Owed(c.cfg, e.mem0, o, e.mem0[o].fields[i])
  {
    hide Moving, Age2Gen, Finished, Inv, Phi, Survives;
    var o, x := Origin(e, a), e.mem[a].fields[i];
    OriginSurvives(e, a);
    ForwardingIsHomomorphism(e, o, i);
    TargetIsOld(c, e, to, o, i);
    AgeAfter(c, e, to, o);
    AgeAfter(c, e, to, e.mem0[o].fields[i]);
    OlderBefore(c.cfg, e.mem0[o].hdr.age, e.mem0[e.mem0[o].fields[i]].hdr.age, c.upto);
  }

  lemma OriginSurvives(e: Evac<Hdr>, a: Addr)
    requires Finished(e) && a in Remaining(e)
    ensures Survives(e, Origin(e, a)) && Phi(e.mem, Origin(e, a)) == a
    ensures Origin(e, a) in e.mem0 && e.mem0[Origin(e, a)].Obj? && |e.mem0[Origin(e, a)].fields| == |e.mem[a].fields|
  {
    assert Faithful(e, a);
    if a !in e.src { PhiOfOutside(e, a); }
  }

  /** A pointer that leads to an object now led to one before. */
  lemma TargetIsOld(c: Turn, e: Evac<Hdr>, to: seq<Space>, o: Addr, i: nat)
    requires Moving(c, e, to) && o in e.mem0 && e.mem0[o].Obj? && i < |e.mem0[o].fields|
    requires Phi(e.mem, e.mem0[o].fields[i]) in e.mem
    ensures e.mem0[o].fields[i] in e.mem0
  {
    hide Originals, Copies, InUse, AllFaithful, OnlyLive;
    var x := e.mem0[o].fields[i];
    if x !in e.mem0 {
      FromIsInMemory(e);
      NotACopy(c, e, to, x);
    }
  }

  /** How old an object is after the collection, and where. */
  lemma AgeAfter(c: Turn, e: Evac<Hdr>, to: seq<Space>, x: Addr)
    requires Moving(c, e, to) && x in e.mem0 && Phi(e.mem, x) !in e.from
    ensures e.mem0[x].Obj? && Phi(e.mem, x) in e.mem && e.mem[Phi(e.mem, x)].Obj? && e.mem0[x].hdr.age <= MAX_AGE
    ensures var age := e.mem[Phi(e.mem, x)].hdr.age;
      if x in e.from then age == NextAge(e.mem0[x].hdr.age) && GenOf(c.cfg, e.mem0, x) < c.upto &&
        Age2Gen(c.cfg, age) <= c.upto
      else age == e.mem0[x].hdr.age && c.upto <= GenOf(c.cfg, e.mem0, x)
    ensures e.mem[Phi(e.mem, x)].hdr.age == Aged(c.cfg, e.mem0[x].hdr.age, c.upto)
  {
    hide InUse, Pointers, Age2Gen, AllFaithful, OnlyLive, Apart, AllOk;
    FromIsInMemory(e);
    if x in e.from {
      assert Accounted(e, x);
      GenSteps(c.cfg, e.mem0[x].hdr.age);
    } else {
      OutsideIsObject(e, x);
    }
  }

  /** Where the collector decides rightly, every pointer whose entry must not be lost is remembered again. */
  lemma RememberedAgain(c: Turn, e: Evac<Hdr>, to: seq<Space>, ml: MutationLogs, h: LogHistory, roots: set<Addr>)
    requires AllDone(c, e, to, ml, h, roots) && Finished(e) && DecidesRightly(c.cfg)
    requires Remembered(c.cfg, e.mem0, h.start) && LogsOk(c.cfg, e.mem0, h.start)
    ensures Remembered(c.cfg, Remaining(e), ml.to)
  {
    hide AllDone, Finished, Age2Gen;
    var mem' := Remaining(e);
    forall a, i | a in mem' && mem'[a].Obj? && 0 <= i < |mem'[a].fields| && Owed(c.cfg, mem', a, mem'[a].fields[i])
      ensures InLogs(ml.to, GenOf(c.cfg, mem', mem'[a].fields[i]), MEntry(a, i, mem'[a].fields[i]))
    {
      CrossingIsRemembered(c, e, to, ml, h, roots, a, i);
    }
  }

  lemma CrossingIsRemembered(
      c: Turn, e: Evac<Hdr>, to: seq<Space>, ml: MutationLogs, h: LogHistory, roots: set<Addr>, a: Addr, i: nat)
    requires AllDone(c, e, to, ml, h, roots) && Finished(e) && DecidesRightly(c.cfg)
    requires Remembered(c.cfg, e.mem0, h.start) && LogsOk(c.cfg, e.mem0, h.start)
    requires a in Remaining(e) && e.mem[a].Obj? && i < |e.mem[a].fields|
    requires Owed(c.cfg, Remaining(e), a, e.mem[a].fields[i])
    ensures InLogs(ml.to, GenOf(c.cfg, e.mem, e.mem[a].fields[i]), MEntry(a, i, e.mem[a].fields[i]))
  {
    hide AllDone, Age2Gen, Finished, Remembered, LogsOk, MustRemember, Owed, Moving;
    PartsOfDone(c, e, to, ml, h, roots);
    var o, x := Origin(e, a), e.mem[a].fields[i];
    CrossingOrigin(c, e, to, a, i);
    var x0 := e.mem0[o].fields[i];
    var k := WasRemembered(c.cfg, e.mem0, h.start, o, i);
    GenRises(c, e, to, x0);
    EntryIsOk(c.cfg, e.mem0, h.start, k, MEntry(o, i, x0));
    if k < c.upto {
      SurvivorIsSettled(c, e, to, ml, h, roots, k, MEntry(o, i, x0));
      OwedIsKept(c, e, to, o, x0);
      SettledMeans(c, e, ml.to[k], MEntry(o, i, x0), a, x);
    } else {
      OldStays(c, e, to, o);
      OldStays(c, e, to, x0);
      OldLogStays(c, e, ml, h, k);
    }
    assert MEntry(a, i, x) in ml.to[k];
  }

  lemma OwedIsKept(c: Turn, e: Evac<Hdr>, to: seq<Space>, o: Addr, x: Addr)
    requires Moving(c, e, to) && DecidesRightly(c.cfg) && 0 < c.upto && o in e.mem0 && x in e.mem0
    requires Phi(e.mem, o) !in e.from && Phi(e.mem, x) !in e.from
    requires Owed(c.cfg, Remaining(e), Phi(e.mem, o), Phi(e.mem, x))
    ensures MustRemember(c.cfg, Remaining(e), Phi(e.mem, o), Phi(e.mem, x))
  {
    AgeAfter(c, e, to, o);
    AgeAfter(c, e, to, x);
    hide Moving, Age2Gen;
    OwedCrosses(c.cfg, e.mem0[o].hdr.age, e.mem0[x].hdr.age, c.upto);
  }

  lemma PartsOfDone(c: Turn, e: Evac<Hdr>, to: seq<Space>, ml: MutationLogs, h: LogHistory, roots: set<Addr>)
    requires AllDone(c, e, to, ml, h, roots)
    ensures Moving(c, e, to) && LogState(c, e, ml, h, 0, 0) && Sizes(c, ml, h)
  {
  }

  lemma WasRemembered(cfg: Config, mem: Mem<Hdr>, logs: seq<seq<MEntry>>, o: Addr, i: nat) returns (k: nat)
    requires Remembered(cfg, mem, logs) && o in mem && mem[o].Obj? && i < |mem[o].fields|
    requires Owed(cfg, mem, o, mem[o].fields[i])
    ensures mem[o].fields[i] in mem && mem[mem[o].fields[i]].Obj?
    ensures k <= GenOf(cfg, mem, mem[o].fields[i]) && k < |logs| && MEntry(o, i, mem[o].fields[i]) in logs[k]
  {
    hide Age2Gen;
    assert InLogs(logs, GenOf(cfg, mem, mem[o].fields[i]), MEntry(o, i, mem[o].fields[i]));
    k :| 0 <= k <= GenOf(cfg, mem, mem[o].fields[i]) && k < |logs| && MEntry(o, i, mem[o].fields[i]) in logs[k];
  }

  lemma EntryIsOk(cfg: Config, mem: Mem<Hdr>, logs: seq<seq<MEntry>>, k: nat, en: MEntry)
    requires LogsOk(cfg, mem, logs) && k < |logs| && en in logs[k]
    ensures EntryOk(cfg, mem, k, en)
  {
  }

  /** In the log of a settled entry there is one for where parent and child are now. */
  lemma SettledMeans(c: Turn, e: Evac<Hdr>, log: seq<MEntry>, en0: MEntry, a: Addr, x: Addr)
    requires Settled(c.cfg, e, log, en0) && a == Phi(e.mem, en0.parent) && x == FieldNow(e, en0)
    requires MustRemember(c.cfg, Remaining(e), a, x)
    ensures MEntry(a, en0.slot, x) in log
  {
  }

  lemma OldLogStays(c: Turn, e: Evac<Hdr>, ml: MutationLogs, h: LogHistory, k: nat)
    requires LogState(c, e, ml, h, 0, 0) && k < |ml.to| && c.upto <= k
    ensures k < |h.start| && ml.to[k] == h.start[k]
  {
  }

  // ---------------------------------------------------------------------------
  // Room
  // ---------------------------------------------------------------------------

  /** The objects that would be in generation g if everything survived a collection of the generations below u. */
  function Destined(cfg: Config, mem: Mem<Hdr>, u: nat, g: nat): set<Addr> {
    set a | a in mem && mem[a].Obj? && Age2Gen(cfg, Aged(cfg, mem[a].hdr.age, u)) == g
  }

  ghost function BytesOf(mem: Mem<Hdr>, S: set<Addr>): nat {
    if S == {} then 0 else var x :| x in S; Stride(mem, x) + BytesOf(mem, S - {x})
  }

  lemma {:induction false} BytesWithout(mem: Mem<Hdr>, S: set<Addr>, x: Addr)
    requires x in S
    ensures BytesOf(mem, S) == Stride(mem, x) + BytesOf(mem, S - {x})
  {
    var y :| y in S && BytesOf(mem, S) == Stride(mem, y) + BytesOf(mem, S - {y});
    if y != x {
      BytesWithout(mem, S - {y}, x);
      BytesWithout(mem, S - {x}, y);
      assert S - {y} - {x} == S - {x} - {y};
    }
  }

  lemma {:induction false} BytesMonotone(mem: Mem<Hdr>, S: set<Addr>, T: set<Addr>)
    requires S <= T
    ensures BytesOf(mem, S) <= BytesOf(mem, T)
  {
    if S != {} {
      var x :| x in S;
      BytesWithout(mem, S, x);
      BytesWithout(mem, T, x);
      BytesMonotone(mem, S - {x}, T - {x});
    }
  }

  /** Every space could hold what would be in its generation if everything survived. */
  ghost predicate Room(cfg: Config, mem: Mem<Hdr>, to: seq<Space>, u: nat) {
    forall g :: 0 <= g < |to| ==> BytesOf(mem, Destined(cfg, mem, u, g)) <= to[g].hi - to[g].lo
  }

  /** What the objects of a list were before the collection. */
  function Origins(e: Evac<Hdr>, objs: seq<Addr>): set<Addr> { set d | d in objs :: Origin(e, d) }

  lemma {:induction false} TotalOfOrigins(e: Evac<Hdr>, objs: seq<Addr>)
    requires forall i, j :: 0 <= i < j < |objs| ==> Origin(e, objs[i]) != Origin(e, objs[j])
    requires forall a :: a in objs ==> Stride(e.mem, a) == Stride(e.mem0, Origin(e, a))
    ensures Total(e.mem, objs) == BytesOf(e.mem0, Origins(e, objs))
  {
    if objs != [] {
      var rest, a := objs[..|objs| - 1], objs[|objs| - 1];
      assert objs == rest + [a];
      TotalOfOrigins(e, rest);
      assert Origin(e, a) !in Origins(e, rest);
      assert Origins(e, objs) == Origins(e, rest) + {Origin(e, a)};
      assert Origins(e, rest) + {Origin(e, a)} - {Origin(e, a)} == Origins(e, rest);
      BytesWithout(e.mem0, Origins(e, objs), Origin(e, a));
    }
  }

  /** An object of a to-space is one of those destined for it, as large as it was. */
  lemma ObjectIsDestined(c: Turn, e: Evac<Hdr>, to: seq<Space>, g: nat, d: Addr)
    requires Moving(c, e, to) && g < |to| && d in to[g].objs
    ensures Stride(e.mem, d) == Stride(e.mem0, Origin(e, d)) && Origin(e, d) in Destined(c.cfg, e.mem0, c.upto, g)
    ensures d in e.mem && d !in e.from && (d in e.src || d in e.mem0)
    ensures (d in e.src ==> e.src[d] in e.from && e.src[d] in e.mem && e.mem[e.src[d]] == Fwd(d))
  {
    hide Pointers, Age2Gen, AllFaithful, OnlyLive, Apart, AllOk, Metered;
    assert AgedFor(c.cfg, g, e.mem[d]);
    if d in e.src { assert Accounted(e, e.src[d]); }
  }

  lemma OriginsDiffer(c: Turn, e: Evac<Hdr>, to: seq<Space>, g: nat, i: nat, j: nat)
    requires Moving(c, e, to) && g < |to| && i < j < |to[g].objs|
    ensures Origin(e, to[g].objs[i]) != Origin(e, to[g].objs[j])
  {
    if to[g].objs[i] == to[g].objs[j] { OneHomeIn(c, e, to, g, i, g, j); }
    hide Moving;
    ObjectIsDestined(c, e, to, g, to[g].objs[i]);
    ObjectIsDestined(c, e, to, g, to[g].objs[j]);
  }

  /** If an object does not fit where it is to go, there was not room for everything. */
  lemma OutOfRoom(c: Turn, e: Evac<Hdr>, to: seq<Space>, x: Addr)
    requires Moving(c, e, to) && x in e.from && x in e.mem && e.mem[x].Obj? && x in e.mem0 && e.mem0[x].Obj?
    requires |to| == c.cfg.n && !to[Target(c, e, x)].Fits(e.mem0[x].hdr.size)
    ensures !Room(c.cfg, e.mem0, to, c.upto)
  {
    hide Moving, Age2Gen, Origin, Stride;
    var g := Target(c, e, x);
    Movable(c, e, to, x);
    SpaceIsMetered(c, e, to, g);
    assert Stride(e.mem0, x) == 8 + e.mem0[x].hdr.size by { StrideOf(e.mem0, x); }
    var all, now := Destined(c.cfg, e.mem0, c.upto, g), Origins(e, to[g].objs);
    forall i, j | 0 <= i < j < |to[g].objs| ensures Origin(e, to[g].objs[i]) != Origin(e, to[g].objs[j]) {
      OriginsDiffer(c, e, to, g, i, j);
    }
    forall d | d in to[g].objs
      ensures Stride(e.mem, d) == Stride(e.mem0, Origin(e, d)) && Origin(e, d) in all && Origin(e, d) != x
    {
      ObjectIsDestined(c, e, to, g, d);
      OriginIsMoved(e, d, x);
    }
    TotalOfOrigins(e, to[g].objs);
    assert x in all && x !in now && now + {x} <= all;
    BytesMonotone(e.mem0, now + {x}, all);
    BytesWithout(e.mem0, now + {x}, x);
    assert now + {x} - {x} == now;
  }

  lemma OriginIsMoved(e: Evac<Hdr>, d: Addr, x: Addr)
    requires d !in e.from && (d in e.src ==> e.src[d] in e.mem && e.mem[e.src[d]] == Fwd(d))
    requires x in e.from && x in e.mem && e.mem[x].Obj?
    ensures Origin(e, d) != x
  {
  }

  lemma StrideOf(mem: Mem<Hdr>, x: Addr)
    requires x in mem && mem[x].Obj?
    ensures Stride(mem, x) == 8 + mem[x].hdr.size
  {
  }

  lemma SpaceIsMetered(c: Turn, e: Evac<Hdr>, to: seq<Space>, g: nat)
    requires Moving(c, e, to) && g < |to|
    ensures to[g].used == Total(e.mem, to[g].objs)
  {
  }

  /** The same address ranges. */
  ghost predicate SameRanges(to: seq<Space>, to': seq<Space>) {
    |to'| == |to| && forall g :: 0 <= g < |to| ==> to'[g].lo == to[g].lo && to'[g].hi == to[g].hi
  }

  lemma ClearedRanges(fr: seq<Space>, k: nat)
    ensures SameRanges(fr, Cleared(fr, k))
  {
  }

  /** How large the spaces are does not change. */
  lemma RoomStays(cfg: Config, mem: Mem<Hdr>, to: seq<Space>, to': seq<Space>, u: nat)
    requires Grown(to, to')
    ensures Room(cfg, mem, to', u) == Room(cfg, mem, to, u)
  {
  }

  // ---------------------------------------------------------------------------
  // For the methods
  // ---------------------------------------------------------------------------

  lemma HeapHasParts(cfg: Config, mem: Mem<Hdr>, to: seq<Space>, fr: seq<Space>)
    requires HeapOk(cfg, mem, to, fr)
    ensures |to| == |fr| == cfg.n && (forall g :: 0 <= g < |fr| ==> fr[g].Empty())
    ensures forall a :: a in mem ==> mem[a].Obj?
  {
    hide Age2Gen;
  }

  lemma LogsFitHeap(cfg: Config, mem: Mem<Hdr>, logs: seq<seq<MEntry>>)
    requires LogsOk(cfg, mem, logs)
    ensures |logs| == cfg.n - 1
  {
  }

  /** y is where x is after surviving: one collection older, and in the generation for that age, at most one up. */
  predicate OneStepUp(cfg: Config, mem: Mem<Hdr>, mem': Mem<Hdr>, x: Addr, y: Addr) {
    && x in mem && mem[x].Obj? && y in mem' && mem'[y].Obj?
    && mem'[y].hdr == mem[x].hdr.(age := NextAge(mem[x].hdr.age))
    && GenOf(cfg, mem, x) <= GenOf(cfg, mem', y) <= GenOf(cfg, mem, x) + 1
  }

  /** An object that is not moved keeps its header. */
  predicate StaysPut(mem: Mem<Hdr>, mem': Mem<Hdr>, x: Addr) {
    x in mem && mem[x].Obj? && x in mem' && mem'[x].Obj? && mem'[x].hdr == mem[x].hdr
  }

  lemma OldOnesStayPut(c: Turn, e: Evac<Hdr>, to: seq<Space>)
    requires Moving(c, e, to)
    ensures forall a :: a in e.mem0 && a !in e.from ==> StaysPut(e.mem0, Remaining(e), a)
  {
    hide Copies, InUse, Pointers, Age2Gen, Inv, Spaces;
  }

  lemma CopiesAreOneStepUp(c: Turn, e: Evac<Hdr>, to: seq<Space>)
    requires Moving(c, e, to)
    ensures forall a :: a in e.from && Copied(e, a) ==> OneStepUp(c.cfg, e.mem0, Remaining(e), a, Phi(e.mem, a))
  {
    hide InUse, Pointers, Age2Gen, AllFaithful, OnlyLive, Apart, AllOk;
    forall a | a in e.from && Copied(e, a) ensures OneStepUp(c.cfg, e.mem0, Remaining(e), a, Phi(e.mem, a)) {
      assert Accounted(e, a);
      GenSteps(c.cfg, e.mem0[a].hdr.age);
      FromIsInMemory(e);
      CopyIsKept(e, Phi(e.mem, a));
    }
  }

  lemma CopyIsKept(e: Evac<Hdr>, d: Addr)
    requires Inv(e) && d in e.src
    ensures d in Remaining(e) && d !in e.from
  {
  }

  lemma RemainingByAddress(c: Turn, e: Evac<Hdr>, to: seq<Space>)
    requires Moving(c, e, to)
    ensures Remaining(e) == map a | a in e.mem && Contains(to, a) :: e.mem[a]
  {
    hide Originals, Copies, InUse, Pointers, AllFaithful, OnlyLive, Contains;
    forall a | a in e.mem ensures a !in e.from <==> Contains(to, a) { InToSpace(c, e, to, a); }
  }

  lemma AllAreYoung(cfg: Config, mem: Mem<Hdr>, u: nat)
    requires u == cfg.n && forall a :: a in mem ==> mem[a].Obj?
    ensures Young(cfg, mem, u) == mem.Keys
  {
  }

  /** Everything the end of a collection establishes. */
  lemma TurnEnds(
      c: Turn, e: Evac<Hdr>, to: seq<Space>, ml: MutationLogs, h: LogHistory, roots: set<Addr>,
      mem1: Mem<Hdr>, log: seq<seq<MEntry>>, vars1: map<nat, Addr>, rootv: seq<nat>, vars: map<nat, Addr>)
    requires AllDone(c, e, to, ml, h, roots) && Finished(e) && e.mem0 == mem1 && h.start == log
    requires LogsOk(c.cfg, mem1, log)
    requires forall g :: c.upto <= g < |c.fr| ==> c.fr[g].Empty()
    requires roots == RootSet(vars1, rootv) && Redirected(vars1, rootv, e, vars)
    requires forall v :: v in rootv ==> v in vars1
    ensures HeapOk(c.cfg, Remaining(e), to, Cleared(c.fr, c.upto)) && LogsOk(c.cfg, Remaining(e), ml.to)
    ensures |ml.fr| == c.cfg.n - 1 && ml.triage == Empties(c.cfg.n - 1)
    ensures forall v :: v in rootv ==>
      v in vars && (vars[v] in Remaining(e) || Foreign(to, Cleared(c.fr, c.upto), vars[v]))
    ensures forall k, en :: 0 <= k < |ml.fr| && en in ml.fr[k] ==> en.parent !in Remaining(e)
    ensures forall a :: a in e.from && Copied(e, a) ==> OneStepUp(c.cfg, e.mem0, Remaining(e), a, Phi(e.mem, a))
    ensures forall a :: a in e.mem0 && a !in e.from ==> StaysPut(e.mem0, Remaining(e), a)
    ensures e.starts == roots + OldFields(mem1, e.from)
  {
    hide AllDone, Finished, Age2Gen, Moving, Foreign, LogsOk, HeapOk, LogState, Remaining, Phi, OneStepUp, StaysPut;
    PartsOfDone(c, e, to, ml, h, roots);
    HeapIsOkAgain(c, e, to);
    LogsAreOkAgain(c, e, to, ml, h, roots);
    CopiesAreOneStepUp(c, e, to);
    OldOnesStayPut(c, e, to);
    StartsOfDone(c, e, to, ml, h, roots);
    FrIsApart(c, e, to);
    forall v | v in rootv
      ensures v in vars && (vars[v] in Remaining(e) || Foreign(to, Cleared(c.fr, c.upto), vars[v]))
    {
      assert Redirection(vars1, rootv, e, vars, v);
      RootIsOkAgain(c, e, to, vars1[v]);
    }
    forall k, en | 0 <= k < |ml.fr| && en in ml.fr[k] ensures en.parent !in Remaining(e) {
      LeftoverDangles(c, e, to, ml, h, roots, k, en);
    }
  }

  lemma StartsOfDone(c: Turn, e: Evac<Hdr>, to: seq<Space>, ml: MutationLogs, h: LogHistory, roots: set<Addr>)
    requires AllDone(c, e, to, ml, h, roots)
    ensures e.starts == roots + OldFields(e.mem0, e.from) && (forall s :: s in roots ==> Phi(e.mem, s) !in e.from)
    ensures ml.triage == Empties(|ml.triage|)
  {
    hide Moving, LogState, White, Stuck;
  }

  lemma FrIsApart(c: Turn, e: Evac<Hdr>, to: seq<Space>)
    requires Moving(c, e, to)
    ensures forall x :: Foreign(to, Cleared(c.fr, c.upto), x) <==> Foreign(to, c.fr, x)
  {
    ClearedIsApart(to, c.fr, c.upto);
  }

  lemma RootIsOkAgain(c: Turn, e: Evac<Hdr>, to: seq<Space>, s: Addr)
    requires Moving(c, e, to) && s in e.starts && Phi(e.mem, s) !in e.from
    ensures Phi(e.mem, s) in Remaining(e) || Foreign(to, c.fr, Phi(e.mem, s))
  {
    hide Moving;
    StartIsReady(c, e, to, s);
  }

  lemma LeftoverDangles(
      c: Turn, e: Evac<Hdr>, to: seq<Space>, ml: MutationLogs, h: LogHistory, roots: set<Addr>, k: nat, en: MEntry)
    requires AllDone(c, e, to, ml, h, roots) && k < |ml.fr| && en in ml.fr[k]
    ensures en.parent !in Remaining(e)
  {
    hide Moving, White, Age2Gen, KeepOk, Dealt;
    if k < c.upto {
      assert LogOkAt(c, e, ml, h, k, 0, 0);
      var j :| 0 <= j < |ml.fr[k]| && ml.fr[k][j] == en;
      assert Stuck(e, h.fr[k]) && h.fr[k][j] in h.fr[k];
      assert Version(e, h.fr[k][j], en);
    }
  }

  /** The entry was current when the collection began, and its parent turned out to be garbage. */
  ghost predicate ParentDied(e: Evac<Hdr>, en0: MEntry) {
    Sound(e, en0) && Active(e, en0) && !Survives(e, en0.parent)
  }

  /** Something is left over in a log exactly if the parent of a current entry in it died. */
  lemma LeftoversAre(c: Turn, e: Evac<Hdr>, to: seq<Space>, ml: MutationLogs, h: LogHistory, roots: set<Addr>, k: nat)
    requires AllDone(c, e, to, ml, h, roots) && k < |ml.fr| && k < |h.start|
    ensures ml.fr[k] == [] <==> c.upto <= k || forall en0 :: en0 in h.start[k] ==> !ParentDied(e, en0)
  {
    hide Moving, White, Age2Gen, KeepOk, Matches;
    LogsFit(c, e, ml, h);
    if k < c.upto {
      assert LogOkAt(c, e, ml, h, k, 0, 0) && Stuck(e, h.fr[k]);
      if ml.fr[k] != [] {
        assert h.fr[k][0] in h.fr[k] && ParentDied(e, h.fr[k][0]);
      }
      forall en0 | en0 in h.start[k] && ParentDied(e, en0) ensures ml.fr[k] != [] {
        DeadIsNotSettled(c, e, to, ml.to[k], en0);
      }
    }
  }

  lemma DeadIsNotSettled(c: Turn, e: Evac<Hdr>, to: seq<Space>, log: seq<MEntry>, en0: MEntry)
    requires Moving(c, e, to) && ParentDied(e, en0)
    ensures !Dealt(c.cfg, e, log, en0)
  {
    MemoryOf(c, e, to);
    hide Moving, MustRemember;
  }

  /** en is what is left of the entry en0, whose parent was not moved. */
  ghost predicate Stranded(e: Evac<Hdr>, en0: MEntry, en: MEntry) {
    && en.parent == en0.parent && en.slot == en0.slot
    && (en.snap == en0.snap || (en.snap == Phi(e.mem, en0.snap) && en.snap !in e.from))
  }

  /** What a collection leaves in an incoming log: exactly the current entries whose parents are garbage. */
  ghost predicate LeftIn(e: Evac<Hdr>, fr: seq<MEntry>, log: seq<MEntry>) {
    && (forall en0 :: en0 in log ==> (ParentDied(e, en0) <==> exists en :: en in fr && Stranded(e, en0, en)))
    && (forall en :: en in fr ==> exists en0 :: en0 in log && Stranded(e, en0, en))
  }

  /** What a collection leaves in the incoming logs. */
  ghost predicate LeftoversFollow(e: Evac<Hdr>, u: nat, fr: seq<seq<MEntry>>, log: seq<seq<MEntry>>) {
    |fr| == |log| && forall k :: 0 <= k < |fr| ==> if k < u then LeftIn(e, fr[k], log[k]) else fr[k] == []
  }

  lemma AllLeftovers(c: Turn, e: Evac<Hdr>, to: seq<Space>, ml: MutationLogs, h: LogHistory, roots: set<Addr>)
    requires AllDone(c, e, to, ml, h, roots) && LogsOk(c.cfg, e.mem0, h.start)
    ensures LeftoversFollow(e, c.upto, ml.fr, h.start)
  {
    PartsOfDone(c, e, to, ml, h, roots);
    hide AllDone, Moving, LogState, LeftIn, ParentDied, Age2Gen;
    forall k | 0 <= k < |ml.fr| ensures if k < c.upto then LeftIn(e, ml.fr[k], h.start[k]) else ml.fr[k] == [] {
      if k < c.upto {
        LeftInLog(c, e, to, ml, h, roots, k);
      } else {
        LeftoversAre(c, e, to, ml, h, roots, k);
      }
    }
  }

  lemma LeftInLog(c: Turn, e: Evac<Hdr>, to: seq<Space>, ml: MutationLogs, h: LogHistory, roots: set<Addr>, k: nat)
    requires AllDone(c, e, to, ml, h, roots) && LogsOk(c.cfg, e.mem0, h.start) && k < |ml.fr| && k < |h.start|
    requires k < c.upto
    ensures LeftIn(e, ml.fr[k], h.start[k])
  {
    PartsOfDone(c, e, to, ml, h, roots);
    hide AllDone, Moving, LogState, ParentDied, Age2Gen, LogsOk;
    forall en | en in ml.fr[k] ensures exists en0 :: en0 in h.start[k] && Stranded(e, en0, en) {
      var en0 := LeftoverStems(c, e, to, ml, h, roots, k, en);
    }
    forall en0 | en0 in h.start[k] ensures ParentDied(e, en0) <==> exists en :: en in ml.fr[k] && Stranded(e, en0, en) {
      if ParentDied(e, en0) { var en := DeadIsLeft(c, e, to, ml, h, roots, k, en0); }
      if en :| en in ml.fr[k] && Stranded(e, en0, en) {
        var en1 := LeftoverStems(c, e, to, ml, h, roots, k, en);
        EntryIsOk(c.cfg, e.mem0, h.start, k, en0);
        EntryIsOk(c.cfg, e.mem0, h.start, k, en1);
        OneStem(c, e, to, en0, en1, en);
      }
    }
  }

  /** What is left over was a current entry with a parent that is garbage. */
  lemma LeftoverStems(
      c: Turn, e: Evac<Hdr>, to: seq<Space>, ml: MutationLogs, h: LogHistory, roots: set<Addr>, k: nat,
      en: MEntry) returns (en0: MEntry)
    requires AllDone(c, e, to, ml, h, roots) && k < |ml.fr| && k < |h.start| && k < c.upto && en in ml.fr[k]
    ensures en0 in h.start[k] && Stranded(e, en0, en) && ParentDied(e, en0)
  {
    hide Moving, White, Age2Gen, KeepOk, Dealt, Traced, Version, ParentDied, Stuck;
    assert LogOkAt(c, e, ml, h, k, 0, 0);
    var j :| 0 <= j < |ml.fr[k]| && ml.fr[k][j] == en;
    en0 := h.fr[k][j];
    StuckIsStranded(e, h.fr[k], en0, en);
  }

  lemma DeadIsLeft(
      c: Turn, e: Evac<Hdr>, to: seq<Space>, ml: MutationLogs, h: LogHistory, roots: set<Addr>, k: nat,
      en0: MEntry) returns (en: MEntry)
    requires AllDone(c, e, to, ml, h, roots) && k < |ml.fr| && k < |h.start| && k < c.upto && en0 in h.start[k]
    requires ParentDied(e, en0)
    ensures en in ml.fr[k] && Stranded(e, en0, en)
  {
    PartsOfDone(c, e, to, ml, h, roots);
    DeadIsNotSettled(c, e, to, ml.to[k], en0);
    hide Moving, White, Age2Gen, KeepOk, Dealt, Traced, Version, ParentDied, Stuck;
    assert LogOkAt(c, e, ml, h, k, 0, 0);
    assert h.triage[k] == [];
    var j :| 0 <= j < |h.fr[k]| && h.fr[k][j] == en0;
    en := ml.fr[k][j];
    StuckIsStranded(e, h.fr[k], en0, en);
  }

  lemma StuckIsStranded(e: Evac<Hdr>, was: seq<MEntry>, en0: MEntry, en: MEntry)
    requires Stuck(e, was) && en0 in was && Version(e, en0, en)
    ensures Stranded(e, en0, en) && ParentDied(e, en0)
  {
  }

  /** One left-over entry stems from one entry. */
  lemma OneStem(c: Turn, e: Evac<Hdr>, to: seq<Space>, en0: MEntry, en1: MEntry, en: MEntry)
    requires Moving(c, e, to) && Sound(e, en0) && Sound(e, en1) && Stranded(e, en0, en) && Stranded(e, en1, en)
    ensures en0 == en1
  {
    SameTarget(c, e, to, en0.snap, en.snap);
    SameTarget(c, e, to, en1.snap, en.snap);
    PhiIsInjective(c, e, to, en0.snap, en1.snap);
  }

  /**
   * Why leftovers are a fault: they sit where the next collection looks for
   * outgoing entries, and the logs are in order then only if there were none.
   */
  lemma LeftoversComeBack(cfg: Config, mem: Mem<Hdr>, to: seq<seq<MEntry>>, fr: seq<seq<MEntry>>, u: nat)
    requires LogsOk(cfg, mem, to) && |fr| == |to|
    requires forall k, en :: 0 <= k < |fr| && en in fr[k] ==> en.parent !in mem
    ensures LogsOk(cfg, mem, Exchanged(to, fr, u)) <==> forall k :: 0 <= k < |fr| && k < u ==> fr[k] == []
  {
    hide Age2Gen;
    var to' := Exchanged(to, fr, u);
    forall k | 0 <= k < |fr| && k < u && fr[k] != [] ensures !LogsOk(cfg, mem, to') {
      assert fr[k][0] in to'[k] && !EntryOk(cfg, mem, k, fr[k][0]);
    }
  }

  /**
   * What a collection makes of an incoming entry that was current and whose
   * parent lives: the entry for where parent and child are now is kept if the
   * pointer still goes from an older to a younger generation, and retired otherwise.
   */
  ghost predicate KeptOrRetired(cfg: Config, e: Evac<Hdr>, log': seq<MEntry>, en0: MEntry) {
    Sound(e, en0) && Active(e, en0) && Survives(e, en0.parent) ==>
      var p, x := Phi(e.mem, en0.parent), Phi(e.mem, en0.snap);
      && HasField(e, en0) && FieldNow(e, en0) == x
      && (MEntry(p, en0.slot, x) in log' <==> MustRemember(cfg, Remaining(e), p, x))
  }

  /**
   * What becomes of an entry: a later store has superseded it, its parent is
   * garbage, or both parent and child live and it is kept or retired.
   */
  datatype Fate = Superseded | LeftOver | Kept | Retired

  ghost function FateOf(cfg: Config, e: Evac<Hdr>, en0: MEntry): Fate
    requires Sound(e, en0)
  {
    if !Active(e, en0) then Superseded
    else if !Survives(e, en0.parent) then LeftOver
    else if MustRemember(cfg, Remaining(e), Phi(e.mem, en0.parent), Phi(e.mem, en0.snap)) then Kept
    else Retired
  }

  predicate Current(mem: Mem<Hdr>, en: MEntry) {
    en.parent in mem && mem[en.parent].Obj? && en.slot < |mem[en.parent].fields| &&
      mem[en.parent].fields[en.slot] == en.snap
  }

  /** A kept entry is current, of use, and stands for an incoming one that was to be kept. */
  ghost predicate WasKept(cfg: Config, e: Evac<Hdr>, log: seq<MEntry>, en: MEntry) {
    && Current(Remaining(e), en) && MustRemember(cfg, Remaining(e), en.parent, en.snap)
    && exists en0 :: en0 in log && Sound(e, en0) && FateOf(cfg, e, en0) == Kept && en == Relocated(e, en0)
  }

  /** A log of a collected generation: it holds what must be kept, and nothing else. */
  ghost predicate LogFollows(cfg: Config, e: Evac<Hdr>, log': seq<MEntry>, log: seq<MEntry>) {
    && (forall en0 :: en0 in log ==>
          Sound(e, en0) && KeptOrRetired(cfg, e, log', en0) && (FateOf(cfg, e, en0) == Kept ==>
            Relocated(e, en0) in log'))
    && (forall en :: en in log' ==> WasKept(cfg, e, log, en))
  }

  /** What a collection makes of the logs. */
  ghost predicate LogsFollow(cfg: Config, e: Evac<Hdr>, u: nat, logs': seq<seq<MEntry>>, logs: seq<seq<MEntry>>) {
    |logs'| == |logs| && forall k :: 0 <= k < |logs| ==>
      if k < u then LogFollows(cfg, e, logs'[k], logs[k]) else logs'[k] == logs[k]
  }

  lemma EntryIsKeptOrRetired(
      c: Turn, e: Evac<Hdr>, to: seq<Space>, ml: MutationLogs, h: LogHistory, roots: set<Addr>, k: nat, en0: MEntry)
    requires AllDone(c, e, to, ml, h, roots) && k < |h.start| && k < c.upto && k < |ml.to| && en0 in h.start[k]
    ensures KeptOrRetired(c.cfg, e, ml.to[k], en0)
  {
    hide Age2Gen, Moving, LogState, Stuck, White;
    PartsOfDone(c, e, to, ml, h, roots);
    if Sound(e, en0) && Active(e, en0) && Survives(e, en0.parent) {
      SurvivorIsSettled(c, e, to, ml, h, roots, k, en0);
      FieldStartsThere(c, e, to, en0);
      StaysOrMoved(c, e, to, en0);
      KeptIsNeeded(c, e, ml, h, k);
    }
  }

  /** A settled field names the child where it is now. */
  lemma StaysOrMoved(c: Turn, e: Evac<Hdr>, to: seq<Space>, en0: MEntry)
    requires Moving(c, e, to) && Sound(e, en0) && HasField(e, en0) && FieldNow(e, en0) !in e.from
    requires FieldNow(e, en0) == en0.snap || FieldNow(e, en0) == Phi(e.mem, en0.snap)
    ensures FieldNow(e, en0) == Phi(e.mem, en0.snap)
  {
    hide Moving;
    if FieldNow(e, en0) == en0.snap { StaysOutside(c, e, to, en0.snap); }
  }

  lemma KeptIsNeeded(c: Turn, e: Evac<Hdr>, ml: MutationLogs, h: LogHistory, k: nat)
    requires LogState(c, e, ml, h, 0, 0) && k < |ml.to| && k < c.upto
    ensures forall en :: en in ml.to[k] ==>
      MustRemember(c.cfg, Remaining(e), en.parent, en.snap) && Current(Remaining(e), en)
    ensures k < |h.start| && Traced(e, h.start[k], ml.to[k])
  {
    hide Age2Gen, Matches, Dealt, Traced;
    assert LogOkAt(c, e, ml, h, k, 0, 0);
    forall en | en in ml.to[k]
      ensures MustRemember(c.cfg, Remaining(e), en.parent, en.snap) && Current(Remaining(e), en)
    {
      assert KeepOk(c.cfg, e, k, en);
    }
  }

  lemma KeptWasKept(c: Turn, e: Evac<Hdr>, to: seq<Space>, ml: MutationLogs, h: LogHistory, k: nat, en: MEntry)
    requires Moving(c, e, to) && LogState(c, e, ml, h, 0, 0) && k < |ml.to| && k < c.upto && k < |h.start|
    requires en in ml.to[k]
    ensures WasKept(c.cfg, e, h.start[k], en)
  {
    KeptIsNeeded(c, e, ml, h, k);
    hide LogState, MustRemember;
    var en0 :| en0 in h.start[k] && KeptFor(e, en0, en);
    if en0.parent in e.from { MovedIsCopied(c, e, to, en0.parent); }
    hide Moving;
  }

  lemma AllLogsFollow(c: Turn, e: Evac<Hdr>, to: seq<Space>, ml: MutationLogs, h: LogHistory, roots: set<Addr>)
    requires AllDone(c, e, to, ml, h, roots) && LogsOk(c.cfg, e.mem0, h.start)
    ensures LogsFollow(c.cfg, e, c.upto, ml.to, h.start)
  {
    PartsOfDone(c, e, to, ml, h, roots);
    hide AllDone, Moving, LogState, LogFollows, Age2Gen, LogsOk;
    forall k | 0 <= k < |h.start|
      ensures if k < c.upto then LogFollows(c.cfg, e, ml.to[k], h.start[k]) else ml.to[k] == h.start[k]
    {
      if k < c.upto {
        OneLogFollows(c, e, to, ml, h, roots, k);
      } else {
        OldLogStays(c, e, ml, h, k);
      }
    }
  }

  lemma OneLogFollows(c: Turn, e: Evac<Hdr>, to: seq<Space>, ml: MutationLogs, h: LogHistory, roots: set<Addr>, k: nat)
    requires AllDone(c, e, to, ml, h, roots) && LogsOk(c.cfg, e.mem0, h.start) && k < |ml.to| && k < |h.start|
    requires k < c.upto
    ensures LogFollows(c.cfg, e, ml.to[k], h.start[k])
  {
    PartsOfDone(c, e, to, ml, h, roots);
    hide AllDone, Moving, LogState, KeptOrRetired, MustRemember, Age2Gen, WasKept, LogsOk, FateOf, EntryOk, Relocated;
    hide Sound;
    forall en0 | en0 in h.start[k]
      ensures Sound(e, en0) && KeptOrRetired(c.cfg, e, ml.to[k], en0)
      ensures FateOf(c.cfg, e, en0) == Kept ==> Relocated(e, en0) in ml.to[k]
    {
      EntryIsSound(c.cfg, e, h.start, k, en0);
      EntryIsKeptOrRetired(c, e, to, ml, h, roots, k, en0);
      KeptIsThere(c.cfg, e, ml.to[k], en0);
    }
    forall en | en in ml.to[k] ensures WasKept(c.cfg, e, h.start[k], en) { KeptWasKept(c, e, to, ml, h, k, en); }
  }

  lemma EntryIsSound(cfg: Config, e: Evac<Hdr>, logs: seq<seq<MEntry>>, k: nat, en: MEntry)
    requires LogsOk(cfg, e.mem0, logs) && k < |logs| && en in logs[k]
    ensures Sound(e, en)
  {
    assert EntryOk(cfg, e.mem0, k, en);
  }

  lemma KeptIsThere(cfg: Config, e: Evac<Hdr>, log: seq<MEntry>, en0: MEntry)
    requires Sound(e, en0) && KeptOrRetired(cfg, e, log, en0)
    ensures FateOf(cfg, e, en0) == Kept ==> Relocated(e, en0) in log
  {
    hide MustRemember;
  }

  // ---------------------------------------------------------------------------
  // What the mutator does between collections
  // ---------------------------------------------------------------------------

  lemma StoreKeepsHeap(cfg: Config, mem: Mem<Hdr>, to: seq<Space>, fr: seq<Space>, p: Addr, i: nat, x: Addr)
    requires HeapOk(cfg, mem, to, fr) && p in mem && mem[p].Obj? && i < |mem[p].fields|
    requires x in mem || Foreign(to, fr, x)
    ensures HeapOk(cfg, Assigned(mem, p, i, x), to, fr)
  {
    hide Age2Gen, Foreign, Apart, AllOk, Metered;
    MeterStays(mem, Assigned(mem, p, i, x), to);
  }

  /** Log k extended by an entry, if there is one. */
  function Append(logs: seq<seq<MEntry>>, k: nat, ens: seq<MEntry>): seq<seq<MEntry>>
    requires k < |logs|
  {
    logs[k := logs[k] + ens]
  }

  /** The write barrier keeps every pointer from an older to a younger generation remembered. */
  lemma StoreKeepsLogs(
      cfg: Config, mem: Mem<Hdr>, logs: seq<seq<MEntry>>, p: Addr, i: nat, x: Addr, logs': seq<seq<MEntry>>)
    requires LogsOk(cfg, mem, logs) && p in mem && mem[p].Obj? && i < |mem[p].fields|
    requires MustLog(cfg, mem, p, x) ==>
      GenOf(cfg, mem, x) < |logs| && logs' == Append(logs, GenOf(cfg, mem, x), [MEntry(p, i, x)])
    requires !MustLog(cfg, mem, p, x) ==> logs' == logs
    ensures LogsOk(cfg, Assigned(mem, p, i, x), logs')
    ensures Remembered(cfg, mem, logs) ==> Remembered(cfg, Assigned(mem, p, i, x), logs')
  {
    hide Age2Gen;
    var mem' := Assigned(mem, p, i, x);
    forall k, en | 0 <= k < |logs'| && en in logs'[k] ensures EntryOk(cfg, mem', k, en) {
      if en in logs[k] { assert EntryOk(cfg, mem, k, en); }
    }
    if Remembered(cfg, mem, logs) {
      forall a, j | a in mem' && mem'[a].Obj? && 0 <= j < |mem'[a].fields| && Owed(cfg, mem', a, mem'[a].fields[j])
        ensures InLogs(logs', GenOf(cfg, mem', mem'[a].fields[j]), MEntry(a, j, mem'[a].fields[j]))
      {
        if a == p && j == i {
          assert MEntry(p, i, x) in logs'[GenOf(cfg, mem, x)];
        } else {
          assert Owed(cfg, mem, a, mem[a].fields[j]);
          OldEntryStays(cfg, logs, logs', GenOf(cfg, mem, mem[a].fields[j]), MEntry(a, j, mem[a].fields[j]));
        }
      }
    }
  }

  lemma OldEntryStays(cfg: Config, logs: seq<seq<MEntry>>, logs': seq<seq<MEntry>>, g: nat, en: MEntry)
    requires InLogs(logs, g, en) && |logs'| == |logs| && forall k :: 0 <= k < |logs| ==> logs[k] <= logs'[k]
    ensures InLogs(logs', g, en)
  {
    var k :| 0 <= k <= g && k < |logs| && en in logs[k];
    assert en in logs'[k];
  }

  lemma ZeroIsYoungest(cfg: Config)
    ensures Age2Gen(cfg, 0) == 0
  {
    assert 0 / cfg.survive == 0 by { DivIsZero(cfg.survive); }
  }

  lemma DivIsZero(s: nat)
    requires 0 < s
    ensures 0 / s == 0
  {
  }

  /** A new object in the youngest generation keeps the heap and needs no entry. */
  lemma AllocKeepsHeap(
      cfg: Config, mem: Mem<Hdr>, to: seq<Space>, fr: seq<Space>, logs: seq<seq<MEntry>>, tseq: nat, z: nat,
      fields: seq<Addr>)
    requires HeapOk(cfg, mem, to, fr) && LogsOk(cfg, mem, logs) && MIN_SIZE <= z && 0 < |to| && to[0].Fits(z)
    requires forall x :: x in fields ==> x in mem || Foreign(to, fr, x)
    ensures var x := to[0].Next(); var mem' := mem[x := Obj(Hdr(tseq, 0, z), fields)];
      && x !in mem && HeapOk(cfg, mem', to[0 := to[0].Alloc(z)], fr) && LogsOk(cfg, mem', logs)
      && (Remembered(cfg, mem, logs) ==> Remembered(cfg, mem', logs))
      && forall y :: Foreign(to[0 := to[0].Alloc(z)], fr, y) <==> Foreign(to, fr, y)
  {
    hide Age2Gen;
    ZeroIsYoungest(cfg);
    var x := to[0].Next();
    var to', mem' := to[0 := to[0].Alloc(z)], mem[x := Obj(Hdr(tseq, 0, z), fields)];
    NextIsUnused(cfg, mem, to, fr, z);
    AllocKeepsSpaces(to, fr, z);
    hide Apart, AllOk, Foreign, Metered;
    AllocKeepsListed(cfg, mem, to, x, tseq, z, fields);
    AllocKeepsLogs(cfg, mem, logs, x, tseq, z, fields, to, fr);
  }

  lemma NextIsUnused(cfg: Config, mem: Mem<Hdr>, to: seq<Space>, fr: seq<Space>, z: nat)
    requires HeapOk(cfg, mem, to, fr) && 0 < |to| && to[0].Fits(z) && 0 < z
    ensures to[0].Next() !in mem && !Foreign(to, fr, to[0].Next())
  {
    hide Age2Gen, Metered;
    assert to[0].Holds(to[0].Next()) && to[0].Ok();
    forall a | a in mem ensures a != to[0].Next() {
      var g := Age2Gen(cfg, mem[a].hdr.age);
      assert a in to[g].objs && to[g].Ok() && to[g].Holds(a);
      assert 0 < g ==> Disj(to[0], to[g]);
    }
  }

  lemma AllocKeepsSpaces(to: seq<Space>, fr: seq<Space>, z: nat)
    requires Apart(to, fr) && AllOk(to) && 0 < |to| && MIN_SIZE <= z && to[0].Fits(z)
    ensures var to' := to[0 := to[0].Alloc(z)];
      Apart(to', fr) && AllOk(to') && forall y :: Foreign(to', fr, y) <==> Foreign(to, fr, y)
  {
    AllocKeepsOk(to[0], z);
    hide Space.Ok;
    var to' := to[0 := to[0].Alloc(z)];
    forall y ensures Contains(to', y) <==> Contains(to, y) {
      if Contains(to', y) { var h :| 0 <= h < |to'| && to'[h].Holds(y); assert to[h].Holds(y); }
      if Contains(to, y) { var h :| 0 <= h < |to| && to[h].Holds(y); assert to'[h].Holds(y); }
    }
    forall g, h | 0 <= g < h < |to'| ensures Disj(to'[g], to'[h]) { assert Disj(to[g], to[h]); }
    forall g, h | 0 <= g < |to'| && 0 <= h < |fr| ensures Disj(to'[g], fr[h]) { assert Disj(to[g], fr[h]); }
  }

  lemma AllocKeepsListed(cfg: Config, mem: Mem<Hdr>, to: seq<Space>, x: Addr, tseq: nat, z: nat, fields: seq<Addr>)
    requires 0 < |to| == cfg.n && x == to[0].Next() && x !in mem && MIN_SIZE <= z && Age2Gen(cfg, 0) == 0
    requires Listed(cfg, mem, to) && Metered(mem, to) && forall a :: a in mem ==> AtHome(cfg, to, mem[a], a)
    ensures var to', mem' := to[0 := to[0].Alloc(z)], mem[x := Obj(Hdr(tseq, 0, z), fields)];
      Listed(cfg, mem', to') && Metered(mem', to') && forall a :: a in mem' ==> AtHome(cfg, to', mem'[a], a)
  {
    hide Age2Gen, Metered;
    var to', mem' := to[0 := to[0].Alloc(z)], mem[x := Obj(Hdr(tseq, 0, z), fields)];
    AllocIsMetered(mem, mem', to, 0, z);
    forall g, a | 0 <= g < |to'| && a in to'[g].objs ensures a in mem' && AgedFor(cfg, g, mem'[a]) {
      assert a in to[g].objs || (g == 0 && a == x);
    }
  }

  lemma AllocKeepsLogs(
      cfg: Config, mem: Mem<Hdr>, logs: seq<seq<MEntry>>, x: Addr, tseq: nat, z: nat, fields: seq<Addr>, to: seq<Space>,
      fr: seq<Space>)
    requires x !in mem && LogsOk(cfg, mem, logs) && Age2Gen(cfg, 0) == 0 && !Foreign(to, fr, x)
    requires forall a, i :: a in mem && mem[a].Obj? && 0 <= i < |mem[a].fields| ==>
      mem[a].fields[i] in mem || Foreign(to, fr, mem[a].fields[i])
    ensures var mem' := mem[x := Obj(Hdr(tseq, 0, z), fields)];
      LogsOk(cfg, mem', logs) && (Remembered(cfg, mem, logs) ==> Remembered(cfg, mem', logs))
  {
    hide Age2Gen, Foreign;
    var mem' := mem[x := Obj(Hdr(tseq, 0, z), fields)];
    forall k, en | 0 <= k < |logs| && en in logs[k] ensures EntryOk(cfg, mem', k, en) {
      assert EntryOk(cfg, mem, k, en);
    }
    if Remembered(cfg, mem, logs) {
      forall a, j | a in mem' && mem'[a].Obj? && 0 <= j < |mem'[a].fields| && Owed(cfg, mem', a, mem'[a].fields[j])
        ensures InLogs(logs, GenOf(cfg, mem', mem'[a].fields[j]), MEntry(a, j, mem'[a].fields[j]))
      {
        assert Owed(cfg, mem, a, mem[a].fields[j]);
      }
    }
  }

  /** Between collections too, age and address tell the same generation. */
  lemma HomeOf(cfg: Config, mem: Mem<Hdr>, to: seq<Space>, fr: seq<Space>, x: Addr)
    requires HeapOk(cfg, mem, to, fr) && (x in mem || Foreign(to, fr, x))
    ensures x in mem ==> mem[x].Obj? && GenerationOf(to, x) == GenOf(cfg, mem, x)
    ensures x !in mem ==> GenerationOf(to, x) == cfg.n
  {
    hide Age2Gen, GenerationOf, Metered;
    if x in mem {
      var g := Age2Gen(cfg, mem[x].hdr.age);
      assert AtHome(cfg, to, mem[x], x);
      assert to[g].Ok() && to[g].Holds(x);
      forall h | 0 <= h < |to| && h != g ensures !to[h].Holds(x) { SpacesAreDisjoint(cfg, mem, to, fr, g, h); }
    }
  }

  /** Without a log to keep complete, what is in it stays sound. */
  lemma StoreKeepsBounds(cfg: Config, mem: Mem<Hdr>, logs: seq<seq<MEntry>>, p: Addr, i: nat, x: Addr)
    requires LogsOk(cfg, mem, logs) && p in mem && mem[p].Obj? && i < |mem[p].fields|
    ensures LogsOk(cfg, Assigned(mem, p, i, x), logs)
  {
    hide Age2Gen;
    forall k, en | 0 <= k < |logs| && en in logs[k] ensures EntryOk(cfg, Assigned(mem, p, i, x), k, en) {
      assert EntryOk(cfg, mem, k, en);
    }
  }

  /** Empty spaces of z bytes at the given addresses. */
  function Reserved(at: seq<nat>, z: nat): (r: seq<Space>)
    ensures |r| == |at|
  {
    seq(|at|, g requires 0 <= g < |at| => Space(at[g], at[g] + z, 0, []))
  }

  lemma ReservedIsApart(a: seq<nat>, b: seq<nat>, z: nat)
    requires |a| == |b| && forall x :: x in a + b ==> 0 < x
    requires forall i, j :: 0 <= i < j < |a + b| ==> (a + b)[i] + z <= (a + b)[j] || (a + b)[j] + z <= (a + b)[i]
    ensures Apart(Reserved(a, z), Reserved(b, z)) && AllOk(Reserved(a, z)) && AllOk(Reserved(b, z))
  {
    var to, fr, ab := Reserved(a, z), Reserved(b, z), a + b;
    forall g, h | 0 <= g < h < |to| ensures Disj(to[g], to[h]) && Disj(fr[g], fr[h]) {
      assert ab[g] == a[g] && ab[h] == a[h] && ab[|a| + g] == b[g] && ab[|a| + h] == b[h];
    }
    forall g, h | 0 <= g < |to| && 0 <= h < |fr| ensures Disj(to[g], fr[h]) {
      assert ab[g] == a[g] && ab[|a| + h] == b[h];
    }
    forall g | 0 <= g < |a| ensures 0 < a[g] && 0 < b[g] { assert a[g] in ab && b[g] in ab; }
  }

  /** Roots once redirected stay right while the collection goes on. */
  lemma RootsStayRedirected(
      c: Turn, e: Evac<Hdr>, to: seq<Space>, e': Evac<Hdr>, to': seq<Space>, vars1: map<nat, Addr>, rootv: seq<nat>,
      vars: map<nat, Addr>)
    requires Moving(c, e, to) && Moving(c, e', to') && Later(e, to, e', to') && Redirected(vars1, rootv, e, vars)
    ensures Redirected(vars1, rootv, e', vars)
    ensures forall s :: s in RootSet(vars1, rootv) ==> Phi(e'.mem, s) !in e'.from
  {
    hide Moving, Later, Phi;
    SrcStays(e, to, e', to');
    forall v | v in vars ensures Redirection(vars1, rootv, e', vars, v) {
      assert Redirection(vars1, rootv, e, vars, v);
      if v in rootv { ResultStays(c, e, to, e', to', vars1[v], vars[v]); }
    }
    forall s | s in RootSet(vars1, rootv) ensures Phi(e'.mem, s) !in e'.from {
      var v :| v in rootv && v in vars1 && vars1[v] == s;
      assert Redirection(vars1, rootv, e', vars, v);
    }
  }
}
