/**
 * How large a stack a collection of the N-generation heap needs: a condition on
 * the heap before it that is enough, one that is necessary, and where the two
 * agree.
 */
module Depth {
  import opened Evacuation
  import opened Recursion
  import opened Stores
  import opened Logs
  import opened Turns

  /** Registration i leads to something that does not move any more when its turn comes: an earlier one led to it. */
  ghost predicate MetAgain(from: set<Addr>, vars: map<nat, Addr>, rootv: seq<nat>, i: nat)
    requires i < |rootv|
  {
    && rootv[i] in vars
    && exists j :: 0 <= j < i && rootv[j] in vars
         && (rootv[j] == rootv[i] || (vars[rootv[j]] == vars[rootv[i]] && vars[rootv[i]] !in from))
  }

  /** All that a collection must preserve, before it follows a single reference. */
  function Starts(mem: Mem<Hdr>, from: set<Addr>, vars: map<nat, Addr>, rootv: seq<nat>): set<Addr> {
    RootSet(vars, rootv) + OldFields(mem, from)
  }

  // ---------------------------------------------------------------------------
  // What is enough
  // ---------------------------------------------------------------------------

  /** What the roots lead to and does not move, or does not move any more, leads to chains of no more than f objects. */
  ghost predicate RootsAreShallow(mem: Mem<Hdr>, from: set<Addr>, vars: map<nat, Addr>, rootv: seq<nat>, f: nat) {
    forall i :: 0 <= i < |rootv| && rootv[i] in vars && (vars[rootv[i]] !in from || MetAgain(from, vars, rootv, i)) ==>
      Returns(mem, vars[rootv[i]], f)
  }

  /** And so does whatever the object a refers to and does not move. */
  ghost predicate ChildrenAreShallow(mem: Mem<Hdr>, from: set<Addr>, a: Addr, f: nat) {
    a in mem && mem[a].Obj? ==>
      forall i :: 0 <= i < |mem[a].fields| && mem[a].fields[i] !in from ==> Returns(mem, mem[a].fields[i], f)
  }

  ghost predicate YoungAreShallow(mem: Mem<Hdr>, from: set<Addr>, starts: set<Addr>, f: nat) {
    forall a :: Live(mem, from, starts, a) ==> ChildrenAreShallow(mem, from, a, f)
  }

  ghost predicate LogsAreShallow(
      mem: Mem<Hdr>, from: set<Addr>, starts: set<Addr>, u: nat, logs: seq<seq<MEntry>>, f: nat) {
    forall k, en :: 0 <= k < |logs| && k < u && en in logs[k] ==> EntryShallow(mem, from, starts, f, en)
  }

  /**
   * A collection of the generations below u does with room for f nested visits.
   * The graph of the objects that move may be cyclic; what counts are the objects
   * that do not move and that roots or live objects that do refer to.
   */
  ghost predicate Shallow(
    cfg: Config, mem: Mem<Hdr>, u: nat, vars: map<nat, Addr>, rootv: seq<nat>, logs: seq<seq<MEntry>>, f: nat)
  {
    var from := Young(cfg, mem, u);
    var starts := Starts(mem, from, vars, rootv);
    && RootsAreShallow(mem, from, vars, rootv, f + 1) && YoungAreShallow(mem, from, starts, f)
    && (u == cfg.n || LogsAreShallow(mem, from, starts, u, logs, f))
  }

  /** It is enough that all chains are short. */
  lemma AcyclicIsShallow(
      cfg: Config, mem: Mem<Hdr>, u: nat, vars: map<nat, Addr>, rootv: seq<nat>, logs: seq<seq<MEntry>>, f: nat)
    requires forall x :: Returns(mem, x, f)
    ensures Shallow(cfg, mem, u, vars, rootv, logs, f)
  {
    hide Live, Young;
    forall i | 0 <= i < |rootv| && rootv[i] in vars ensures Returns(mem, vars[rootv[i]], f + 1) {
      ReturnsMore(mem, vars[rootv[i]], f, f + 1);
    }
  }

  // ---------------------------------------------------------------------------
  // What is necessary
  // ---------------------------------------------------------------------------

  /**
   * Through objects that do not move, the roots lead to chains of no more than f objects; and what
   * they lead to again, to no longer ones at all.
   */
  ghost predicate RootsReturn(mem: Mem<Hdr>, from: set<Addr>, vars: map<nat, Addr>, rootv: seq<nat>, f: nat) {
    && (forall i :: 0 <= i < |rootv| && rootv[i] in vars ==> OldReturns(mem, from, vars[rootv[i]], f))
    && (forall i :: 0 <= i < |rootv| && MetAgain(from, vars, rootv, i) ==> Returns(mem, vars[rootv[i]], f))
  }

  ghost predicate YoungReturn(mem: Mem<Hdr>, from: set<Addr>, starts: set<Addr>, f: nat) {
    forall a :: Live(mem, from, starts, a) ==> ChildrenReturn(mem, from, a, f)
  }

  /**
   * What a collection of the generations below u that has come back tells: chains through objects that
   * do not move were short.
   */
  ghost predicate CameBack(cfg: Config, mem: Mem<Hdr>, u: nat, vars: map<nat, Addr>, rootv: seq<nat>, f: nat) {
    var from := Young(cfg, mem, u);
    RootsReturn(mem, from, vars, rootv, f + 1) && YoungReturn(mem, from, Starts(mem, from, vars, rootv), f)
  }

  // ---------------------------------------------------------------------------
  // Where the two agree
  // ---------------------------------------------------------------------------

  /** No object that does not move, in reach of a root or of a live object that does, refers to one that moves. */
  ghost predicate RootsStayOld(mem: Mem<Hdr>, from: set<Addr>, vars: map<nat, Addr>, rootv: seq<nat>) {
    forall i :: 0 <= i < |rootv| && rootv[i] in vars && vars[rootv[i]] !in from ==> StaysOld(mem, from, vars[rootv[i]])
  }

  ghost predicate ChildrenStayOld(mem: Mem<Hdr>, from: set<Addr>, a: Addr) {
    a in mem && mem[a].Obj? ==>
      forall i :: 0 <= i < |mem[a].fields| && mem[a].fields[i] !in from ==> StaysOld(mem, from, mem[a].fields[i])
  }

  /** No entry could have a field of a live object redirected before the object is moved. */
  ghost predicate NoEarlyRepair(mem: Mem<Hdr>, from: set<Addr>, starts: set<Addr>, u: nat, logs: seq<seq<MEntry>>) {
    forall k, en :: 0 <= k < |logs| && k < u && en in logs[k] ==> !RepairsEarly(mem, from, starts, en)
  }

  ghost predicate Separate(
    cfg: Config, mem: Mem<Hdr>, u: nat, vars: map<nat, Addr>, rootv: seq<nat>, logs: seq<seq<MEntry>>)
  {
    var from := Young(cfg, mem, u);
    var starts := Starts(mem, from, vars, rootv);
    && RootsStayOld(mem, from, vars, rootv)
    && (forall a :: Live(mem, from, starts, a) ==> ChildrenStayOld(mem, from, a))
    && (u == cfg.n || NoEarlyRepair(mem, from, starts, u, logs))
  }

  /** What is enough is more than what is necessary. */
  lemma ShallowComesBack(
      cfg: Config, mem: Mem<Hdr>, u: nat, vars: map<nat, Addr>, rootv: seq<nat>, logs: seq<seq<MEntry>>, f: nat)
    requires Shallow(cfg, mem, u, vars, rootv, logs, f)
    ensures CameBack(cfg, mem, u, vars, rootv, f)
  {
    hide Live, Young, LogsAreShallow, OldFields;
    var from := Young(cfg, mem, u);
    forall i | 0 <= i < |rootv| && rootv[i] in vars ensures OldReturns(mem, from, vars[rootv[i]], f + 1) {
      if vars[rootv[i]] !in from { ReturnsInPart(mem, from, vars[rootv[i]], f + 1); }
    }
    forall a | Live(mem, from, Starts(mem, from, vars, rootv), a) ensures ChildrenReturn(mem, from, a, f) {
      if a in mem && mem[a].Obj? {
        forall i | 0 <= i < |mem[a].fields| ensures OldReturns(mem, from, mem[a].fields[i], f) {
          if mem[a].fields[i] !in from { ReturnsInPart(mem, from, mem[a].fields[i], f); }
        }
      }
    }
  }

  /**
   * The two differ only where an object that does not move, in reach, refers to
   * one that does, or where an entry has a field redirected early.
   */
  lemma ShallowIffCameBack(
      cfg: Config, mem: Mem<Hdr>, u: nat, vars: map<nat, Addr>, rootv: seq<nat>, logs: seq<seq<MEntry>>, f: nat)
    requires Separate(cfg, mem, u, vars, rootv, logs)
    ensures Shallow(cfg, mem, u, vars, rootv, logs, f) <==> CameBack(cfg, mem, u, vars, rootv, f)
  {
    hide Live, Young, OldFields, StaysOld, RepairsEarly;
    if Shallow(cfg, mem, u, vars, rootv, logs, f) { ShallowComesBack(cfg, mem, u, vars, rootv, logs, f); }
    if CameBack(cfg, mem, u, vars, rootv, f) {
      var from := Young(cfg, mem, u);
      forall i | 0 <= i < |rootv| && rootv[i] in vars && (vars[rootv[i]] !in from || MetAgain(from, vars, rootv, i))
        ensures Returns(mem, vars[rootv[i]], f + 1)
      {
        if vars[rootv[i]] !in from { PartIsAll(mem, from, vars[rootv[i]], f + 1); }
      }
      forall a | Live(mem, from, Starts(mem, from, vars, rootv), a) ensures ChildrenAreShallow(mem, from, a, f) {
        if a in mem && mem[a].Obj? {
          forall i | 0 <= i < |mem[a].fields| && mem[a].fields[i] !in from ensures Returns(mem, mem[a].fields[i], f) {
            PartIsAll(mem, from, mem[a].fields[i], f);
          }
        }
      }
    }
  }

  // ---------------------------------------------------------------------------
  // A collection of everything
  // ---------------------------------------------------------------------------

  /** What a slot that is registered twice leads to are chains of no more than f objects. */
  ghost predicate TwiceIsShallow(mem: Mem<Hdr>, vars: map<nat, Addr>, rootv: seq<nat>, f: nat) {
    forall i, j :: 0 <= j < i < |rootv| && rootv[j] == rootv[i] && rootv[i] in vars ==> Returns(mem, vars[rootv[i]], f)
  }

  lemma NothingStays(mem: Mem<Hdr>, from: set<Addr>, x: Addr, f: nat)
    requires mem.Keys <= from
    ensures OldReturns(mem, from, x, f) && (x !in from ==> Returns(mem, x, f) && StaysOld(mem, from, x))
  {
  }

  /** When everything is collected, only a slot that is registered twice matters. */
  lemma FullIsShallowIff(
      cfg: Config, mem: Mem<Hdr>, vars: map<nat, Addr>, rootv: seq<nat>, logs: seq<seq<MEntry>>, f: nat)
    requires forall a :: a in mem ==> mem[a].Obj?
    ensures Shallow(cfg, mem, cfg.n, vars, rootv, logs, f) <==> TwiceIsShallow(mem, vars, rootv, f + 1)
    ensures Separate(cfg, mem, cfg.n, vars, rootv, logs)
  {
    hide Live, Young, OldFields, StaysOld, OldReturns;
    AllAreYoung(cfg, mem, cfg.n);
    var from := mem.Keys;
    forall x, g ensures x !in from ==> Returns(mem, x, g) && StaysOld(mem, from, x) { NothingStays(mem, from, x, g); }
    if TwiceIsShallow(mem, vars, rootv, f + 1) {
      forall i | 0 <= i < |rootv| && MetAgain(from, vars, rootv, i) ensures Returns(mem, vars[rootv[i]], f + 1) {
        var j :| 0 <= j < i && rootv[j] in vars
          && (rootv[j] == rootv[i] || (vars[rootv[j]] == vars[rootv[i]] && vars[rootv[i]] !in from));
      }
    }
    if RootsAreShallow(mem, from, vars, rootv, f + 1) {
      forall i, j | 0 <= j < i < |rootv| && rootv[j] == rootv[i] && rootv[i] in vars
        ensures Returns(mem, vars[rootv[i]], f + 1)
      {
        assert MetAgain(from, vars, rootv, i);
      }
    }
  }

  // ---------------------------------------------------------------------------
  // The start of a collection
  // ---------------------------------------------------------------------------

  /** Root slots as a collection begins. */
  lemma RootsBegin(c: Turn, mem: Mem<Hdr>, to: seq<Space>, roots: set<Addr>, s: Addr, f: nat)
    requires Moving(c, Starting(c.cfg, mem, c.upto, roots), to) && s in roots
    requires s !in Young(c.cfg, mem, c.upto) ==> Returns(mem, s, f)
    ensures Plain(c, Starting(c.cfg, mem, c.upto, roots), to, f, s)
  {
    StartIsReady(c, Starting(c.cfg, mem, c.upto, roots), to, s);
    hide Moving, Foreign, Age2Gen;
  }

  /** Nothing that may be moved, when a collection begins, refers to anything that would overrun the stack. */
  lemma StartIsCalm(c: Turn, mem: Mem<Hdr>, to: seq<Space>, roots: set<Addr>, f: nat)
    requires var e := Starting(c.cfg, mem, c.upto, roots);
      Moving(c, e, to) && YoungAreShallow(mem, e.from, e.starts, f)
    ensures Calm(c, Starting(c.cfg, mem, c.upto, roots), to, f)
  {
    var e := Starting(c.cfg, mem, c.upto, roots);
    hide Originals, Copies, InUse, Inv, Spaces, Foreign, Age2Gen, Live;
  }

  // ---------------------------------------------------------------------------
  // The scan
  // ---------------------------------------------------------------------------

  /** Every copy made so far came from an object whose children led to short chains through objects that do not move. */
  ghost predicate Deep(mem: Mem<Hdr>, from: set<Addr>, src: map<Addr, Addr>, f: nat) {
    forall d :: d in src ==> ChildrenReturn(mem, from, src[d], f)
  }

  /** The same of the copies below the gray pointers. */
  ghost predicate DeepBelow(e: Evac<Hdr>, to: seq<Space>, gray: seq<nat>, f: nat)
    requires |gray| == |to|
  {
    forall g, j :: 0 <= g < |to| && 0 <= j < |to[g].objs| && j < gray[g] && to[g].objs[j] in e.src ==>
      ChildrenReturn(e.mem0, e.from, e.src[to[g].objs[j]], f)
  }

  /** A pointer into from-space, or to a copy, leads nowhere through objects that do not move. */
  lemma LeafReturns(c: Turn, e: Evac<Hdr>, to: seq<Space>, x: Addr, f: nat)
    requires Moving(c, e, to) && Known(c, e, to, x) && (x in e.from || x in e.src || x !in e.mem)
    ensures OldReturns(e.mem0, e.from, Origin(e, x), f)
  {
    hide Originals, Copies, InUse, Pointers, AllFaithful, OnlyLive, Spaces, Foreign;
    FromIsInMemory(e);
  }

  /** An object that was visited comes back if its children did. */
  lemma VisitReturns(c: Turn, e: Evac<Hdr>, to: seq<Space>, x: Addr, f: nat)
    requires Moving(c, e, to) && Known(c, e, to, x) && x !in e.from && 0 < f
    requires x in e.mem ==> ChildrenReturn(e.mem0, e.from, Origin(e, x), f - 1)
    ensures OldReturns(e.mem0, e.from, Origin(e, x), f)
  {
    if x in e.src || x !in e.mem { LeafReturns(c, e, to, x, f); }
  }

  /** A root slot that leads, or led, into from-space. */
  lemma StartReturns(c: Turn, e: Evac<Hdr>, to: seq<Space>, x0: Addr, x: Addr, f: nat)
    requires Moving(c, e, to) && x0 in e.starts && (x == x0 || (x == Phi(e.mem, x0) && x !in e.from))
    ensures Known(c, e, to, x) && Origin(e, x) == x0
    ensures x in e.from || x !in e.mem ==> OldReturns(e.mem0, e.from, x0, f)
  {
    StartIsReady(c, e, to, x0);
    StartIsThere(c, e, to, x0);
    hide Moving;
    if x != x0 { MovedIsPlain(c, e, to, f, x0); }
    if x in e.from || x !in e.mem { LeafReturns(c, e, to, x, f); }
  }

  /** What an object in memory is a version of does not change. */
  lemma OriginStays(c: Turn, e: Evac<Hdr>, to: seq<Space>, e': Evac<Hdr>, to': seq<Space>, d: Addr)
    requires Moving(c, e, to) && Moving(c, e', to') && Later(e, to, e', to') && d in e.mem
    ensures Origin(e', d) == Origin(e, d)
  {
    SrcStays(e, to, e', to');
    KeysStay(c, e, to, e', to', d);
    hide Moving, Later;
  }

  lemma DeepStays(
      c: Turn, e: Evac<Hdr>, to: seq<Space>, e': Evac<Hdr>, to': seq<Space>, gray: seq<nat>, f: nat)
    requires Moving(c, e, to) && Moving(c, e', to') && Later(e, to, e', to')
    requires WhiteBelow(e, to, gray) && |gray| == |to| == |to'| && DeepBelow(e, to, gray, f)
    ensures DeepBelow(e', to', gray, f)
  {
    SrcStays(e, to, e', to');
    MarksFit(e, to, gray);
    forall g, j | 0 <= g < |to'| && 0 <= j < |to'[g].objs| && j < gray[g] && to'[g].objs[j] in e'.src
      ensures ChildrenReturn(e'.mem0, e'.from, e'.src[to'[g].objs[j]], f)
    {
      var d := to[g].objs[j];
      assert to'[g].objs[j] == d;
      GrayObject(c, e, to, g, j);
      OriginStays(c, e, to, e', to', d);
      OldIsOriginal(c, e, to, e', to', d);
    }
  }

  lemma OldIsOriginal(c: Turn, e: Evac<Hdr>, to: seq<Space>, e': Evac<Hdr>, to': seq<Space>, d: Addr)
    requires Moving(c, e, to) && Moving(c, e', to') && Later(e, to, e', to') && d in e.mem && d in e'.src
    ensures d in e.src
  {
    SrcStays(e, to, e', to');
  }

  /** One more object has been scanned. */
  lemma DeepStep(
      c: Turn, e: Evac<Hdr>, to: seq<Space>, e': Evac<Hdr>, to': seq<Space>, gray: seq<nat>, g: nat, f: nat)
    requires Moving(c, e, to) && Moving(c, e', to') && Later(e, to, e', to')
    requires WhiteBelow(e, to, gray) && |gray| == |to| == |to'| && DeepBelow(e, to, gray, f)
    requires g < |to| && gray[g] < |to[g].objs| && ChildrenReturn(e'.mem0, e'.from, Origin(e', to[g].objs[gray[g]]), f)
    ensures DeepBelow(e', to', gray[g := gray[g] + 1], f)
  {
    hide Moving, Later, WhiteBelow, ChildrenReturn;
    SrcStays(e, to, e', to');
    DeepStays(c, e, to, e', to', gray, f);
  }

  /** When every gray pointer has caught up. */
  lemma DeepEnds(c: Turn, e: Evac<Hdr>, to: seq<Space>, gray: seq<nat>, f: nat)
    requires Moving(c, e, to) && |gray| == |to| && DeepBelow(e, to, gray, f)
    requires forall g :: 0 <= g < |to| && g <= c.upto ==> gray[g] == |to[g].objs|
    ensures Deep(e.mem0, e.from, e.src, f)
  {
    hide Originals, InUse, Pointers, Age2Gen, ChildrenReturn;
    forall d | d in e.src ensures ChildrenReturn(e.mem0, e.from, e.src[d], f) {
      var g := Age2Gen(c.cfg, e.mem[d].hdr.age);
      assert d in to[g].objs;
      var j :| 0 <= j < |to[g].objs| && to[g].objs[j] == d;
      CopyIsNotFar(c, e, to, d);
    }
  }

  /** When an object has been moved, and nothing scanned yet. */
  lemma DeepBegins(c: Turn, e: Evac<Hdr>, to: seq<Space>, e': Evac<Hdr>, to': seq<Space>, f: nat)
    requires Moving(c, e, to) && Moving(c, e', to') && Later(e, to, e', to') && White(e)
    requires Deep(e.mem0, e.from, e.src, f)
    ensures |to'| == |to| && DeepBelow(e', to', Marks(to), f)
  {
    hide Moving, Later, ChildrenReturn, White, WhiteBelow;
    SrcStays(e, to, e', to');
    ScanBegins(e, to);
    DeepStays(c, e, to, e', to', Marks(to), f);
  }

  /** At the end of a collection: every live object that moved has been copied. */
  lemma DeepIsYoungReturn(e: Evac<Hdr>, f: nat)
    requires Finished(e) && Deep(e.mem0, e.from, e.src, f)
    ensures YoungReturn(e.mem0, e.from, e.starts, f)
  {
    hide Finished, Live, ChildrenReturn;
    forall a | Live(e.mem0, e.from, e.starts, a) ensures ChildrenReturn(e.mem0, e.from, a, f) {
      LiveIsInFrom(e, a);
      CopiedIffLive(e, a);
      CopyOf(e, a);
    }
  }

  lemma LiveIsInFrom(e: Evac<Hdr>, a: Addr)
    requires Live(e.mem0, e.from, e.starts, a)
    ensures a in e.from
  {
  }

  lemma CopyOf(e: Evac<Hdr>, a: Addr)
    requires Finished(e) && Copied(e, a)
    ensures e.mem[a].dest in e.src && e.src[e.mem[a].dest] == a
  {
    assert Accounted(e, a);
  }
}
