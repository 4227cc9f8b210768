/**
 * The heap of the N-generation collector: one space per generation and role,
 * objects that carry their age in their header, and what moving objects to the
 * generation their age calls for does to such a heap.
 *
 * A space keeps the objects allocated in it in order. (DArena, whose memory walk
 * visits exactly the allocations made, is the subject of module ArenaWalk.)
 */
module Stores {
  import opened Evacuation
  import opened Recursion

  /** What precedes every object in memory: its type, the number of collections it has survived, and its padded size. */
  datatype Hdr = Hdr(tseq: nat, age: nat, size: nat)

  const MAX_AGE: nat := 127

  /** Any object has room for a forwarding pointer. */
  const MIN_SIZE: nat := 8

  function NextAge(age: nat): nat { if age < MAX_AGE then age + 1 else MAX_AGE }

  /** The number of generations, and of collections an object must survive to be promoted. */
  datatype Cfg = Cfg(n: nat, survive: nat)

  type Config = c: Cfg | 0 < c.n && 0 < c.survive witness Cfg(1, 1)

  /** The generation for an object that has survived age collections. */
  function Age2Gen(cfg: Config, age: nat): (g: nat)
    ensures g < cfg.n
  {
    if age / cfg.survive < cfg.n - 1 then age / cfg.survive else cfg.n - 1
  }

  /** Generation g, unless it is the last, is for the ages from g * survive up to (g + 1) * survive. */
  lemma AgesOf(cfg: Config, age: nat, g: nat)
    requires g < cfg.n
    ensures Age2Gen(cfg, age) == g <==>
      g * cfg.survive <= age && (g + 1 == cfg.n || age < (g + 1) * cfg.survive)
  {
    var s, q := cfg.survive, age / cfg.survive;
    assert age == s * q + age % s;
    if q < g { assert s * q + s <= s * g by { Times(s, q + 1, g); } }
    if q == g { assert (g + 1) * s == s * g + s; }
    if g < q { assert s * g + s <= s * q by { Times(s, g + 1, q); } assert (g + 1) * s == s * g + s; }
  }

  lemma Times(s: nat, a: nat, b: nat)
    requires a <= b
    ensures s * a <= s * b
  {
  }

  /** Surviving a collection takes an object up by one generation at most, and never down. */
  lemma GenSteps(cfg: Config, age: nat)
    requires age <= MAX_AGE
    ensures Age2Gen(cfg, age) <= Age2Gen(cfg, NextAge(age)) <= Age2Gen(cfg, age) + 1
  {
    DivSteps(age, cfg.survive);
  }

  lemma DivSteps(a: nat, s: nat)
    requires 0 < s
    ensures a / s <= (a + 1) / s <= a / s + 1
  {
    var q, q' := a / s, (a + 1) / s;
    assert s * (q' - q) == 1 + a % s - (a + 1) % s;
    TimesBounds(s, q' - q);
  }

  lemma TimesBounds(s: nat, k: int)
    ensures 2 <= k ==> 2 * s <= s * k
    ensures k <= -1 ==> s * k + s <= 0
  {
  }

  /** One space: the address range it reserves, how much of it is in use, and the objects allocated in it, in order. */
  datatype Space = Space(lo: nat, hi: nat, used: nat, objs: seq<Addr>) {
    predicate Holds(x: Addr) { lo <= x < hi }

    predicate Fits(z: nat) { lo + used + 8 + z <= hi }

    /** Where the next object goes: its header first. */
    function Next(): Addr { lo + used + 8 }

    predicate Empty() { used == 0 && objs == [] }

    function Alloc(z: nat): Space { Space(lo, hi, used + 8 + z, objs + [Next()]) }

    ghost predicate Ok() {
      && 0 < lo && lo + used <= hi
      && (forall i :: 0 <= i < |objs| ==> lo < objs[i] < lo + used)
      && (forall i, j :: 0 <= i < j < |objs| ==> objs[i] < objs[j])
    }
  }

  lemma AllocKeepsOk(s: Space, z: nat)
    requires s.Ok() && MIN_SIZE <= z && s.Fits(z)
    ensures s.Alloc(z).Ok() && s.Next() !in s.objs && s.Holds(s.Next())
  {
  }

  /** The bytes an object takes, its header included. */
  function Stride(mem: Mem<Hdr>, a: Addr): nat {
    if a in mem && mem[a].Obj? then 8 + mem[a].hdr.size else 0
  }

  ghost function Total(mem: Mem<Hdr>, objs: seq<Addr>): nat {
    if objs == [] then 0 else Total(mem, objs[..|objs| - 1]) + Stride(mem, objs[|objs| - 1])
  }

  /** The objects of a space lie end to end, each behind its header, and fill what is in use. */
  ghost predicate Packed(mem: Mem<Hdr>, s: Space) {
    && s.used == Total(mem, s.objs)
    && (forall i {:trigger PlaceAfter(mem, s, i)} :: 0 <= i < |s.objs| ==> s.objs[i] == PlaceAfter(mem, s, i))
    && s.Next() == PlaceAfter(mem, s, |s.objs|)
  }

  /** Where an object goes after the first i. */
  ghost function PlaceAfter(mem: Mem<Hdr>, s: Space, i: nat): Addr
    requires i <= |s.objs|
  {
    if i == 0 then s.lo + 8 else s.objs[i - 1] + Stride(mem, s.objs[i - 1])
  }

  ghost predicate Metered(mem: Mem<Hdr>, to: seq<Space>) { forall g :: 0 <= g < |to| ==> Packed(mem, to[g]) }

  lemma {:induction false} PlacesAreApart(mem: Mem<Hdr>, s: Space, i: nat, j: nat)
    requires Packed(mem, s) && i < j <= |s.objs|
    ensures s.objs[i] + Stride(mem, s.objs[i]) <= PlaceAfter(mem, s, j)
    decreases j
  {
    if i + 1 < j {
      PlacesAreApart(mem, s, i, j - 1);
      assert s.objs[j - 1] == PlaceAfter(mem, s, j - 1);
    }
  }

  lemma {:induction false} TotalStays(mem: Mem<Hdr>, mem': Mem<Hdr>, objs: seq<Addr>)
    requires forall a :: a in objs ==> Stride(mem', a) == Stride(mem, a)
    ensures Total(mem', objs) == Total(mem, objs)
  {
    if objs != [] { TotalStays(mem, mem', objs[..|objs| - 1]); }
  }

  lemma MeterStays(mem: Mem<Hdr>, mem': Mem<Hdr>, to: seq<Space>)
    requires Metered(mem, to) && forall g, a :: 0 <= g < |to| && a in to[g].objs ==> Stride(mem', a) == Stride(mem, a)
    ensures Metered(mem', to)
  {
    forall g | 0 <= g < |to| ensures Packed(mem', to[g]) {
      PackedStays(mem, mem', to[g]);
    }
  }

  lemma PackedStays(mem: Mem<Hdr>, mem': Mem<Hdr>, s: Space)
    requires Packed(mem, s) && forall a :: a in s.objs ==> Stride(mem', a) == Stride(mem, a)
    ensures Packed(mem', s)
  {
    TotalStays(mem, mem', s.objs);
    forall i | 0 <= i <= |s.objs| ensures PlaceAfter(mem', s, i) == PlaceAfter(mem, s, i) {
      if 0 < i { assert s.objs[i - 1] in s.objs; }
    }
  }

  /** An object of z bytes that was not there before has been allocated in space g. */
  lemma AllocIsMetered(mem: Mem<Hdr>, mem': Mem<Hdr>, to: seq<Space>, g: nat, z: nat)
    requires Metered(mem, to) && g < |to| && Stride(mem', to[g].Next()) == 8 + z
    requires forall h, a :: 0 <= h < |to| && a in to[h].objs ==> Stride(mem', a) == Stride(mem, a)
    ensures Metered(mem', to[g := to[g].Alloc(z)])
  {
    MeterStays(mem, mem', to);
    AllocIsPacked(mem', to[g], z);
  }

  lemma AllocIsPacked(mem: Mem<Hdr>, s: Space, z: nat)
    requires Packed(mem, s) && Stride(mem, s.Next()) == 8 + z
    ensures Packed(mem, s.Alloc(z))
  {
    var s' := s.Alloc(z);
    assert s'.objs[..|s.objs|] == s.objs;
    forall i | 0 <= i <= |s.objs| ensures PlaceAfter(mem, s', i) == PlaceAfter(mem, s, i) {}
  }

  predicate Disj(a: Space, b: Space) { a.hi <= b.lo || b.hi <= a.lo }

  ghost predicate Apart(to: seq<Space>, fr: seq<Space>) {
    && |to| == |fr|
    && (forall g, h :: 0 <= g < h < |to| ==> Disj(to[g], to[h]) && Disj(fr[g], fr[h]))
    && (forall g, h :: 0 <= g < |to| && 0 <= h < |fr| ==> Disj(to[g], fr[h]))
  }

  ghost predicate AllOk(to: seq<Space>) { forall g :: 0 <= g < |to| ==> to[g].Ok() }

  predicate Contains(spaces: seq<Space>, x: Addr) {
    exists g :: 0 <= g < |spaces| && spaces[g].Holds(x)
  }

  /** Null, or an object the collector does not own. */
  predicate Foreign(to: seq<Space>, fr: seq<Space>, x: Addr) { !Contains(to, x) && !Contains(fr, x) }

  // ---------------------------------------------------------------------------
  // Between collections
  // ---------------------------------------------------------------------------

  predicate AgedFor(cfg: Config, g: nat, c: Cell<Hdr>) {
    c.Obj? && MIN_SIZE <= c.hdr.size && c.hdr.age <= MAX_AGE && Age2Gen(cfg, c.hdr.age) == g
  }

  /** Every object of a space is in memory and of an age that belongs there. */
  ghost predicate Listed(cfg: Config, mem: Mem<Hdr>, to: seq<Space>) {
    forall g, a :: 0 <= g < |to| && a in to[g].objs ==> a in mem && AgedFor(cfg, g, mem[a])
  }

  /** Age and generation agree: an object is in the space its age calls for. */
  predicate AtHome(cfg: Config, to: seq<Space>, c: Cell<Hdr>, a: Addr) {
    |to| == cfg.n && c.Obj? && MIN_SIZE <= c.hdr.size && c.hdr.age <= MAX_AGE && a in to[Age2Gen(cfg, c.hdr.age)].objs
  }

  ghost predicate HeapOk(cfg: Config, mem: Mem<Hdr>, to: seq<Space>, fr: seq<Space>) {
    && |to| == cfg.n && Apart(to, fr) && AllOk(to) && AllOk(fr)
    && (forall a :: a in mem ==> AtHome(cfg, to, mem[a], a))
    && Listed(cfg, mem, to) && Metered(mem, to)
    && (forall g :: 0 <= g < |fr| ==> fr[g].Empty())
    && (forall a, i :: a in mem && mem[a].Obj? && 0 <= i < |mem[a].fields| ==>
          mem[a].fields[i] in mem || Foreign(to, fr, mem[a].fields[i]))
  }

  /** No two objects overlap, and each has its header to itself. */
  lemma ObjectsAreApart(cfg: Config, mem: Mem<Hdr>, to: seq<Space>, fr: seq<Space>, x: Addr, y: Addr)
    requires HeapOk(cfg, mem, to, fr) && x in mem && y in mem && mem[x].Obj? && mem[y].Obj? && x < y
    ensures x + mem[x].hdr.size + 8 <= y
  {
    var g, h := Age2Gen(cfg, mem[x].hdr.age), Age2Gen(cfg, mem[y].hdr.age);
    assert AtHome(cfg, to, mem[x], x) && AtHome(cfg, to, mem[y], y);
    assert to[g].Ok() && to[h].Ok() && Packed(mem, to[g]) && Packed(mem, to[h]);
    hide Age2Gen, Total, HeapOk;
    var i :| 0 <= i < |to[g].objs| && to[g].objs[i] == x;
    var j :| 0 <= j < |to[h].objs| && to[h].objs[j] == y;
    if g == h {
      PlacesAreApart(mem, to[g], i, j);
      assert to[g].objs[j] == PlaceAfter(mem, to[g], j);
    } else {
      PlacesAreApart(mem, to[g], i, |to[g].objs|);
      if 0 < j { PlacesAreApart(mem, to[h], 0, j); }
      assert to[h].objs[j] == PlaceAfter(mem, to[h], j) && to[h].objs[0] == PlaceAfter(mem, to[h], 0);
      assert Disj(to[g], to[h]) by { SpacesAreDisjoint(cfg, mem, to, fr, g, h); }
    }
  }

  lemma SpacesAreDisjoint(cfg: Config, mem: Mem<Hdr>, to: seq<Space>, fr: seq<Space>, g: nat, h: nat)
    requires HeapOk(cfg, mem, to, fr) && g < |to| && h < |to| && g != h
    ensures Disj(to[g], to[h])
  {
    assert g < h ==> Disj(to[g], to[h]);
    assert h < g ==> Disj(to[h], to[g]);
  }

  // ---------------------------------------------------------------------------
  // During a collection
  // ---------------------------------------------------------------------------

  /** What stays fixed: the configuration, the first generation that is not collected, and the from-spaces. */
  datatype Turn = Turn(cfg: Config, upto: nat, fr: seq<Space>)

  function Copy(c: Cell<Hdr>): Cell<Hdr>
    requires c.Obj?
  {
    Obj(c.hdr.(age := NextAge(c.hdr.age)), c.fields)
  }

  ghost predicate Spaces(c: Turn, to: seq<Space>) {
    c.upto <= c.cfg.n && |to| == c.cfg.n && Apart(to, c.fr) && AllOk(to) && AllOk(c.fr)
  }

  /** Objects to be moved lie in the from-space of their generation; the others stay where they belong. */
  ghost predicate Originals(c: Turn, e: Evac<Hdr>, to: seq<Space>)
    requires Spaces(c, to)
  {
    forall a :: a in e.mem0 ==>
      && e.mem0[a].Obj? && MIN_SIZE <= e.mem0[a].hdr.size && e.mem0[a].hdr.age <= MAX_AGE
      && var g := Age2Gen(c.cfg, e.mem0[a].hdr.age);
      && (a in e.from <==> g < c.upto)
      && (if g < c.upto then c.fr[g].Holds(a)
          else a in to[g].objs && a in e.mem && e.mem[a].Obj? && e.mem[a].hdr == e.mem0[a].hdr)
  }

  /** A copy is one collection older, and in the space for that age. */
  ghost predicate Copies(c: Turn, e: Evac<Hdr>, to: seq<Space>)
    requires Spaces(c, to)
  {
    forall d :: d in e.src ==>
      && e.src[d] in e.mem0 && e.mem0[e.src[d]].Obj? && d in e.mem && e.mem[d].Obj?
      && e.mem[d].hdr == Copy(e.mem0[e.src[d]]).hdr
      && d in to[Age2Gen(c.cfg, e.mem[d].hdr.age)].objs
  }

  /** What the spaces hold is outside from-space, and fills what is in use. */
  ghost predicate InUse(c: Turn, e: Evac<Hdr>, to: seq<Space>) {
    Listed(c.cfg, e.mem, to) && Metered(e.mem, to) && forall g, a :: 0 <= g < |to| && a in to[g].objs ==> a !in e.from
  }

  ghost predicate Pointers(c: Turn, e: Evac<Hdr>, to: seq<Space>) {
    && (forall a, i :: a in e.mem0 && e.mem0[a].Obj? && 0 <= i < |e.mem0[a].fields| ==>
          e.mem0[a].fields[i] in e.mem0 || Foreign(to, c.fr, e.mem0[a].fields[i]))
    && (forall s :: s in e.starts ==> s in e.mem0 || Foreign(to, c.fr, s))
  }

  ghost predicate Moving(c: Turn, e: Evac<Hdr>, to: seq<Space>) {
    Inv(e) && Spaces(c, to) && Originals(c, e, to) && Copies(c, e, to) && InUse(c, e, to) && Pointers(c, e, to)
  }

  predicate Known(c: Turn, e: Evac<Hdr>, to: seq<Space>, x: Addr) {
    x in e.mem || Foreign(to, c.fr, x)
  }

  /** The places of everything in memory. */
  lemma WhereIs(c: Turn, e: Evac<Hdr>, to: seq<Space>, x: Addr)
    requires Spaces(c, to) && Forwards(e) && Originals(c, e, to) && Copies(c, e, to) && x in e.mem
    ensures x in e.from ==> exists g :: 0 <= g < c.upto && c.fr[g].Holds(x)
    ensures x !in e.from ==> exists g :: 0 <= g < |to| && x in to[g].objs && to[g].Ok()
  {
    hide Age2Gen;
    if x in e.from {
      assert Accounted(e, x);
      assert c.fr[Age2Gen(c.cfg, e.mem0[x].hdr.age)].Holds(x);
    } else if x in e.src {
      assert x in to[Age2Gen(c.cfg, e.mem[x].hdr.age)].objs;
    } else {
      assert x in e.mem0;
      assert x in to[Age2Gen(c.cfg, e.mem0[x].hdr.age)].objs;
    }
  }

  /** What is outside from-space is in a to-space, below its free pointer. */
  lemma InToSpace(c: Turn, e: Evac<Hdr>, to: seq<Space>, x: Addr)
    requires Spaces(c, to) && Forwards(e) && Originals(c, e, to) && Copies(c, e, to) && x in e.mem
    ensures x in e.from <==> Contains(c.fr, x)
    ensures x !in e.from <==> Contains(to, x)
    ensures forall g :: 0 <= g < |to| && to[g].Holds(x) ==> x !in e.from && x in to[g].objs
  {
    hide Originals, Copies, Forwards;
    WhereIs(c, e, to, x);
  }

  /** A pointer in hand is in from-space exactly if its address is. */
  lemma FromByAddress(c: Turn, e: Evac<Hdr>, to: seq<Space>, x: Addr)
    requires Moving(c, e, to) && Known(c, e, to, x)
    ensures x in e.from <==> Contains(c.fr, x)
    ensures x in e.mem && x !in e.from ==> e.mem[x].Obj?
  {
    hide Originals, Copies, InUse, Pointers, AllFaithful, OnlyLive;
    if x in e.mem {
      InToSpace(c, e, to, x);
      if x !in e.from { OutsideIsObject(e, x); }
    } else {
      FromIsInMemory(e);
    }
  }

  lemma OutsideIsObject(e: Evac<Hdr>, x: Addr)
    requires Inv(e) && x in e.mem && x !in e.from
    ensures e.mem[x].Obj?
  {
    assert Faithful(e, x);
  }

  lemma FromIsInMemory(e: Evac<Hdr>)
    requires Forwards(e)
    ensures e.from <= e.mem0.Keys <= e.mem.Keys && e.src.Keys <= e.mem.Keys
  {
  }

  // ---------------------------------------------------------------------------
  // Moving one object
  // ---------------------------------------------------------------------------

  /** The generation the copy of x goes to. */
  function Target(c: Turn, e: Evac<Hdr>, x: Addr): (g: nat)
    requires x in e.mem0 && e.mem0[x].Obj?
    ensures g < c.cfg.n
  {
    Age2Gen(c.cfg, NextAge(e.mem0[x].hdr.age))
  }

  /** The spaces after allocating z bytes in generation g. */
  function Grow(to: seq<Space>, g: nat, z: nat): seq<Space>
    requires g < |to|
  {
    to[g := to[g].Alloc(z)]
  }

  lemma GrowKeepsSpaces(c: Turn, to: seq<Space>, g: nat, z: nat)
    requires Spaces(c, to) && g < |to| && MIN_SIZE <= z && to[g].Fits(z)
    ensures Spaces(c, Grow(to, g, z))
    ensures forall x :: Contains(Grow(to, g, z), x) <==> Contains(to, x)
  {
    AllocKeepsOk(to[g], z);
    hide Space.Ok;
    var to' := Grow(to, g, z);
    assert forall h :: 0 <= h < |to| ==> to'[h].lo == to[h].lo && to'[h].hi == to[h].hi;
    SameRangesContain(to, to');
    forall h, i | 0 <= h < i < |to'| ensures Disj(to'[h], to'[i]) { assert Disj(to[h], to[i]); }
    forall h, i | 0 <= h < |to'| && 0 <= i < |c.fr| ensures Disj(to'[h], c.fr[i]) { assert Disj(to[h], c.fr[i]); }
  }

  lemma SameRangesContain(to: seq<Space>, to': seq<Space>)
    requires |to'| == |to| && forall h :: 0 <= h < |to| ==> to'[h].lo == to[h].lo && to'[h].hi == to[h].hi
    ensures forall x :: Contains(to', x) <==> Contains(to, x)
  {
    forall x ensures Contains(to', x) <==> Contains(to, x) {
      if Contains(to', x) { var h :| 0 <= h < |to'| && to'[h].Holds(x); assert to[h].Holds(x); }
      if Contains(to, x) { var h :| 0 <= h < |to| && to[h].Holds(x); assert to'[h].Holds(x); }
    }
  }

  lemma NextIsFresh(c: Turn, e: Evac<Hdr>, to: seq<Space>, g: nat, z: nat)
    requires Spaces(c, to) && Forwards(e) && Originals(c, e, to) && Copies(c, e, to)
    requires g < |to| && to[g].Fits(z) && 0 < z
    ensures to[g].Next() !in e.mem && !Contains(c.fr, to[g].Next())
  {
    hide Originals, Copies, Forwards;
    var d := to[g].Next();
    assert to[g].Holds(d);
    if d in e.mem { InToSpace(c, e, to, d); }
    forall h | 0 <= h < |c.fr| ensures !c.fr[h].Holds(d) { assert Disj(to[g], c.fr[h]); }
  }

  /**
   * An object of from-space that has not moved is ready to be: it still has its header, and its copy
   * is no more than a generation away.
   */
  lemma Movable(c: Turn, e: Evac<Hdr>, to: seq<Space>, x: Addr)
    requires Moving(c, e, to) && x in e.from && e.mem[x].Obj?
    ensures x in e.mem0 && e.mem0[x].Obj? && e.mem[x].hdr == e.mem0[x].hdr && MIN_SIZE <= e.mem[x].hdr.size
    ensures |to| == c.cfg.n && e.mem0[x].hdr.age <= MAX_AGE && x in e.mem
    ensures e.from <= e.mem.Keys && e.src.Keys <= e.mem.Keys
    ensures Age2Gen(c.cfg, e.mem0[x].hdr.age) < c.upto && Target(c, e, x) <= c.upto
  {
    hide Copies, InUse, Pointers, AllFaithful, OnlyLive, Apart, AllOk;
    assert Accounted(e, x);
    FromIsInMemory(e);
    GenSteps(c.cfg, e.mem0[x].hdr.age);
  }

  /** Moving x to the next free place of its new generation keeps the invariant. */
  lemma MoveKeepsMoving(c: Turn, e: Evac<Hdr>, to: seq<Space>, x: Addr)
    requires Moving(c, e, to) && x in e.from && e.mem[x].Obj? && Live(e.mem0, e.from, e.starts, x)
    requires x in e.mem0 && e.mem0[x].Obj? && to[Target(c, e, x)].Fits(e.mem[x].hdr.size)
    ensures var d := to[Target(c, e, x)].Next();
      && d !in e.mem && !Contains(c.fr, d)
      && Moving(c, CopyStep(e, x, d, Copy(e.mem[x])), Grow(to, Target(c, e, x), e.mem[x].hdr.size))
  {
    hide Originals, Copies, InUse, Pointers, Inv, Live, Age2Gen, Spaces, Target;
    Movable(c, e, to, x);
    var g, z := Target(c, e, x), e.mem[x].hdr.size;
    ForwardsOf(e);
    NextIsFresh(c, e, to, g, z);
    GrowKeepsSpaces(c, to, g, z);
    CopyKeepsInv(e, x, to[g].Next(), Copy(e.mem[x]));
    var e', to' := CopyStep(e, x, to[g].Next(), Copy(e.mem[x])), Grow(to, g, z);
    GrowIsGrown(to, g, z);
    FromIsInMemory(e);
    HdrsStayOnCopy(e, x, to[g].Next());
    OriginalsStay(c, e, to, e', to');
    MoveKeepsCopies(c, e, to, x, g);
    MoveKeepsInUse(c, e, to, x, g);
    MoveKeepsPointers(c, e, to, x, g, z);
  }

  lemma ForwardsOf(e: Evac<Hdr>)
    requires Inv(e)
    ensures Forwards(e)
  {
  }

  /** The spaces of to' are those of to, with perhaps more objects at their ends. */
  ghost predicate Grown(to: seq<Space>, to': seq<Space>) {
    |to'| == |to| && forall g :: 0 <= g < |to| ==>
      to'[g].lo == to[g].lo && to'[g].hi == to[g].hi && to[g].objs <= to'[g].objs
  }

  lemma GrowIsGrown(to: seq<Space>, g: nat, z: nat)
    requires g < |to|
    ensures Grown(to, Grow(to, g, z))
  {
  }

  /** Objects outside from-space are still there, with the same headers. */
  ghost predicate HdrsStay(e: Evac<Hdr>, e': Evac<Hdr>) {
    && e'.mem0 == e.mem0 && e'.from == e.from
    && forall d :: d in e.mem && d !in e.from && e.mem[d].Obj? ==>
      d in e'.mem && e'.mem[d].Obj? && e'.mem[d].hdr == e.mem[d].hdr
  }

  lemma HdrsStayOnCopy(e: Evac<Hdr>, x: Addr, d: Addr)
    requires x in e.from && x in e.mem && e.mem[x].Obj? && d !in e.mem
    ensures HdrsStay(e, CopyStep(e, x, d, Copy(e.mem[x])))
  {
  }

  lemma OriginalsStay(c: Turn, e: Evac<Hdr>, to: seq<Space>, e': Evac<Hdr>, to': seq<Space>)
    requires Spaces(c, to) && Spaces(c, to') && Originals(c, e, to) && HdrsStay(e, e') && Grown(to, to')
    ensures Originals(c, e', to')
  {
    hide Age2Gen, Spaces;
    assert |to| == c.cfg.n by { SizeOf(c, to); }
  }

  lemma SizeOf(c: Turn, to: seq<Space>)
    requires Spaces(c, to)
    ensures |to| == c.cfg.n && |c.fr| == c.cfg.n && c.upto <= c.cfg.n
  {
  }

  lemma MoveKeepsCopies(c: Turn, e: Evac<Hdr>, to: seq<Space>, x: Addr, g: nat)
    requires Spaces(c, to) && Copies(c, e, to)
    requires x in e.from && x in e.mem && e.mem[x].Obj? && x in e.mem0 && e.mem0[x].Obj?
    requires e.mem[x].hdr == e.mem0[x].hdr
    requires g == Target(c, e, x) && to[g].Next() !in e.mem && x !in e.src
    requires Spaces(c, Grow(to, g, e.mem[x].hdr.size))
    ensures Copies(c, CopyStep(e, x, to[g].Next(), Copy(e.mem[x])), Grow(to, g, e.mem[x].hdr.size))
  {
    SizeOf(c, to);
    hide Age2Gen, Spaces;
  }

  lemma MoveKeepsInUse(c: Turn, e: Evac<Hdr>, to: seq<Space>, x: Addr, g: nat)
    requires Spaces(c, to) && InUse(c, e, to)
    requires x in e.from && x in e.mem && e.mem[x].Obj? && x in e.mem0 && e.mem0[x].Obj?
    requires e.mem[x].hdr == e.mem0[x].hdr
    requires MIN_SIZE <= e.mem[x].hdr.size
    requires g == Target(c, e, x) && to[g].Next() !in e.mem && to[g].Next() !in e.from
    ensures InUse(c, CopyStep(e, x, to[g].Next(), Copy(e.mem[x])), Grow(to, g, e.mem[x].hdr.size))
  {
    hide Age2Gen, Spaces, Metered, Space.Ok;
    SizeOf(c, to);
    var e', to' := CopyStep(e, x, to[g].Next(), Copy(e.mem[x])), Grow(to, g, e.mem[x].hdr.size);
    forall h, a | 0 <= h < |to| && a in to[h].objs ensures Stride(e'.mem, a) == Stride(e.mem, a) {
      assert a !in e.from;
    }
    AllocIsMetered(e.mem, e'.mem, to, g, e.mem[x].hdr.size);
    forall h, a | 0 <= h < |to'| && a in to'[h].objs
      ensures a in e'.mem && AgedFor(c.cfg, h, e'.mem[a]) && a !in e'.from
    {
      assert a in to[h].objs || (h == g && a == to[g].Next());
    }
  }

  lemma MoveKeepsPointers(c: Turn, e: Evac<Hdr>, to: seq<Space>, x: Addr, g: nat, z: nat)
    requires g < |to| && x in e.mem && e.mem[x].Obj? && Pointers(c, e, to)
    requires forall y :: Contains(Grow(to, g, z), y) <==> Contains(to, y)
    ensures Pointers(c, CopyStep(e, x, to[g].Next(), Copy(e.mem[x])), Grow(to, g, z))
  {
    hide Contains;
  }

  // ---------------------------------------------------------------------------
  // Redirecting one field
  // ---------------------------------------------------------------------------

  lemma FixKeepsMoving(c: Turn, e: Evac<Hdr>, to: seq<Space>, d: Addr, i: nat)
    requires Moving(c, e, to) && d in e.mem && e.mem[d].Obj? && i < |e.mem[d].fields|
    requires Phi(e.mem, e.mem[d].fields[i]) !in e.from
    ensures Moving(c, SetField(e, d, i, Phi(e.mem, e.mem[d].fields[i])), to)
  {
    hide Originals, Copies, InUse, Pointers, Inv, Age2Gen, Spaces, Phi;
    FixKeepsInv(e, d, i);
    ForwardsOf(e);
    var e' := SetField(e, d, i, Phi(e.mem, e.mem[d].fields[i]));
    OriginalsStay(c, e, to, e', to);
    FixKeepsCopies(c, e, to, e');
    FixKeepsInUse(c, e, to, e');
    assert Pointers(c, e', to) by { PointersStay(c, e, to, e'); }
  }

  lemma FixKeepsCopies(c: Turn, e: Evac<Hdr>, to: seq<Space>, e': Evac<Hdr>)
    requires Spaces(c, to) && Forwards(e) && Copies(c, e, to) && HdrsStay(e, e') && e'.src == e.src
    ensures Copies(c, e', to)
  {
    SizeOf(c, to);
    hide Age2Gen, Spaces;
  }

  lemma FixKeepsInUse(c: Turn, e: Evac<Hdr>, to: seq<Space>, e': Evac<Hdr>)
    requires InUse(c, e, to) && HdrsStay(e, e')
    ensures InUse(c, e', to)
  {
    hide Age2Gen, Metered;
    MeterStays(e.mem, e'.mem, to);
  }

  lemma PointersStay(c: Turn, e: Evac<Hdr>, to: seq<Space>, e': Evac<Hdr>)
    requires Pointers(c, e, to) && e'.mem0 == e.mem0 && e'.starts == e.starts
    ensures Pointers(c, e', to)
  {
    hide Contains;
  }

  // ---------------------------------------------------------------------------
  // What a step may change
  // ---------------------------------------------------------------------------

  /** What became of one field: nothing, or a pointer into from-space has been redirected out of it. */
  predicate FieldStays(from: set<Addr>, x: Addr, x': Addr) {
    x' == x || (x in from && x' !in from)
  }

  /** What became of an object: it may have been moved out of from-space, and fields may have been redirected. */
  ghost predicate CellStays(from: set<Addr>, d: Addr, before: Cell<Hdr>, mem': Mem<Hdr>) {
    d in mem' &&
    match before
    case Fwd(_) => mem'[d] == before
    case Obj(hdr, fields) =>
      var d' := Phi(mem', d);
      && d' in mem' && mem'[d'].Obj? && |mem'[d'].fields| == |fields|
      && (if d' == d then mem'[d'].hdr == hdr else d in from && d' !in from)
      && forall i :: 0 <= i < |fields| ==> FieldStays(from, fields[i], mem'[d'].fields[i])
  }

  /** From e to e' objects were moved and fields redirected, and nothing else happened. */
  ghost predicate Later(e: Evac<Hdr>, to: seq<Space>, e': Evac<Hdr>, to': seq<Space>) {
    && e'.mem0 == e.mem0 && e'.from == e.from && e'.starts == e.starts
    && (forall d :: d in e.mem ==> CellStays(e.from, d, e.mem[d], e'.mem))
    && (forall d :: d in e.src ==> d in e'.src && e'.src[d] == e.src[d])
    && Grown(to, to')
    && (Unmoved(e') == Unmoved(e) ==> to' == to)
  }

  /** The objects still to be moved, if they are live. */
  ghost function Unmoved(e: Evac<Hdr>): set<Addr> {
    set a | a in e.from && !(a in e.mem && e.mem[a].Fwd?)
  }

  lemma LaterIsReflexive(e: Evac<Hdr>, to: seq<Space>)
    ensures Later(e, to, e, to)
  {
  }

  lemma LaterTrans(e: Evac<Hdr>, to: seq<Space>, e1: Evac<Hdr>, to1: seq<Space>, e2: Evac<Hdr>, to2: seq<Space>)
    requires Later(e, to, e1, to1) && Later(e1, to1, e2, to2)
    ensures Later(e, to, e2, to2)
  {
    LaterShrinks(e, to, e1, to1);
    LaterShrinks(e1, to1, e2, to2);
    assert Unmoved(e2) == Unmoved(e) ==> Unmoved(e1) == Unmoved(e);
    hide Unmoved;
    forall d | d in e.mem ensures CellStays(e.from, d, e.mem[d], e2.mem) {
      CellStaysTrans(e.from, d, e.mem[d], e1.mem, e2.mem);
    }
  }

  lemma CellStaysTrans(from: set<Addr>, d: Addr, before: Cell<Hdr>, mem1: Mem<Hdr>, mem2: Mem<Hdr>)
    requires CellStays(from, d, before, mem1)
    requires forall x :: x in mem1 ==> CellStays(from, x, mem1[x], mem2)
    ensures CellStays(from, d, before, mem2)
  {
    assert CellStays(from, d, mem1[d], mem2);
    if before.Obj? {
      var d1 := Phi(mem1, d);
      assert CellStays(from, d1, mem1[d1], mem2);
    }
  }

  lemma LaterShrinks(e: Evac<Hdr>, to: seq<Space>, e': Evac<Hdr>, to': seq<Space>)
    requires Later(e, to, e', to')
    ensures Unmoved(e') <= Unmoved(e)
  {
    forall a | a in Unmoved(e') ensures a in Unmoved(e) {
      if a in e.mem { assert CellStays(e.from, a, e.mem[a], e'.mem); }
    }
  }

  lemma MoveIsLater(c: Turn, e: Evac<Hdr>, to: seq<Space>, x: Addr)
    requires x in e.from && x in e.mem && e.mem[x].Obj? && x in e.mem0 && e.mem0[x].Obj?
    requires |to| == c.cfg.n && to[Target(c, e, x)].Next() !in e.mem
    requires to[Target(c, e, x)].Next() !in e.src && to[Target(c, e, x)].Next() !in e.from
    ensures Later(e, to, CopyStep(e, x, to[Target(c, e, x)].Next(), Copy(e.mem[x])),
      Grow(to, Target(c, e, x), e.mem[x].hdr.size))
  {
    hide Age2Gen;
    var e' := CopyStep(e, x, to[Target(c, e, x)].Next(), Copy(e.mem[x]));
    GrowIsGrown(to, Target(c, e, x), e.mem[x].hdr.size);
    assert x in Unmoved(e) && x !in Unmoved(e');
  }

  lemma FixIsLater(e: Evac<Hdr>, to: seq<Space>, d: Addr, i: nat)
    requires d in e.mem && e.mem[d].Obj? && i < |e.mem[d].fields|
    requires e.mem[d].fields[i] in e.from && Phi(e.mem, e.mem[d].fields[i]) !in e.from
    ensures Later(e, to, SetField(e, d, i, Phi(e.mem, e.mem[d].fields[i])), to)
  {
  }

  /** White objects stay white. */
  lemma CleanStays(e: Evac<Hdr>, to: seq<Space>, e': Evac<Hdr>, to': seq<Space>, d: Addr)
    requires Later(e, to, e', to') && Clean(e, d) && d !in e.from
    ensures Clean(e', d)
  {
    assert CellStays(e.from, d, e.mem[d], e'.mem);
  }

  /** Where a moved object went does not change any more. */
  lemma PhiStays(e: Evac<Hdr>, to: seq<Space>, e': Evac<Hdr>, to': seq<Space>, x: Addr)
    requires Later(e, to, e', to') && Inv(e) && Inv(e') && Phi(e.mem, x) !in e.from
    ensures Phi(e'.mem, x) == Phi(e.mem, x)
  {
    if x in e.mem && e.mem[x].Fwd? {
      assert CellStays(e.from, x, e.mem[x], e'.mem);
    } else {
      PhiOfOutside(e', x);
    }
  }

  // ---------------------------------------------------------------------------
  // The gray scan
  // ---------------------------------------------------------------------------

  /** p follows references from d; after d it comes through no copy. */
  ghost predicate OldWalk(e: Evac<Hdr>, d: Addr, p: seq<Addr>) {
    IsWalk(e.mem, d, p) && forall i :: 0 < i < |p| ==> p[i] !in e.src
  }

  /** d is white, and so is every older object that the forwarding step went on to from there. */
  ghost predicate Scanned(e: Evac<Hdr>, d: Addr) {
    Clean(e, d) && forall p :: OldWalk(e, d, p) ==> Clean(e, p[|p| - 1])
  }

  /** The forwarding step has dealt with a pointer to y: y is a copy, has been scanned, or is of no interest. */
  ghost predicate Reached(e: Evac<Hdr>, y: Addr) {
    y !in e.from && (y in e.mem ==> y in e.src || Scanned(e, y))
  }

  /** Everything that x leads to is white. */
  ghost predicate WhiteFrom(e: Evac<Hdr>, x: Addr) {
    forall p :: IsWalk(e.mem, x, p) ==> Clean(e, p[|p| - 1])
  }

  /** An object has been scanned when its fields have been dealt with. */
  lemma ScannedFrom(e: Evac<Hdr>, d: Addr)
    requires Clean(e, d) && forall i :: 0 <= i < |e.mem[d].fields| ==> Reached(e, e.mem[d].fields[i])
    ensures Scanned(e, d)
  {
    forall p | OldWalk(e, d, p) ensures Clean(e, p[|p| - 1]) {
      if 1 < |p| {
        assert p[1] in e.mem[p[0]].fields;
        var i :| 0 <= i < |e.mem[d].fields| && e.mem[d].fields[i] == p[1];
        assert Reached(e, e.mem[d].fields[i]) && p[1] in e.mem;
        assert OldWalk(e, p[1], p[1..]);
      }
    }
  }

  lemma AllReached(e: Evac<Hdr>, d: Addr)
    requires d in e.mem && e.mem[d].Obj? && forall i :: 0 <= i < |e.mem[d].fields| ==> Reached(e, e.mem[d].fields[i])
    ensures Scanned(e, d)
  {
    ScannedFrom(e, d);
  }

  lemma ScannedChild(e: Evac<Hdr>, d: Addr, i: nat)
    requires Scanned(e, d) && d !in e.from && i < |e.mem[d].fields|
    ensures var y := e.mem[d].fields[i]; y in e.mem && e.mem[y].Obj? ==> Reached(e, y)
  {
    var y := e.mem[d].fields[i];
    if y in e.mem && e.mem[y].Obj? && y !in e.src {
      forall p | OldWalk(e, y, p) ensures Clean(e, p[|p| - 1]) { assert OldWalk(e, d, [d] + p); }
      assert OldWalk(e, d, [d, y]);
    }
  }

  /** When every copy has been scanned, everything that a scanned object leads to is white. */
  lemma WhiteFromScanned(e: Evac<Hdr>, x: Addr)
    requires White(e) && Reached(e, x)
    ensures WhiteFrom(e, x)
  {
    forall p | IsWalk(e.mem, x, p) ensures Clean(e, p[|p| - 1]) { WhiteWalk(e, x, p); }
  }

  lemma {:induction false} WhiteWalk(e: Evac<Hdr>, x: Addr, p: seq<Addr>)
    requires White(e) && Reached(e, x) && IsWalk(e.mem, x, p)
    ensures Clean(e, p[|p| - 1])
    decreases |p|
  {
    assert Scanned(e, x);
    if 1 < |p| {
      assert p[1] in e.mem[p[0]].fields;
      var i :| 0 <= i < |e.mem[x].fields| && e.mem[x].fields[i] == p[1];
      ScannedChild(e, x, i);
      assert IsWalk(e.mem, p[1], p[1..]);
      WhiteWalk(e, p[1], p[1..]);
    }
  }

  lemma WhiteFromChild(e: Evac<Hdr>, x: Addr, i: nat)
    requires WhiteFrom(e, x) && x in e.mem && e.mem[x].Obj? && i < |e.mem[x].fields|
    ensures e.mem[x].fields[i] !in e.from && WhiteFrom(e, e.mem[x].fields[i])
  {
    assert IsWalk(e.mem, x, [x]);
    forall p | IsWalk(e.mem, e.mem[x].fields[i], p) ensures Clean(e, p[|p| - 1]) {
      assert IsWalk(e.mem, x, [x] + p);
    }
  }

  /** A walk through older objects from a scanned one was there when it was scanned. */
  lemma {:induction false} WalkWasThere(
      e: Evac<Hdr>, to: seq<Space>, e': Evac<Hdr>, to': seq<Space>, d: Addr, p: seq<Addr>)
    requires Later(e, to, e', to') && Forwards(e) && Forwards(e') && Scanned(e, d) && d !in e.from && OldWalk(e', d, p)
    ensures OldWalk(e, d, p) && p[|p| - 1] !in e.from
    decreases |p|
  {
    hide Later, Forwards, Scanned;
    SrcStays(e, to, e', to');
    if 1 < |p| {
      var q, z := p[..|p| - 1], p[|p| - 1];
      assert IsWalk(e'.mem, d, q);
      WalkWasThere(e, to, e', to', d, q);
      assert Clean(e, q[|q| - 1]) by { WalkIsClean(e, d, q); }
      StepWasThere(e, to, e', to', q[|q| - 1], z);
    } else {
      assert Clean(e, d) by { WalkIsClean(e, d, [d]); }
    }
  }

  lemma WalkIsClean(e: Evac<Hdr>, d: Addr, p: seq<Addr>)
    requires Scanned(e, d) && (OldWalk(e, d, p) || p == [d])
    ensures Clean(e, p[|p| - 1])
  {
  }

  /** The last step of such a walk. */
  lemma StepWasThere(e: Evac<Hdr>, to: seq<Space>, e': Evac<Hdr>, to': seq<Space>, y: Addr, z: Addr)
    requires Later(e, to, e', to') && Forwards(e) && Forwards(e') && Clean(e, y) && y !in e.from
    requires y in e'.mem && e'.mem[y].Obj? && z in e'.mem[y].fields && z in e'.mem && e'.mem[z].Obj? && z !in e'.src
    ensures z in e.mem[y].fields && z !in e.from && z in e.mem && e.mem[z].Obj?
  {
    hide Later, Forwards;
    ObjectStays(e, to, e', to', y);
    assert e'.mem[y].fields == e.mem[y].fields;
    WasObject(e, to, e', to', z);
  }

  lemma WasObject(e: Evac<Hdr>, to: seq<Space>, e': Evac<Hdr>, to': seq<Space>, z: Addr)
    requires Later(e, to, e', to') && Forwards(e) && Forwards(e') && z in e'.mem && e'.mem[z].Obj? && z !in e'.src
    ensures z in e.mem && e.mem[z].Obj?
  {
    assert z in e.mem0 && z in e.mem;
    assert CellStays(e.from, z, e.mem[z], e'.mem);
  }

  /** What has been scanned stays so. */
  lemma ScannedStays(e: Evac<Hdr>, to: seq<Space>, e': Evac<Hdr>, to': seq<Space>, d: Addr)
    requires Later(e, to, e', to') && Forwards(e) && Forwards(e') && Scanned(e, d) && d !in e.from
    ensures Scanned(e', d)
  {
    CleanStays(e, to, e', to', d);
    forall p | OldWalk(e', d, p) ensures Clean(e', p[|p| - 1]) {
      WalkWasThere(e, to, e', to', d, p);
      CleanStays(e, to, e', to', p[|p| - 1]);
    }
  }

  lemma ReachedStays(c: Turn, e: Evac<Hdr>, to: seq<Space>, e': Evac<Hdr>, to': seq<Space>, y: Addr)
    requires Moving(c, e, to) && Moving(c, e', to') && Later(e, to, e', to') && Known(c, e, to, y) && Reached(e, y)
    ensures Reached(e', y)
  {
    hide Originals, Copies, InUse, Pointers, AllFaithful, OnlyLive, Spaces, Later, Scanned;
    ForwardsOf(e);
    ForwardsOf(e');
    SrcStays(e, to, e', to');
    if y !in e.mem {
      ForeignStays(c, to, to', y);
      ForeignIsNowhere(c, e', to', y);
    } else if y !in e.src {
      ScannedStays(e, to, e', to', y);
    }
  }

  lemma ForeignStays(c: Turn, to: seq<Space>, to': seq<Space>, x: Addr)
    requires Grown(to, to')
    ensures Foreign(to', c.fr, x) <==> Foreign(to, c.fr, x)
  {
    if Contains(to, x) { var g :| 0 <= g < |to| && to[g].Holds(x); assert to'[g].Holds(x); }
    if Contains(to', x) { var g :| 0 <= g < |to'| && to'[g].Holds(x); assert to[g].Holds(x); }
  }

  lemma ForeignIsNowhere(c: Turn, e: Evac<Hdr>, to: seq<Space>, x: Addr)
    requires Moving(c, e, to) && Foreign(to, c.fr, x)
    ensures x !in e.mem && x !in e.from && x !in e.src && x !in e.mem0
  {
    hide Originals, Copies, InUse, Pointers, AllFaithful, OnlyLive, Spaces;
    FromIsInMemory(e);
    if x in e.mem { InToSpace(c, e, to, x); }
  }

  /** Every copy has been scanned. */
  ghost predicate White(e: Evac<Hdr>) {
    forall d :: d in e.src ==> Scanned(e, d)
  }

  /** In every generation the copies below the gray pointer have been scanned. */
  ghost predicate WhiteBelow(e: Evac<Hdr>, to: seq<Space>, gray: seq<nat>) {
    && |gray| == |to|
    && (forall g :: 0 <= g < |to| ==> gray[g] <= |to[g].objs|)
    && forall g, j :: 0 <= g < |to| && 0 <= j < gray[g] && to[g].objs[j] in e.src ==> Scanned(e, to[g].objs[j])
  }

  /** The gray pointers before anything more is moved: everything allocated so far is white. */
  function Marks(to: seq<Space>): seq<nat> {
    seq(|to|, g requires 0 <= g < |to| => |to[g].objs|)
  }

  lemma ScanBegins(e: Evac<Hdr>, to: seq<Space>)
    requires White(e)
    ensures WhiteBelow(e, to, Marks(to))
  {
  }

  lemma WhiteStays(c: Turn, e: Evac<Hdr>, to: seq<Space>, e': Evac<Hdr>, to': seq<Space>, gray: seq<nat>)
    requires Later(e, to, e', to') && WhiteBelow(e, to, gray) && Forwards(e) && Forwards(e') && InUse(c, e', to')
    requires forall g, a :: 0 <= g < |to| && a in to[g].objs ==> a in e.mem
    ensures WhiteBelow(e', to', gray)
  {
    forall g, j | 0 <= g < |to'| && 0 <= j < gray[g] && to'[g].objs[j] in e'.src ensures Scanned(e', to'[g].objs[j]) {
      var d := to'[g].objs[j];
      assert d == to[g].objs[j] && d in to[g].objs;
      assert d in e.src;
      ScannedStays(e, to, e', to', d);
    }
  }

  lemma WhiteStaysIn(c: Turn, e: Evac<Hdr>, to: seq<Space>, e': Evac<Hdr>, to': seq<Space>, gray: seq<nat>)
    requires Moving(c, e, to) && Moving(c, e', to') && Later(e, to, e', to') && WhiteBelow(e, to, gray)
    ensures WhiteBelow(e', to', gray) && |gray| == |to| == |to'|
  {
    hide Inv, Originals, Copies, Pointers, Age2Gen, Spaces, Later, Scanned, Forwards, WhiteBelow;
    ForwardsOf(e);
    ForwardsOf(e');
    MarksFit(e, to, gray);
    SrcStays(e, to, e', to');
    WhiteStays(c, e, to, e', to', gray);
  }

  /** When every gray pointer has caught up, every copy is white. */
  lemma ScanEnds(c: Turn, e: Evac<Hdr>, to: seq<Space>, gray: seq<nat>)
    requires Moving(c, e, to) && WhiteBelow(e, to, gray)
    requires forall g :: 0 <= g < |to| && g <= c.upto ==> gray[g] == |to[g].objs|
    ensures White(e)
  {
    hide Originals, InUse, Pointers, Age2Gen, Scanned;
    forall d | d in e.src ensures Scanned(e, d) {
      var g := Age2Gen(c.cfg, e.mem[d].hdr.age);
      assert d in to[g].objs;
      var j :| 0 <= j < |to[g].objs| && to[g].objs[j] == d;
      CopyIsNotFar(c, e, to, d);
    }
  }

  /** A copy is never beyond the first generation that is not collected. */
  lemma CopyIsNotFar(c: Turn, e: Evac<Hdr>, to: seq<Space>, d: Addr)
    requires Moving(c, e, to) && d in e.src
    ensures d in e.mem && e.mem[d].Obj? && Age2Gen(c.cfg, e.mem[d].hdr.age) <= c.upto
  {
    hide InUse, Pointers, Age2Gen, AllFaithful, OnlyLive, Apart, AllOk;
    GenSteps(c.cfg, e.mem0[e.src[d]].hdr.age);
  }

  // ---------------------------------------------------------------------------
  // How deep the forwarding step goes
  // ---------------------------------------------------------------------------

  /** What x is a version of led, when the collection began, to chains of no more than f objects. */
  ghost predicate Short(e: Evac<Hdr>, f: nat, x: Addr) { Returns(e.mem0, Origin(e, x), f) }

  /** Pointers out of the heap, and original ones, are not copies. */
  lemma NotACopy(c: Turn, e: Evac<Hdr>, to: seq<Space>, x: Addr)
    requires Moving(c, e, to) && (x in e.mem0 || Foreign(to, c.fr, x))
    ensures x !in e.src
  {
    if x !in e.mem0 { ForeignIsNowhere(c, e, to, x); }
  }

  /** Every field names a version of what it named first. */
  lemma FieldOrigin(c: Turn, e: Evac<Hdr>, to: seq<Space>, d: Addr, i: nat)
    requires Moving(c, e, to) && d in e.mem && e.mem[d].Obj? && i < |e.mem[d].fields|
    ensures Origin(e, d) in e.mem0 && e.mem0[Origin(e, d)].Obj? && |e.mem0[Origin(e, d)].fields| == |e.mem[d].fields|
    ensures Origin(e, e.mem[d].fields[i]) == e.mem0[Origin(e, d)].fields[i]
    ensures Known(c, e, to, e.mem[d].fields[i])
  {
    hide Originals, Copies, InUse, Spaces, Contains;
    assert Faithful(e, d);
    var x := e.mem0[Origin(e, d)].fields[i];
    assert FieldOk(e, x, e.mem[d].fields[i]);
    assert x in e.mem0 || Foreign(to, c.fr, x);
    NotACopy(c, e, to, x);
    FromIsInMemory(e);
    if x in e.from { assert Accounted(e, x); } else { PhiOfOutside(e, x); }
  }

  /** Chains are no longer in the memory of the collection than they were before it. */
  lemma {:induction false} ShortReturns(c: Turn, e: Evac<Hdr>, to: seq<Space>, y: Addr, f: nat)
    requires Moving(c, e, to) && Short(e, f, y)
    ensures Returns(e.mem, y, f)
    decreases f
  {
    hide Moving;
    if y in e.mem && e.mem[y].Obj? {
      OriginIsThere(c, e, to, y);
      forall i | 0 <= i < |e.mem[y].fields| ensures Returns(e.mem, e.mem[y].fields[i], f - 1) {
        FieldOrigin(c, e, to, y, i);
        ShortReturns(c, e, to, e.mem[y].fields[i], f - 1);
      }
    }
  }

  lemma OriginIsThere(c: Turn, e: Evac<Hdr>, to: seq<Space>, y: Addr)
    requires Moving(c, e, to) && y in e.mem && e.mem[y].Obj?
    ensures Origin(e, y) in e.mem0 && e.mem0[Origin(e, y)].Obj? && |e.mem0[Origin(e, y)].fields| == |e.mem[y].fields|
  {
    assert Faithful(e, y);
  }

  /** Where everything is white they are as long as they were. */
  lemma {:induction false} ReturnsWasShort(c: Turn, e: Evac<Hdr>, to: seq<Space>, y: Addr, f: nat)
    requires Moving(c, e, to) && WhiteFrom(e, y) && y !in e.from && Known(c, e, to, y) && Returns(e.mem, y, f)
    ensures Short(e, f, y)
    decreases f
  {
    hide Moving;
    if y in e.mem {
      OutsideIsWhole(c, e, to, y);
      OriginIsThere(c, e, to, y);
      forall i | 0 <= i < |e.mem[y].fields| ensures Returns(e.mem0, e.mem0[Origin(e, y)].fields[i], f - 1) {
        FieldOrigin(c, e, to, y, i);
        WhiteFromChild(e, y, i);
        ReturnsWasShort(c, e, to, e.mem[y].fields[i], f - 1);
      }
    } else {
      ForeignIsNowhere(c, e, to, y);
    }
  }

  lemma OutsideIsWhole(c: Turn, e: Evac<Hdr>, to: seq<Space>, y: Addr)
    requires Moving(c, e, to) && y in e.mem && y !in e.from
    ensures e.mem[y].Obj?
  {
    OutsideIsObject(e, y);
  }

  /** Forwarding the pointer x, with room for f nested visits, does not overrun the stack. */
  ghost predicate Plain(c: Turn, e: Evac<Hdr>, to: seq<Space>, f: nat, x: Addr) {
    x in e.from || Foreign(to, c.fr, x) || (x in e.mem && Short(e, f, x))
  }

  /**
   * Copies were made and left alone, and fields were redirected of d and of
   * objects that lead to short chains only.
   */
  ghost predicate Quiet(f: nat, e: Evac<Hdr>, e': Evac<Hdr>, d: Addr) {
    && (forall a :: a in e.mem && a != d && (a in e.from || !Short(e, f, a)) ==>
          a in e'.mem && (e'.mem[a] == e.mem[a] || (a in e.from && e'.mem[a].Fwd?)))
    && (forall n :: n in e'.mem && n !in e.mem ==> ExactCopy(f, e, e', n))
  }

  ghost predicate ExactCopy(f: nat, e: Evac<Hdr>, e': Evac<Hdr>, n: Addr) {
    && n in e'.src && e'.src[n] in e.from && e'.src[n] in e.mem && e.mem[e'.src[n]].Obj?
    && n in e'.mem && e'.mem[n].Obj? && (e'.mem[n].fields == e.mem[e'.src[n]].fields || Short(e', f, n))
  }

  /** What an object is a version of does not change. */
  lemma ShortStays(e: Evac<Hdr>, e': Evac<Hdr>, f: nat, a: Addr)
    requires Forwards(e) && Forwards(e') && a in e.mem && e'.mem0 == e.mem0
    requires forall n :: n in e.src ==> n in e'.src && e'.src[n] == e.src[n]
    ensures Short(e', f, a) == Short(e, f, a)
  {
  }

  lemma QuietTrans(f: nat, e: Evac<Hdr>, e1: Evac<Hdr>, e2: Evac<Hdr>, d: Addr)
    requires Quiet(f, e, e1, d) && Quiet(f, e1, e2, d) && d !in e.from && e1.from == e.from && d in e.mem
    requires Forwards(e) && Forwards(e1) && Forwards(e2) && e1.mem0 == e.mem0 && e2.mem0 == e.mem0
    requires e.mem.Keys <= e1.mem.Keys <= e2.mem.Keys
    requires forall n :: n in e.src ==> n in e1.src && e1.src[n] == e.src[n]
    requires forall n :: n in e1.src ==> n in e2.src && e2.src[n] == e1.src[n]
    requires forall n :: n in e2.src ==> n in e2.mem && e2.mem[n].Obj?
    ensures Quiet(f, e, e2, d)
  {
    FromIsInMemory(e);
    FromIsInMemory(e1);
    FromIsInMemory(e2);
    forall a | a in e.mem && a != d && (a in e.from || !Short(e, f, a))
      ensures a in e2.mem && (e2.mem[a] == e.mem[a] || (a in e.from && e2.mem[a].Fwd?))
    {
      ShortStays(e, e1, f, a);
    }
    forall n | n in e2.mem && n !in e.mem ensures ExactCopy(f, e, e2, n) {
      if n in e1.mem {
        assert ExactCopy(f, e, e1, n);
        CopyIsQuiet(f, e1, e2, n, d);
      } else {
        assert ExactCopy(f, e1, e2, n);
        assert e2.src[n] in e.mem;
      }
    }
  }

  lemma QuietTransIn(
      c: Turn, f: nat, e: Evac<Hdr>, to: seq<Space>, e1: Evac<Hdr>, to1: seq<Space>, e2: Evac<Hdr>, to2: seq<Space>,
      d: Addr)
    requires Moving(c, e, to) && Moving(c, e1, to1) && Moving(c, e2, to2) && Later(e, to, e1, to1)
    requires Later(e1, to1, e2, to2)
    requires Quiet(f, e, e1, d) && Quiet(f, e1, e2, d) && d in e.mem && d !in e.from
    ensures Quiet(f, e, e2, d)
  {
    hide Later, Quiet, Originals, Copies, InUse, Pointers, Spaces, OnlyLive;
    SrcStays(e, to, e1, to1);
    SrcStays(e1, to1, e2, to2);
    forall n | n in e2.src ensures n in e2.mem && e2.mem[n].Obj? { FromIsInMemory(e2); OutsideIsObject(e2, n); }
    forall a | a in e.mem ensures a in e1.mem { KeysStay(c, e, to, e1, to1, a); }
    forall a | a in e1.mem ensures a in e2.mem { KeysStay(c, e1, to1, e2, to2, a); }
    QuietTrans(f, e, e1, e2, d);
  }

  /** A copy, once made, is left alone unless it leads to short chains only. */
  lemma CopyIsQuiet(f: nat, e: Evac<Hdr>, e': Evac<Hdr>, n: Addr, d: Addr)
    requires Quiet(f, e, e', d) && n in e.src && n in e.mem && n != d && Forwards(e) && Forwards(e')
    requires e'.mem0 == e.mem0
    requires e.mem.Keys <= e'.mem.Keys && (forall n :: n in e.src ==> n in e'.src && e'.src[n] == e.src[n])
    requires n in e.mem && e.mem[n].Obj? && n !in e.from
    ensures (n in e'.mem && e'.mem[n] == e.mem[n]) || Short(e', f, n)
  {
    ShortStays(e, e', f, n);
  }

  lemma NothingIsQuiet(f: nat, e: Evac<Hdr>, d: Addr)
    ensures Quiet(f, e, e, d)
  {
  }

  lemma MoveIsQuiet(f: nat, e: Evac<Hdr>, x: Addr, n: Addr, d: Addr)
    requires x in e.from && x in e.mem && e.mem[x].Obj? && n !in e.mem
    ensures Quiet(f, e, CopyStep(e, x, n, Copy(e.mem[x])), d)
  {
  }

  /** A visit of an object x that leads to short chains only is quiet for everything else. */
  lemma DeeperIsQuiet(f: nat, e: Evac<Hdr>, e': Evac<Hdr>, x: Addr, d: Addr)
    requires 0 < f && Quiet(f - 1, e, e', x) && Short(e, f, x) && x !in e.from
    ensures Quiet(f, e, e', d)
  {
    forall a | a in e.mem && a != d && (a in e.from || !Short(e, f, a))
      ensures a in e'.mem && (e'.mem[a] == e.mem[a] || (a in e.from && e'.mem[a].Fwd?))
    {
      if Short(e, f - 1, a) { ReturnsMore(e.mem0, Origin(e, a), f - 1, f); }
    }
    forall n | n in e'.mem && n !in e.mem ensures ExactCopy(f, e, e', n) {
      assert ExactCopy(f - 1, e, e', n);
      if Short(e', f - 1, n) { ReturnsMore(e'.mem0, Origin(e', n), f - 1, f); }
    }
  }

  // ---------------------------------------------------------------------------
  // What the forwarding step needs to know about the pointer it meets
  // ---------------------------------------------------------------------------

  /**
   * A pointer found in an object outside from-space leads to an object or out of the heap; in from-
   * space it leads to a live object.
   */
  lemma FieldIsReady(c: Turn, e: Evac<Hdr>, to: seq<Space>, d: Addr, i: nat)
    requires Moving(c, e, to) && d in e.mem && d !in e.from && e.mem[d].Obj? && i < |e.mem[d].fields|
    ensures Known(c, e, to, e.mem[d].fields[i])
    ensures e.mem[d].fields[i] in e.from ==> Live(e.mem0, e.from, e.starts, e.mem[d].fields[i])
  {
    hide Originals, Copies, InUse, Live, Spaces, Contains;
    assert Faithful(e, d);
    var x := e.mem0[Origin(e, d)].fields[i];
    assert FieldOk(e, x, e.mem[d].fields[i]);
    if x in e.from { assert Accounted(e, x); } else { PhiOfOutside(e, x); }
    FromIsInMemory(e);
    if e.mem[d].fields[i] in e.from { FieldTargetIsLive(e, d, i); }
  }

  /** Null is not an object. */
  lemma NullIsForeign(c: Turn, e: Evac<Hdr>, to: seq<Space>)
    requires Moving(c, e, to)
    ensures NULL !in e.from && NULL !in e.mem && Foreign(to, c.fr, NULL)
  {
    hide Originals, Copies, InUse, Pointers, AllFaithful, OnlyLive;
    assert Foreign(to, c.fr, NULL);
    if NULL in e.mem { InToSpace(c, e, to, NULL); }
    FromIsInMemory(e);
  }

  lemma ForwardedMeans(c: Turn, e: Evac<Hdr>, to: seq<Space>, x: Addr)
    requires Moving(c, e, to) && x in e.mem && e.mem[x].Fwd?
    ensures x in e.from && e.mem[x].dest in e.src && e.src[e.mem[x].dest] == x
    ensures e.mem[x].dest in e.mem && e.mem[x].dest !in e.from && e.mem[e.mem[x].dest].Obj?
    ensures Phi(e.mem, x) == e.mem[x].dest
  {
    hide Originals, Copies, InUse, Pointers, Spaces;
    if x in e.from { assert Accounted(e, x); } else { OutsideIsObject(e, x); }
    FromIsInMemory(e);
    OutsideIsObject(e, e.mem[x].dest);
  }

  /** The object at d, which is not moved, after a step. */
  lemma ObjectStays(e: Evac<Hdr>, to: seq<Space>, e': Evac<Hdr>, to': seq<Space>, d: Addr)
    requires Later(e, to, e', to') && d in e.mem && d !in e.from && e.mem[d].Obj?
    ensures d in e'.mem && d !in e'.from && e'.mem[d].Obj? && |e'.mem[d].fields| == |e.mem[d].fields|
    ensures forall j :: 0 <= j < |e.mem[d].fields| ==> FieldStays(e.from, e.mem[d].fields[j], e'.mem[d].fields[j])
  {
    assert CellStays(e.from, d, e.mem[d], e'.mem);
  }

  lemma PlainStays(c: Turn, e: Evac<Hdr>, to: seq<Space>, e': Evac<Hdr>, to': seq<Space>, f: nat, x: Addr)
    requires Moving(c, e, to) && Moving(c, e', to') && Later(e, to, e', to') && Plain(c, e, to, f, x)
    ensures Plain(c, e', to', f, x)
  {
    hide Moving, Later, Foreign;
    SrcStays(e, to, e', to');
    ForeignStays(c, to, to', x);
    if x in e.mem {
      KeysStay(c, e, to, e', to', x);
      ShortStays(e, e', f, x);
    }
  }

  lemma KeysStay(c: Turn, e: Evac<Hdr>, to: seq<Space>, e': Evac<Hdr>, to': seq<Space>, x: Addr)
    requires Moving(c, e, to) && Moving(c, e', to') && Later(e, to, e', to') && x in e.mem
    ensures x in e'.mem && Forwards(e) && Forwards(e')
  {
    assert CellStays(e.from, x, e.mem[x], e'.mem);
  }

  /** The children of an object that leads to short chains only do, too. */
  lemma ShortIsPlain(c: Turn, e: Evac<Hdr>, to: seq<Space>, f: nat, d: Addr)
    requires Moving(c, e, to) && d in e.mem && e.mem[d].Obj? && Short(e, f, d)
    ensures 0 < f && CellPlain(c, e, to, f, d) && CellPlain(c, e, to, f - 1, d)
  {
    hide Moving, Foreign;
    OriginIsThere(c, e, to, d);
    forall i | 0 <= i < |e.mem[d].fields|
      ensures Plain(c, e, to, f, e.mem[d].fields[i]) && Plain(c, e, to, f - 1, e.mem[d].fields[i])
    {
      FieldOrigin(c, e, to, d, i);
      ReturnsMore(e.mem0, e.mem0[Origin(e, d)].fields[i], f - 1, f);
    }
  }

  /** A pointer outside from-space that does not overrun the stack leads to short chains, or to nothing. */
  lemma PlainIsShort(c: Turn, e: Evac<Hdr>, to: seq<Space>, f: nat, x: Addr)
    requires Moving(c, e, to) && Plain(c, e, to, f, x) && x in e.mem && x !in e.from
    ensures Short(e, f, x) && 0 < f && e.mem[x].Obj? && CellPlain(c, e, to, f - 1, x)
  {
    hide Moving, CellPlain, Foreign;
    if Foreign(to, c.fr, x) { ForeignIsNowhere(c, e, to, x); }
    OutsideIsWhole(c, e, to, x);
    ShortIsPlain(c, e, to, f, x);
  }

  /** What a visit of x, deeper down, does to d. */
  lemma AfterDeeper(c: Turn, f: nat, e: Evac<Hdr>, to: seq<Space>, e': Evac<Hdr>, to': seq<Space>, x: Addr, d: Addr)
    requires Moving(c, e, to) && Moving(c, e', to') && Later(e, to, e', to') && 0 < f && Quiet(f - 1, e, e', x)
    requires Short(e, f, x) && x in e.mem && x !in e.from && d in e.mem && d !in e.from
    ensures Quiet(f, e, e', d) && (Short(e', f, d) || (d in e'.mem && e'.mem[d] == e.mem[d]))
  {
    hide Moving, Later, Short;
    DeeperIsQuiet(f, e, e', x, d);
    SrcStays(e, to, e', to');
    KeysStay(c, e, to, e', to', d);
    ShortStays(e, e', f, d);
    if Short(e, f - 1, d) { ShorterIsShort(e, f - 1, d); }
  }

  lemma ShorterIsShort(e: Evac<Hdr>, f: nat, d: Addr)
    requires Short(e, f, d)
    ensures Short(e, f + 1, d)
  {
    ReturnsMore(e.mem0, Origin(e, d), f, f + 1);
  }

  /** Fields that have been dealt with stay so. */
  lemma FieldsStayReached(c: Turn, e: Evac<Hdr>, to: seq<Space>, e': Evac<Hdr>, to': seq<Space>, d: Addr, i: nat)
    requires Moving(c, e, to) && Moving(c, e', to') && Later(e, to, e', to') && d in e.mem && d !in e.from
    requires e.mem[d].Obj? && i <= |e.mem[d].fields|
    requires forall j :: 0 <= j < i ==> Reached(e, e.mem[d].fields[j])
    ensures d in e'.mem && e'.mem[d].Obj? && |e'.mem[d].fields| == |e.mem[d].fields|
    ensures forall j :: 0 <= j < i ==> Reached(e', e'.mem[d].fields[j])
  {
    hide Moving, Later, Scanned;
    ObjectStays(e, to, e', to', d);
    forall j | 0 <= j < i ensures Reached(e', e'.mem[d].fields[j]) {
      FieldOrigin(c, e, to, d, j);
      ReachedStays(c, e, to, e', to', e.mem[d].fields[j]);
    }
  }

  /** Visiting one more field of d leaves the others as they were, or in order anyway. */
  lemma RestIsPlain(c: Turn, e: Evac<Hdr>, to: seq<Space>, e': Evac<Hdr>, to': seq<Space>, f: nat, d: Addr, i: nat)
    requires Moving(c, e, to) && Moving(c, e', to') && Later(e, to, e', to')
    requires d in e.mem && e.mem[d].Obj? && d in e'.mem && e'.mem[d].Obj? && |e'.mem[d].fields| == |e.mem[d].fields|
    requires Short(e', f, d) || forall j :: 0 <= j < |e.mem[d].fields| && j != i ==>
      e'.mem[d].fields[j] == e.mem[d].fields[j]
    requires forall j :: i <= j < |e.mem[d].fields| ==> Plain(c, e, to, f, e.mem[d].fields[j])
    ensures forall j :: i + 1 <= j < |e'.mem[d].fields| ==> Plain(c, e', to', f, e'.mem[d].fields[j])
  {
    hide Plain, Later, Moving, Short;
    if Short(e', f, d) {
      ShortIsPlain(c, e', to', f, d);
    } else {
      forall j | i + 1 <= j < |e'.mem[d].fields| ensures Plain(c, e', to', f, e'.mem[d].fields[j]) {
        PlainStays(c, e, to, e', to', f, e.mem[d].fields[j]);
      }
    }
  }

  lemma SrcStays(e: Evac<Hdr>, to: seq<Space>, e': Evac<Hdr>, to': seq<Space>)
    requires Later(e, to, e', to')
    ensures e'.from == e.from && e'.mem0 == e.mem0 && e'.starts == e.starts
    ensures forall n :: n in e.src ==> n in e'.src && e'.src[n] == e.src[n]
    ensures Grown(to, to')
  {
  }

  lemma QuietFix(f: nat, e: Evac<Hdr>, e1: Evac<Hdr>, e2: Evac<Hdr>, d: Addr)
    requires Quiet(f, e, e1, d) && d in e.mem && d in e1.mem && e2.src == e1.src && e2.mem0 == e1.mem0
    requires e2.mem.Keys == e1.mem.Keys && forall a :: a in e1.mem && a != d ==> e2.mem[a] == e1.mem[a]
    ensures Quiet(f, e, e2, d)
  {
    forall n | n in e2.mem && n !in e.mem ensures ExactCopy(f, e, e2, n) { assert ExactCopy(f, e, e1, n); }
  }

  lemma MemoryOf(c: Turn, e: Evac<Hdr>, to: seq<Space>)
    requires Moving(c, e, to)
    ensures e.from <= e.mem0.Keys <= e.mem.Keys && e.src.Keys <= e.mem.Keys
  {
    FromIsInMemory(e);
  }

  // ---------------------------------------------------------------------------
  // Collections that never overrun the stack
  // ---------------------------------------------------------------------------

  ghost predicate CellPlain(c: Turn, e: Evac<Hdr>, to: seq<Space>, f: nat, d: Addr) {
    d in e.mem && e.mem[d].Obj? && forall i :: 0 <= i < |e.mem[d].fields| ==> Plain(c, e, to, f, e.mem[d].fields[i])
  }

  /** Whatever may still be moved can be scanned without overrunning the stack. */
  ghost predicate Calm(c: Turn, e: Evac<Hdr>, to: seq<Space>, f: nat) {
    forall a :: a in e.from && a in e.mem && e.mem[a].Obj? && Live(e.mem0, e.from, e.starts, a) ==>
      CellPlain(c, e, to, f, a)
  }

  /** And so can the gray copies. */
  ghost predicate Pristine(c: Turn, e: Evac<Hdr>, to: seq<Space>, f: nat, gray: seq<nat>)
    requires |gray| == |to|
  {
    && Calm(c, e, to, f)
    && forall g, j :: 0 <= g < |to| && gray[g] <= j < |to[g].objs| ==> CellPlain(c, e, to, f, to[g].objs[j])
  }

  lemma CellPlainStays(c: Turn, e: Evac<Hdr>, to: seq<Space>, e': Evac<Hdr>, to': seq<Space>, f: nat, d: Addr, d': Addr)
    requires Moving(c, e, to) && Moving(c, e', to') && Later(e, to, e', to') && CellPlain(c, e, to, f, d)
    requires d' in e'.mem && e'.mem[d'].Obj? && e'.mem[d'].fields == e.mem[d].fields
    ensures CellPlain(c, e', to', f, d')
  {
    hide Plain, Later, Moving;
    forall i | 0 <= i < |e.mem[d].fields| ensures Plain(c, e', to', f, e.mem[d].fields[i]) {
      PlainStays(c, e, to, e', to', f, e.mem[d].fields[i]);
    }
  }

  lemma CopyIsLive(c: Turn, e: Evac<Hdr>, to: seq<Space>, n: Addr)
    requires Moving(c, e, to) && n in e.src
    ensures Live(e.mem0, e.from, e.starts, e.src[n])
  {
  }

  lemma NewIsPlain(c: Turn, e: Evac<Hdr>, to: seq<Space>, e': Evac<Hdr>, to': seq<Space>, f: nat, n: Addr)
    requires Moving(c, e, to) && Moving(c, e', to') && Later(e, to, e', to') && Calm(c, e, to, f)
    requires ExactCopy(f, e, e', n)
    ensures CellPlain(c, e', to', f, n)
  {
    SrcStays(e, to, e', to');
    CopyIsLive(c, e', to', n);
    hide Plain, Later, Moving, Short, Live;
    if Short(e', f, n) {
      ShortIsPlain(c, e', to', f, n);
    } else {
      CellPlainStays(c, e, to, e', to', f, e'.src[n], n);
    }
  }

  /** An address occurs once in the spaces. */
  lemma OneHome(c: Turn, to: seq<Space>, g: nat, i: nat, h: nat, j: nat)
    requires Spaces(c, to) && g < |to| && h < |to| && i < |to[g].objs| && j < |to[h].objs|
    requires to[g].objs[i] == to[h].objs[j]
    ensures g == h && i == j
  {
    assert to[g].Ok() && to[h].Ok();
    assert g < h ==> Disj(to[g], to[h]);
  }

  /** Scanning an object whose chains are short keeps a collection from overrunning the stack. */
  lemma VisitKeepsPristine(
      c: Turn, e: Evac<Hdr>, to: seq<Space>, e': Evac<Hdr>, to': seq<Space>, f: nat, gray: seq<nat>, d: Addr,
      gray': seq<nat>)
    requires Moving(c, e, to) && Moving(c, e', to') && Later(e, to, e', to') && Quiet(f, e, e', d) && d !in e.from
    requires |gray| == |to| && |gray'| == |to'| && Pristine(c, e, to, f, gray)
    requires forall g :: 0 <= g < |to| ==> gray[g] <= gray'[g]
    requires forall g, j :: 0 <= g < |to'| && gray'[g] <= j < |to'[g].objs| ==> to'[g].objs[j] != d
    ensures Pristine(c, e', to', f, gray')
  {
    hide Moving, CellPlain, Later, Short, Calm;
    SrcStays(e, to, e', to');
    forall g, j | 0 <= g < |to'| && gray'[g] <= j < |to'[g].objs| ensures CellPlain(c, e', to', f, to'[g].objs[j]) {
      var a := to'[g].objs[j];
      GrayObject(c, e', to', g, j);
      if a in e.mem {
        HomeStays(c, e, to, e', to', g, j);
        GrayStaysPlain(c, e, to, e', to', f, d, a);
      } else {
        NewIsPlain(c, e, to, e', to', f, a);
      }
    }
    hide Quiet;
    CalmStays(c, e, to, e', to', f, d);
  }

  lemma GrayStaysPlain(c: Turn, e: Evac<Hdr>, to: seq<Space>, e': Evac<Hdr>, to': seq<Space>, f: nat, d: Addr, a: Addr)
    requires Moving(c, e, to) && Moving(c, e', to') && Later(e, to, e', to') && Quiet(f, e, e', d)
    requires a in e.mem && a != d && CellPlain(c, e, to, f, a) && a in e'.mem && e'.mem[a].Obj?
    ensures CellPlain(c, e', to', f, a)
  {
    hide Moving, Plain, Later, Short;
    if Short(e, f, a) {
      SrcStays(e, to, e', to');
      KeysStay(c, e, to, e', to', a);
      ShortStays(e, e', f, a);
      ShortIsPlain(c, e', to', f, a);
    } else {
      CellPlainStays(c, e, to, e', to', f, a, a);
    }
  }

  lemma CalmStays(c: Turn, e: Evac<Hdr>, to: seq<Space>, e': Evac<Hdr>, to': seq<Space>, f: nat, d: Addr)
    requires Moving(c, e, to) && Moving(c, e', to') && Later(e, to, e', to') && Calm(c, e, to, f) && Quiet(f, e, e', d)
    requires d !in e.from
    ensures Calm(c, e', to', f)
  {
    SrcStays(e, to, e', to');
    MemoryOf(c, e, to);
    hide Moving, CellPlain, Short, Live;
    forall a | a in e'.from && a in e'.mem && e'.mem[a].Obj? && Live(e'.mem0, e'.from, e'.starts, a)
      ensures CellPlain(c, e', to', f, a)
    {
      assert CellStays(e.from, a, e.mem[a], e'.mem);
      GrayStaysPlain(c, e, to, e', to', f, d, a);
    }
  }

  /** An object that was there before is where it was. */
  lemma HomeStays(c: Turn, e: Evac<Hdr>, to: seq<Space>, e': Evac<Hdr>, to': seq<Space>, g: nat, j: nat)
    requires Moving(c, e, to) && Moving(c, e', to') && Later(e, to, e', to')
    requires g < |to'| && j < |to'[g].objs| && to'[g].objs[j] in e.mem
    ensures |to'| == |to| && j < |to[g].objs| && to[g].objs[j] == to'[g].objs[j]
  {
    hide Inv, Pointers, InUse;
    SrcStays(e, to, e', to');
    ForwardsOf(e);
    var a := to'[g].objs[j];
    assert to'[g].Ok() && to'[g].Holds(a);
    assert to[g].Holds(a);
    hide Moving, Spaces;
    InToSpace(c, e, to, a);
    var k :| 0 <= k < |to[g].objs| && to[g].objs[k] == a;
    assert to'[g].objs[k] == a;
    OneHomeIn(c, e', to', g, j, g, k);
  }

  // ---------------------------------------------------------------------------
  // One step of the scan
  // ---------------------------------------------------------------------------

  /** The object at a gray pointer is a whole object outside from-space. */
  lemma GrayObject(c: Turn, e: Evac<Hdr>, to: seq<Space>, g: nat, j: nat)
    requires Moving(c, e, to) && g < |to| && j < |to[g].objs|
    ensures to[g].objs[j] in e.mem && to[g].objs[j] !in e.from && e.mem[to[g].objs[j]].Obj?
  {
    hide Inv, Originals, Copies, Pointers, Age2Gen, Spaces;
    assert to[g].objs[j] in to[g].objs;
  }

  lemma ScanStep(c: Turn, e: Evac<Hdr>, to: seq<Space>, e': Evac<Hdr>, to': seq<Space>, gray: seq<nat>, g: nat)
    requires Moving(c, e, to) && Moving(c, e', to') && Later(e, to, e', to') && WhiteBelow(e, to, gray)
    requires g < |to| && gray[g] < |to[g].objs| && Scanned(e', to[g].objs[gray[g]])
    ensures WhiteBelow(e', to', gray[g := gray[g] + 1])
  {
    hide Moving, Later, Scanned, WhiteBelow;
    SrcStays(e, to, e', to');
    WhiteStaysIn(c, e, to, e', to', gray);
    OneMoreIsWhite(e', to', gray, g);
  }

  lemma OneMoreIsWhite(e: Evac<Hdr>, to: seq<Space>, gray: seq<nat>, g: nat)
    requires WhiteBelow(e, to, gray) && g < |to| && gray[g] < |to[g].objs| && Scanned(e, to[g].objs[gray[g]])
    ensures WhiteBelow(e, to, gray[g := gray[g] + 1])
  {
    hide Scanned;
  }

  lemma ScanStepPristine(
      c: Turn, e: Evac<Hdr>, to: seq<Space>, e': Evac<Hdr>, to': seq<Space>, f: nat, gray: seq<nat>, g: nat)
    requires Moving(c, e, to) && Moving(c, e', to') && Later(e, to, e', to') && |gray| == |to|
    requires g < |to| && gray[g] < |to[g].objs| && Pristine(c, e, to, f, gray) && Quiet(f, e, e', to[g].objs[gray[g]])
    ensures |to'| == |to| && Pristine(c, e', to', f, gray[g := gray[g] + 1])
  {
    hide Moving, Pristine, Quiet, Later;
    SrcStays(e, to, e', to');
    GrayObject(c, e, to, g, gray[g]);
    var gray' := gray[g := gray[g] + 1];
    forall h, j | 0 <= h < |to'| && gray'[h] <= j < |to'[h].objs| ensures to'[h].objs[j] != to[g].objs[gray[g]] {
      if to'[h].objs[j] == to[g].objs[gray[g]] {
        assert to'[g].objs[gray[g]] == to[g].objs[gray[g]];
        OneHomeIn(c, e', to', g, gray[g], h, j);
      }
    }
    VisitKeepsPristine(c, e, to, e', to', f, gray, to[g].objs[gray[g]], gray');
  }

  lemma OneHomeIn(c: Turn, e: Evac<Hdr>, to: seq<Space>, g: nat, i: nat, h: nat, j: nat)
    requires Moving(c, e, to) && g < |to| && h < |to| && i < |to[g].objs| && j < |to[h].objs|
    requires to[g].objs[i] == to[h].objs[j]
    ensures g == h && i == j
  {
    hide Inv, Originals, Copies, InUse, Pointers, Spaces;
    OneHome(c, to, g, i, h, j);
  }

  lemma MarksFit(e: Evac<Hdr>, to: seq<Space>, gray: seq<nat>)
    requires WhiteBelow(e, to, gray)
    ensures |gray| == |to| && forall g :: 0 <= g < |to| ==> gray[g] <= |to[g].objs|
  {
  }

  lemma SizeIs(c: Turn, e: Evac<Hdr>, to: seq<Space>)
    requires Moving(c, e, to)
    ensures |to| == c.cfg.n && |c.fr| == c.cfg.n && c.upto <= c.cfg.n
  {
  }

  lemma GrayIsPlain(c: Turn, e: Evac<Hdr>, to: seq<Space>, f: nat, gray: seq<nat>, g: nat)
    requires |gray| == |to| && Pristine(c, e, to, f, gray) && g < |to| && gray[g] < |to[g].objs|
    ensures CellPlain(c, e, to, f, to[g].objs[gray[g]])
  {
  }

  lemma PristineIsCalm(c: Turn, e: Evac<Hdr>, to: seq<Space>, f: nat, gray: seq<nat>)
    requires |gray| == |to| && Pristine(c, e, to, f, gray)
    ensures Calm(c, e, to, f)
  {
  }

  /** A visit moves something, or leaves the spaces as they were. */
  lemma ScanShrinks(ep: Evac<Hdr>, tp: seq<Space>, e: Evac<Hdr>, to: seq<Space>, e': Evac<Hdr>, to': seq<Space>)
    requires Later(ep, tp, e, to) && Later(e, to, e', to')
    ensures Unmoved(e') <= Unmoved(e) <= Unmoved(ep) && |to'| == |to|
    ensures Unmoved(e') == Unmoved(e) ==> to' == to
    ensures Unmoved(e') == Unmoved(ep) ==> Unmoved(e) == Unmoved(ep)
  {
    LaterShrinks(ep, tp, e, to);
    LaterShrinks(e, to, e', to');
  }

  /** After an object has been moved, and nothing scanned yet. */
  lemma MovedOne(c: Turn, e: Evac<Hdr>, to: seq<Space>, e': Evac<Hdr>, to': seq<Space>)
    requires Moving(c, e, to) && Moving(c, e', to') && Later(e, to, e', to') && White(e)
    ensures WhiteBelow(e', to', Marks(to))
  {
    hide Moving, Later, Scanned, WhiteBelow, White;
    ScanBegins(e, to);
    WhiteStaysIn(c, e, to, e', to', Marks(to));
  }

  lemma MovedOnePristine(c: Turn, e: Evac<Hdr>, to: seq<Space>, e': Evac<Hdr>, to': seq<Space>, f: nat, d: Addr)
    requires Moving(c, e, to) && Moving(c, e', to') && Later(e, to, e', to') && Quiet(f, e, e', d) && Calm(c, e, to, f)
    requires d !in e.from && (d in e.mem || Foreign(to, c.fr, d))
    ensures |to'| == |to| && Pristine(c, e', to', f, Marks(to))
  {
    hide Moving, Quiet, Later, Calm;
    SrcStays(e, to, e', to');
    forall g, j | 0 <= g < |to'| && Marks(to)[g] <= j < |to'[g].objs| ensures to'[g].objs[j] != d {
      GrayObject(c, e', to', g, j);
      if d in e.mem && to'[g].objs[j] == d {
        HomeStays(c, e, to, e', to', g, j);
      } else if to'[g].objs[j] == d {
        ForeignStays(c, to, to', d);
        ForeignIsNowhere(c, e', to', d);
      }
    }
    MarksArePristine(c, e, to, f);
    VisitKeepsPristine(c, e, to, e', to', f, Marks(to), d, Marks(to));
  }

  lemma MarksArePristine(c: Turn, e: Evac<Hdr>, to: seq<Space>, f: nat)
    requires Calm(c, e, to, f)
    ensures Pristine(c, e, to, f, Marks(to))
  {
    hide Calm;
  }

  /** What a start pointer may be. */
  lemma StartIsReady(c: Turn, e: Evac<Hdr>, to: seq<Space>, s: Addr)
    requires Moving(c, e, to) && s in e.starts
    ensures Known(c, e, to, s) && Known(c, e, to, Phi(e.mem, s)) && (s in e.from ==> Live(e.mem0, e.from, e.starts, s))
    ensures forall f :: e.from == e.mem0.Keys ==> Plain(c, e, to, f, s)
  {
    hide Originals, Copies, InUse, Live, Spaces, Contains;
    FromIsInMemory(e);
    if s in e.from {
      assert Accounted(e, s);
      StartIsLive(e.mem0, e.from, e.starts, s);
    } else {
      PhiOfOutside(e, s);
    }
  }

  /** What a root slot holds when its turn comes, and whether it can overrun the stack. */
  lemma RootIsReady(c: Turn, e0: Evac<Hdr>, to0: seq<Space>, e: Evac<Hdr>, to: seq<Space>, x0: Addr, x: Addr, f: nat)
    requires Moving(c, e0, to0) && Moving(c, e, to) && Later(e0, to0, e, to) && x0 in e.starts
    requires x == x0 || (x == Phi(e.mem, x0) && x !in e.from)
    ensures Known(c, e, to, x) && Origin(e, x) == x0 && (Short(e0, f + 1, x0) <==> Returns(e.mem0, x0, f + 1))
    ensures (if x == x0 then Plain(c, e0, to0, f + 1, x0) else Short(e0, f + 1, x0)) ==> Plain(c, e, to, f + 1, x)
    ensures (x !in e.from && WhiteFrom(e, x) && Returns(e.mem, x, f + 1)) ==> Returns(e.mem0, x0, f + 1)
  {
    SrcStays(e0, to0, e, to);
    StartIsReady(c, e, to, x0);
    StartIsThere(c, e0, to0, x0);
    StartIsThere(c, e, to, x0);
    hide Moving, Later, Plain, WhiteFrom, Foreign;
    if x == x0 {
      if Plain(c, e0, to0, f + 1, x0) { PlainStays(c, e0, to0, e, to, f + 1, x0); }
    } else {
      assert Plain(c, e, to, f + 1, x) <== Short(e0, f + 1, x0) by { MovedIsPlain(c, e, to, f + 1, x0); }
    }
    if x !in e.from && WhiteFrom(e, x) && Returns(e.mem, x, f + 1) { ReturnsWasShort(c, e, to, x, f + 1); }
  }

  lemma StartIsThere(c: Turn, e: Evac<Hdr>, to: seq<Space>, s: Addr)
    requires Moving(c, e, to) && s in e.starts
    ensures s !in e.src && (s in e.mem0 || Foreign(to, c.fr, s))
  {
    hide Originals, Copies, InUse, Inv, Spaces, Foreign;
    NotACopy(c, e, to, s);
  }

  /** Where a start pointer has moved. */
  lemma MovedIsPlain(c: Turn, e: Evac<Hdr>, to: seq<Space>, f: nat, s: Addr)
    requires Moving(c, e, to) && s in e.starts && Phi(e.mem, s) != s
    ensures Origin(e, Phi(e.mem, s)) == s && (Returns(e.mem0, s, f) ==> Plain(c, e, to, f, Phi(e.mem, s)))
  {
    hide Moving;
    ForwardedMeans(c, e, to, s);
  }

  lemma KnownStays(c: Turn, e: Evac<Hdr>, to: seq<Space>, e': Evac<Hdr>, to': seq<Space>, x: Addr)
    requires Moving(c, e, to) && Moving(c, e', to') && Later(e, to, e', to') && Known(c, e, to, x)
    ensures Known(c, e', to', x)
  {
    hide Moving, Later, Foreign;
    SrcStays(e, to, e', to');
    if x in e.mem { KeysStay(c, e, to, e', to', x); } else { ForeignStays(c, to, to', x); }
  }

  lemma StaysOutside(c: Turn, e: Evac<Hdr>, to: seq<Space>, x: Addr)
    requires Moving(c, e, to) && x !in e.from
    ensures Phi(e.mem, x) == x
  {
    PhiOfOutside(e, x);
  }

  /** Where a start pointer led, once out of from-space, is where it leads ever after. */
  lemma ResultStays(c: Turn, e: Evac<Hdr>, to: seq<Space>, e': Evac<Hdr>, to': seq<Space>, x0: Addr, x: Addr)
    requires Moving(c, e, to) && Moving(c, e', to') && Later(e, to, e', to')
    requires (x == x0 || x == Phi(e.mem, x0)) && x !in e.from
    ensures Phi(e'.mem, x0) == x
  {
    hide Originals, Copies, InUse, Pointers, Spaces;
    if x == x0 { PhiOfOutside(e', x0); } else { PhiStays(e, to, e', to', x0); }
  }

  // ---------------------------------------------------------------------------
  // Generations by address
  // ---------------------------------------------------------------------------

  /** The generation whose space holds x, or the number of generations if there is none. */
  function GenerationOf(spaces: seq<Space>, x: Addr): (g: nat)
    ensures g <= |spaces| && (g < |spaces| ==> spaces[g].Holds(x))
    ensures g == |spaces| <==> !Contains(spaces, x)
    ensures forall h :: 0 <= h < g ==> !spaces[h].Holds(x)
  {
    FirstHolding(spaces, x, 0)
  }

  function FirstHolding(spaces: seq<Space>, x: Addr, from: nat): (g: nat)
    requires from <= |spaces| && forall h :: 0 <= h < from ==> !spaces[h].Holds(x)
    ensures g <= |spaces| && (g < |spaces| ==> spaces[g].Holds(x))
    ensures forall h :: 0 <= h < g ==> !spaces[h].Holds(x)
    decreases |spaces| - from
  {
    if from == |spaces| || spaces[from].Holds(x) then from else FirstHolding(spaces, x, from + 1)
  }

  /** Age and address tell the same generation. */
  lemma GenerationByAge(c: Turn, e: Evac<Hdr>, to: seq<Space>, x: Addr)
    requires Moving(c, e, to) && x in e.mem
    ensures x !in e.from ==> e.mem[x].Obj? && GenerationOf(to, x) == Age2Gen(c.cfg, e.mem[x].hdr.age)
    ensures x in e.from ==> GenerationOf(to, x) == c.cfg.n
  {
    hide Originals, Copies, Pointers, AllFaithful, OnlyLive, Age2Gen, Contains, GenerationOf;
    SizeOf(c, to);
    InToSpace(c, e, to, x);
    if x !in e.from { OutsideIsObject(e, x); }
  }

  /** A promotion never takes an object down. */
  lemma GenRises(c: Turn, e: Evac<Hdr>, to: seq<Space>, x: Addr)
    requires Moving(c, e, to) && x in e.mem0
    ensures e.mem0[x].Obj? && Phi(e.mem, x) in e.mem && e.mem[Phi(e.mem, x)].Obj?
    ensures Age2Gen(c.cfg, e.mem0[x].hdr.age) <= Age2Gen(c.cfg, e.mem[Phi(e.mem, x)].hdr.age)
  {
    hide InUse, Pointers, Age2Gen, AllFaithful, OnlyLive, Apart, AllOk;
    FromIsInMemory(e);
    GenSteps(c.cfg, e.mem0[x].hdr.age);
    if x in e.from {
      assert Accounted(e, x);
    } else {
      OutsideIsObject(e, x);
    }
  }

  lemma InvOf(c: Turn, e: Evac<Hdr>, to: seq<Space>)
    requires Moving(c, e, to)
    ensures Inv(e)
  {
  }
}
