/**
 * The theory of copying evacuation: what moving objects one at a time out of
 * from-space, leaving forwarding pointers behind, does to a heap of objects.
 *
 * Nothing here depends on how many generations there are or where a copy is
 * placed; both collectors are proved against this module.
 */
module Evacuation {

  /** A machine address. Address 0 is the null pointer. */
  type Addr = nat

  const NULL: Addr := 0

  /**
   * What memory holds at the start of an allocation: an object with its header
   * (whatever the allocator keeps besides the reference fields), or the
   * forwarding pointer that overwrote a moved object.
   */
  datatype Cell<+H> = Obj(hdr: H, fields: seq<Addr>) | Fwd(dest: Addr)

  type Mem<+H> = map<Addr, Cell<H>>

  /**
   * A collection in progress.
   *   mem0    memory when the collection started
   *   mem     memory now
   *   from    the objects subject to evacuation
   *   starts  every pointer the collection must preserve
   *   src     for each copy made so far, the object it was copied from
   */
  datatype Evac<+H> = Evac(mem0: Mem<H>, mem: Mem<H>, from: set<Addr>, starts: set<Addr>, src: map<Addr, Addr>)

  /** Where a pointer to x should point now: through the forwarding pointer if x has moved. */
  function Phi<H>(mem: Mem<H>, x: Addr): Addr {
    if x in mem && mem[x].Fwd? then mem[x].dest else x
  }

  /** Pointers held by the objects that do not move. */
  function OldFields<H>(mem: Mem<H>, from: set<Addr>): set<Addr> {
    set a, i | a in mem && a !in from && mem[a].Obj? && 0 <= i < |mem[a].fields| :: mem[a].fields[i]
  }

  /** Memory without the objects of from: a reference into it leads nowhere. */
  function Without<H>(mem: Mem<H>, from: set<Addr>): Mem<H> {
    map a | a in mem && a !in from :: mem[a]
  }

  /** The objects that are left: everything outside from-space. */
  function Remaining<H>(e: Evac<H>): Mem<H> {
    map a | a in e.mem && a !in e.from :: e.mem[a]
  }

  /** Memory after a store of x to field i of p. */
  function Assigned<H>(mem: Mem<H>, p: Addr, i: nat, x: Addr): Mem<H>
    requires p in mem && mem[p].Obj? && i < |mem[p].fields|
  {
    mem[p := mem[p].(fields := mem[p].fields[i := x])]
  }

  /** The object that d is the current version of. */
  function Origin<H>(e: Evac<H>, d: Addr): Addr {
    if d in e.src then e.src[d] else d
  }

  predicate Copied<H>(e: Evac<H>, a: Addr) {
    a in e.from && a in e.mem && e.mem[a].Fwd?
  }

  // ---------------------------------------------------------------------------
  // Reachability
  // ---------------------------------------------------------------------------

  /** p is a chain of references that stays inside from-space. */
  ghost predicate IsPath<H>(mem: Mem<H>, from: set<Addr>, p: seq<Addr>) {
    && 0 < |p|
    && (forall i :: 0 <= i < |p| ==> p[i] in from && p[i] in mem && mem[p[i]].Obj?)
    && (forall i :: 0 < i < |p| ==> p[i] in mem[p[i - 1]].fields)
  }

  ghost predicate ReachesVia<H>(mem: Mem<H>, from: set<Addr>, starts: set<Addr>, p: seq<Addr>, a: Addr) {
    IsPath(mem, from, p) && p[0] in starts && p[|p| - 1] == a
  }

  /** a is a from-space object that some start pointer leads to. */
  ghost predicate Live<H>(mem: Mem<H>, from: set<Addr>, starts: set<Addr>, a: Addr) {
    exists p: seq<Addr> :: ReachesVia(mem, from, starts, p, a)
  }

  lemma StartIsLive<H>(mem: Mem<H>, from: set<Addr>, starts: set<Addr>, a: Addr)
    requires a in starts && a in from && a in mem && mem[a].Obj?
    ensures Live(mem, from, starts, a)
  {
    assert ReachesVia(mem, from, starts, [a], a);
  }

  lemma ChildIsLive<H>(mem: Mem<H>, from: set<Addr>, starts: set<Addr>, a: Addr, c: Addr)
    requires Live(mem, from, starts, a)
    requires a in mem && mem[a].Obj? && c in mem[a].fields
    requires c in from && c in mem && mem[c].Obj?
    ensures Live(mem, from, starts, c)
  {
    var p: seq<Addr> :| ReachesVia(mem, from, starts, p, a);
    assert ReachesVia(mem, from, starts, p + [c], c);
  }

  /** A set that holds the start pointers and is closed under references holds every live object. */
  lemma {:induction false} ClosedSetHoldsPath<H>(
      mem: Mem<H>, from: set<Addr>, starts: set<Addr>, S: set<Addr>, p: seq<Addr>, a: Addr)
    requires ReachesVia(mem, from, starts, p, a)
    requires forall s :: s in starts && s in from ==> s in S
    requires forall x, c :: x in S && x in from && x in mem && mem[x].Obj? && c in mem[x].fields && c in from ==> c in S
    ensures a in S
    decreases |p|
  {
    if |p| > 1 {
      var q := p[..|p| - 1];
      ClosedSetHoldsPath(mem, from, starts, S, q, q[|q| - 1]);
    }
  }

  // ---------------------------------------------------------------------------
  // The evacuation invariant
  // ---------------------------------------------------------------------------

  /** A field holds its original pointer, or that pointer's new home. */
  predicate FieldOk<H>(e: Evac<H>, original: Addr, current: Addr) {
    current == original || (current == Phi(e.mem, original) && current !in e.from)
  }

  /** The object at d is a version of its origin. */
  ghost predicate Faithful<H>(e: Evac<H>, d: Addr) {
    && d in e.mem && e.mem[d].Obj?
    && Origin(e, d) in e.mem0 && e.mem0[Origin(e, d)].Obj?
    && |e.mem[d].fields| == |e.mem0[Origin(e, d)].fields|
    && forall i :: 0 <= i < |e.mem[d].fields| ==> FieldOk(e, e.mem0[Origin(e, d)].fields[i], e.mem[d].fields[i])
  }

  /** What is true of every from-space object at any moment: still there, or forwarded to its copy. */
  ghost predicate Accounted<H>(e: Evac<H>, a: Addr) {
    && a in e.mem0 && e.mem0[a].Obj? && a in e.mem
    && match e.mem[a]
       case Obj(hdr, _) => hdr == e.mem0[a].hdr
       case Fwd(dest) => dest in e.src && e.src[dest] == a
  }

  ghost predicate Forwards<H>(e: Evac<H>) {
    && e.mem.Keys == e.mem0.Keys + e.src.Keys
    && e.src.Keys !! e.mem0.Keys
    && e.from <= e.mem0.Keys
    && (forall a :: a in e.from ==> Accounted(e, a))
    && (forall d :: d in e.src ==> e.src[d] in e.from && e.mem[e.src[d]] == Fwd(d))
  }

  /** Objects outside from-space, and those in it that have not moved, are versions of their origins. */
  ghost predicate AllFaithful<H>(e: Evac<H>) {
    forall d :: d in e.mem && (d !in e.from || e.mem[d].Obj?) ==> Faithful(e, d)
  }

  ghost predicate OnlyLive<H>(e: Evac<H>) {
    && (forall d :: d in e.src ==> Live(e.mem0, e.from, e.starts, e.src[d]))
    && (forall t, i :: t in e.mem0 && t !in e.from && e.mem0[t].Obj? && 0 <= i < |e.mem0[t].fields|
          ==> e.mem0[t].fields[i] in e.starts)
  }

  ghost predicate Inv<H>(e: Evac<H>) {
    Forwards(e) && AllFaithful(e) && OnlyLive(e)
  }

  /** Nothing in d points into from-space: in the colours of the collector, d is white. */
  predicate Clean<H>(e: Evac<H>, d: Addr) {
    d in e.mem && e.mem[d].Obj? && forall i :: 0 <= i < |e.mem[d].fields| ==> e.mem[d].fields[i] !in e.from
  }

  /** From e to e', no object outside from-space changed and no forwarding pointer was lost. */
  ghost predicate Extends<H>(e: Evac<H>, e': Evac<H>) {
    && e'.mem0 == e.mem0 && e'.from == e.from && e'.starts == e.starts
    && e.mem.Keys <= e'.mem.Keys
    && (forall d :: d in e.mem && d !in e.from ==> e'.mem[d] == e.mem[d])
    && (forall a :: a in e.mem && e.mem[a].Fwd? ==> e'.mem[a] == e.mem[a])
    && (forall d :: d in e.src ==> d in e'.src && e'.src[d] == e.src[d])
  }

  /** As Extends, but object x may have had fields replaced. */
  ghost predicate ExtendsBut<H>(e: Evac<H>, e': Evac<H>, x: Addr) {
    && e'.mem0 == e.mem0 && e'.from == e.from && e'.starts == e.starts
    && e.mem.Keys <= e'.mem.Keys
    && (forall d :: d in e.mem && d !in e.from && d != x ==> e'.mem[d] == e.mem[d])
    && (forall a :: a in e.mem && e.mem[a].Fwd? ==> e'.mem[a] == e.mem[a])
    && (forall d :: d in e.src ==> d in e'.src && e'.src[d] == e.src[d])
  }

  // ---------------------------------------------------------------------------
  // The start, and the two steps every phase is made of
  // ---------------------------------------------------------------------------

  lemma InvStart<H>(mem: Mem<H>, from: set<Addr>, starts: set<Addr>)
    requires from <= mem.Keys
    requires forall a :: a in mem ==> mem[a].Obj?
    requires forall t, i :: t in mem && t !in from && 0 <= i < |mem[t].fields| ==> mem[t].fields[i] in starts
    ensures Inv(Evac(mem, mem, from, starts, map[]))
  {
    var e := Evac(mem, mem, from, starts, map[]);
    forall d | d in e.mem ensures Faithful(e, d) {}
  }

  function CopyStep<H>(e: Evac<H>, x: Addr, d: Addr, copy: Cell<H>): Evac<H> {
    e.(mem := e.mem[d := copy][x := Fwd(d)], src := e.src[d := x])
  }

  lemma CopyKeepsFaithful<H>(e: Evac<H>, x: Addr, d: Addr, copy: Cell<H>, b: Addr)
    requires Forwards(e) && x in e.from && e.mem[x].Obj? && d !in e.mem && b != d && b != x
    requires Faithful(e, b)
    ensures Faithful(CopyStep(e, x, d, copy), b)
  {
    var e' := CopyStep(e, x, d, copy);
    var o := e.mem0[Origin(e, b)];
    forall i | 0 <= i < |e.mem[b].fields| ensures FieldOk(e', o.fields[i], e.mem[b].fields[i]) {
      assert FieldOk(e, o.fields[i], e.mem[b].fields[i]);
    }
  }

  lemma CopyKeepsForwards<H>(e: Evac<H>, x: Addr, d: Addr, copy: Cell<H>)
    requires Forwards(e) && x in e.from && e.mem[x].Obj? && d !in e.mem
    ensures Forwards(CopyStep(e, x, d, copy))
    ensures Extends(e, CopyStep(e, x, d, copy))
  {
    var e' := CopyStep(e, x, d, copy);
    forall a | a in e'.from ensures Accounted(e', a) {
      assert Accounted(e, a);
    }
    assert e'.mem.Keys == e'.mem0.Keys + e'.src.Keys;
  }

  /** Copying x to the unused address d and leaving a forwarding pointer keeps the invariant. */
  lemma CopyKeepsInv<H>(e: Evac<H>, x: Addr, d: Addr, copy: Cell<H>)
    requires Inv(e) && x in e.from && e.mem[x].Obj? && d !in e.mem
    requires copy.Obj? && copy.fields == e.mem[x].fields
    requires Live(e.mem0, e.from, e.starts, x)
    ensures Inv(CopyStep(e, x, d, copy))
    ensures Extends(e, CopyStep(e, x, d, copy))
  {
    var e' := CopyStep(e, x, d, copy);
    CopyKeepsForwards(e, x, d, copy);
    assert Accounted(e, x) && Faithful(e, x);
    forall b | b in e'.mem && (b !in e'.from || e'.mem[b].Obj?) ensures Faithful(e', b) {
      if b != d {
        CopyKeepsFaithful(e, x, d, copy, b);
      } else {
        forall i | 0 <= i < |copy.fields| ensures FieldOk(e', e.mem0[x].fields[i], copy.fields[i]) {
          assert FieldOk(e, e.mem0[x].fields[i], copy.fields[i]);
        }
      }
    }
  }

  function SetField<H>(e: Evac<H>, d: Addr, i: nat, v: Addr): Evac<H>
    requires d in e.mem && e.mem[d].Obj? && i < |e.mem[d].fields|
  {
    e.(mem := e.mem[d := e.mem[d].(fields := e.mem[d].fields[i := v])])
  }

  lemma FixKeepsForwards<H>(e: Evac<H>, d: Addr, i: nat, v: Addr)
    requires Forwards(e) && d in e.mem && e.mem[d].Obj? && i < |e.mem[d].fields|
    ensures Forwards(SetField(e, d, i, v))
    ensures ExtendsBut(e, SetField(e, d, i, v), d)
    ensures forall x :: Phi(SetField(e, d, i, v).mem, x) == Phi(e.mem, x)
  {
    var e' := SetField(e, d, i, v);
    forall a | a in e'.from ensures Accounted(e', a) {
      assert Accounted(e, a);
    }
    assert e'.mem.Keys == e.mem.Keys;
  }

  /** Redirecting one field of an object to its target's new home keeps the invariant. */
  lemma FixKeepsInv<H>(e: Evac<H>, d: Addr, i: nat)
    requires Inv(e) && d in e.mem && e.mem[d].Obj? && i < |e.mem[d].fields|
    requires Phi(e.mem, e.mem[d].fields[i]) !in e.from
    ensures Inv(SetField(e, d, i, Phi(e.mem, e.mem[d].fields[i])))
    ensures ExtendsBut(e, SetField(e, d, i, Phi(e.mem, e.mem[d].fields[i])), d)
  {
    var v := Phi(e.mem, e.mem[d].fields[i]);
    var e' := SetField(e, d, i, v);
    FixKeepsForwards(e, d, i, v);
    forall b | b in e'.mem && (b !in e'.from || e'.mem[b].Obj?) ensures Faithful(e', b) {
      FixKeepsFaithful(e, d, i, b);
    }
  }

  lemma FixKeepsFaithful<H>(e: Evac<H>, d: Addr, i: nat, b: Addr)
    requires Inv(e) && d in e.mem && e.mem[d].Obj? && i < |e.mem[d].fields|
    requires Phi(e.mem, e.mem[d].fields[i]) !in e.from
    requires b in e.mem && (b !in e.from || e.mem[b].Obj?)
    ensures Faithful(SetField(e, d, i, Phi(e.mem, e.mem[d].fields[i])), b)
  {
    var e' := SetField(e, d, i, Phi(e.mem, e.mem[d].fields[i]));
    FixKeepsForwards(e, d, i, Phi(e.mem, e.mem[d].fields[i]));
    assert Faithful(e, b);
    var o := e.mem0[Origin(e, b)];
    forall j | 0 <= j < |e'.mem[b].fields| ensures FieldOk(e', o.fields[j], e'.mem[b].fields[j]) {
      assert FieldOk(e, o.fields[j], e.mem[b].fields[j]);
      if b == d && j == i && e.mem[d].fields[i] !in e.from {
        PhiOfOutside(e, e.mem[d].fields[i]);
      }
    }
  }

  /** A pointer that is outside from-space is already where it should be. */
  lemma PhiOfOutside<H>(e: Evac<H>, x: Addr)
    requires Inv(e) && x !in e.from
    ensures Phi(e.mem, x) == x
  {
    if x in e.mem { assert Faithful(e, x); }
  }

  /** A pointer found in a live or old object that still points into from-space points to a live object. */
  lemma FieldTargetIsLive<H>(e: Evac<H>, d: Addr, i: nat)
    requires Inv(e) && d in e.mem && d !in e.from && e.mem[d].Obj? && i < |e.mem[d].fields|
    requires e.mem[d].fields[i] in e.from
    ensures Live(e.mem0, e.from, e.starts, e.mem[d].fields[i])
  {
    assert Faithful(e, d);
    var o := Origin(e, d);
    var x := e.mem[d].fields[i];
    assert FieldOk(e, e.mem0[o].fields[i], x);
    assert x == e.mem0[o].fields[i];
    assert Accounted(e, x);
    if d in e.src {
      ChildIsLive(e.mem0, e.from, e.starts, o, x);
    } else {
      StartIsLive(e.mem0, e.from, e.starts, x);
    }
  }

  lemma ExtendsIsReflexive<H>(e: Evac<H>)
    ensures Extends(e, e)
  {
  }

  lemma ExtendsTrans<H>(a: Evac<H>, b: Evac<H>, c: Evac<H>)
    requires Extends(a, b) && Extends(b, c)
    ensures Extends(a, c)
  {
  }

  // ---------------------------------------------------------------------------
  // Main results: what holds when no pointer into from-space is left
  // ---------------------------------------------------------------------------

  ghost predicate Finished<H>(e: Evac<H>) {
    && Inv(e)
    && (forall d :: d in e.mem && d !in e.from ==> Clean(e, d))
    && (forall s :: s in e.starts && s in e.from ==> Copied(e, s))
  }

  /** The objects that still exist afterwards: the old ones that never move, and the copied ones. */
  ghost predicate Survives<H>(e: Evac<H>, a: Addr) {
    a in e.mem0 && (a in e.from ==> Copied(e, a))
  }

  /** Forwarding renames objects consistently: every field of a survivor points to the renamed target. */
  lemma ForwardingIsHomomorphism<H>(e: Evac<H>, a: Addr, i: nat)
    requires Finished(e) && Survives(e, a) && e.mem0[a].Obj? && i < |e.mem0[a].fields|
    ensures var d := Phi(e.mem, a);
      && d in e.mem && d !in e.from && e.mem[d].Obj?
      && |e.mem[d].fields| == |e.mem0[a].fields|
      && e.mem[d].fields[i] == Phi(e.mem, e.mem0[a].fields[i])
      && e.mem[d].fields[i] !in e.from
  {
    var d := Phi(e.mem, a);
    if a in e.from {
      assert Accounted(e, a);
      assert e.src[d] == a;
    } else {
      PhiOfOutside(e, a);
    }
    assert Faithful(e, d) && Clean(e, d);
    var x := e.mem0[a].fields[i];
    assert FieldOk(e, x, e.mem[d].fields[i]);
    if e.mem[d].fields[i] == x { PhiOfOutside(e, x); }
  }

  /** Forwarding never merges two survivors, nor a survivor with anything outside the heap. */
  lemma ForwardingIsInjective<H>(e: Evac<H>, a: Addr, b: Addr)
    requires Inv(e) && Survives(e, a) && (b in e.mem0 ==> Survives(e, b)) && b !in e.src
    requires Phi(e.mem, a) == Phi(e.mem, b)
    ensures a == b
  {
    if a in e.from { assert Accounted(e, a); } else { PhiOfOutside(e, a); }
    if b in e.from { assert Accounted(e, b); } else { PhiOfOutside(e, b); }
  }

  /** Exactness: an object was copied if and only if it is live. */
  lemma CopiedIffLive<H>(e: Evac<H>, a: Addr)
    requires Finished(e) && a in e.from
    ensures Copied(e, a) <==> Live(e.mem0, e.from, e.starts, a)
  {
    assert Accounted(e, a);
    if Copied(e, a) {
      assert e.src[e.mem[a].dest] == a;
    }
    if Live(e.mem0, e.from, e.starts, a) {
      var p: seq<Addr> :| ReachesVia(e.mem0, e.from, e.starts, p, a);
      var S := set x | x in e.from && Copied(e, x);
      forall x, c | x in S && x in e.from && x in e.mem0 && e.mem0[x].Obj? && c in e.mem0[x].fields && c in e.from
        ensures c in S
      {
        var i: nat :| i < |e.mem0[x].fields| && e.mem0[x].fields[i] == c;
        ForwardingIsHomomorphism(e, x, i);
        assert Accounted(e, c);
      }
      ClosedSetHoldsPath(e.mem0, e.from, e.starts, S, p, a);
    }
  }

  // ---------------------------------------------------------------------------
  // Roots
  // ---------------------------------------------------------------------------

  function RootSet(vars: map<nat, Addr>, rootv: seq<nat>): set<Addr> {
    set r | r in rootv && r in vars :: vars[r]
  }

  /** What the variables rs hold. */
  function ReadAll(vars: map<nat, Addr>, rs: seq<nat>): seq<Addr>
    requires forall r :: r in rs ==> r in vars
  {
    seq(|rs|, i requires 0 <= i < |rs| => vars[rs[i]])
  }

  /** Variable r, if registered, was redirected to where its object is now; otherwise it was left alone. */
  predicate Redirection<H>(vars0: map<nat, Addr>, rootv: seq<nat>, e: Evac<H>, vars': map<nat, Addr>, r: nat) {
    && r in vars0 && r in vars'
    && if r in rootv then vars'[r] == Phi(e.mem, vars0[r]) && vars'[r] !in e.from else vars'[r] == vars0[r]
  }

  ghost predicate Redirected<H>(vars0: map<nat, Addr>, rootv: seq<nat>, e: Evac<H>, vars': map<nat, Addr>) {
    vars'.Keys == vars0.Keys && forall r :: r in vars' ==> Redirection(vars0, rootv, e, vars', r)
  }
}
