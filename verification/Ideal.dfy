/**
 * An ideal heap, in which nothing is ever moved or reclaimed, and what it means
 * for a collected heap to stand for it.
 */
module Ideals {
  import opened Evacuation

  // ---------------------------------------------------------------------------
  // The ideal heap
  // ---------------------------------------------------------------------------

  /**
   * A pointer as the application sees it: to the n-th object ever created, or to something the
   * collector does not own (address 0 is null).
   */
  datatype Value = Ref(id: nat) | Foreign(a: Addr)

  /** What kind of object it is, and what it refers to. */
  datatype IdealObject<+K> = IdealObject(looks: K, fields: seq<Value>)

  /** Objects are numbered in order of creation and stay for ever. */
  datatype Ideal<+K> = Ideal(objects: seq<IdealObject<K>>, vars: map<nat, Value>, roots: set<nat>)

  /** Variable s points to an object that has a field i. */
  predicate HasField<K>(d: Ideal<K>, s: nat, i: nat) {
    s in d.roots && s in d.vars && d.vars[s].Ref? && d.vars[s].id < |d.objects| && i < |d.objects[d.vars[s].id].fields|
  }

  // What the operations of an application mean. One that does not apply does nothing.

  /** r := a new object whose fields hold what the variables init hold. */
  function DoNew<K>(d: Ideal<K>, r: nat, looks: K, init: seq<nat>): Ideal<K> {
    if r in d.roots && forall v :: v in init ==> v in d.roots && v in d.vars then
      d.(objects := d.objects + [IdealObject(looks, ReadValues(d.vars, init))], vars := d.vars[r := Ref(|d.objects|)])
    else d
  }

  /** r := field i of what s points to. */
  function DoLoad<K>(d: Ideal<K>, r: nat, s: nat, i: nat): Ideal<K> {
    if r in d.roots && HasField(d, s, i) then d.(vars := d.vars[r := d.objects[d.vars[s].id].fields[i]]) else d
  }

  /** Field i of what s points to := r. */
  function DoStore<K>(d: Ideal<K>, s: nat, i: nat, r: nat): Ideal<K> {
    if HasField(d, s, i) && r in d.roots && r in d.vars then
      var o := d.objects[d.vars[s].id];
      d.(objects := d.objects[d.vars[s].id := o.(fields := o.fields[i := d.vars[r]])])
    else d
  }

  /** r := s. */
  function DoCopy<K>(d: Ideal<K>, r: nat, s: nat): Ideal<K> {
    if r in d.roots && s in d.roots && s in d.vars then d.(vars := d.vars[r := d.vars[s]]) else d
  }

  /** r := a pointer the collector does not own. */
  function DoOutside<K>(d: Ideal<K>, r: nat, a: Addr): Ideal<K> {
    if r in d.roots then d.(vars := d.vars[r := Foreign(a)]) else d
  }

  function DoAddRoot<K>(d: Ideal<K>, r: nat): Ideal<K> {
    if r in d.roots then d else d.(vars := d.vars[r := Foreign(NULL)], roots := d.roots + {r})
  }

  function ReadValues(vars: map<nat, Value>, rs: seq<nat>): seq<Value>
    requires forall r :: r in rs ==> r in vars
  {
    seq(|rs|, i requires 0 <= i < |rs| => vars[rs[i]])
  }

  // What is loaded is what was stored last.

  lemma LoadAfterStore<K>(d: Ideal<K>, s: nat, i: nat, r: nat, q: nat)
    requires HasField(d, s, i) && r in d.roots && r in d.vars && q in d.roots
    ensures DoLoad(DoStore(d, s, i, r), q, s, i).vars[q] == d.vars[r]
  {
  }

  /** A store changes no other field, no variable, and nothing else about the object. */
  lemma LoadElsewhere<K>(d: Ideal<K>, s: nat, i: nat, r: nat, t: nat, j: nat, q: nat)
    requires HasField(d, t, j) && q in d.roots
    requires HasField(d, s, i) ==> d.vars[t] != d.vars[s] || j != i
    ensures DoLoad(DoStore(d, s, i, r), q, t, j).vars[q] == DoLoad(d, q, t, j).vars[q]
    ensures DoStore(d, s, i, r).vars == d.vars && |DoStore(d, s, i, r).objects| == |d.objects|
    ensures DoStore(d, s, i, r).objects[d.vars[t].id].looks == d.objects[d.vars[t].id].looks
  {
  }

  /** A new object is like no other, and its fields hold what they were given. */
  lemma LoadAfterNew<K>(d: Ideal<K>, r: nat, looks: K, init: seq<nat>, i: nat, q: nat)
    requires r in d.roots && q in d.roots && i < |init| && forall v :: v in init ==> v in d.roots && v in d.vars
    ensures var d' := DoNew(d, r, looks, init);
      && d'.vars[r].Ref? && d'.vars[r].id == |d.objects| < |d'.objects| && d'.objects[|d.objects|].looks == looks
      && |d'.objects[|d.objects|].fields| == |init| && DoLoad(d', q, r, i).vars[q] == d.vars[init[i]]
      && (forall n :: 0 <= n < |d.objects| ==> d'.objects[n] == d.objects[n])
      && forall v :: v in d.vars && v != r ==> v in d'.vars && d'.vars[v] == d.vars[v]
  {
  }

  // ---------------------------------------------------------------------------
  // The simulation
  // ---------------------------------------------------------------------------

  /** What the application sees in a pointer, given the ideal number of each object in memory. */
  function Seen(names: map<Addr, nat>, x: Addr): Value {
    if x in names then Ref(names[x]) else Foreign(x)
  }

  function SeenAll(names: map<Addr, nat>, xs: seq<Addr>): seq<Value> {
    seq(|xs|, i requires 0 <= i < |xs| => Seen(names, xs[i]))
  }

  /** Object a in memory is the ideal object it is named after. */
  ghost predicate SameObject<H, K>(look: H -> K, d: Ideal<K>, mem: Mem<H>, names: map<Addr, nat>, a: Addr) {
    && a in mem && a in names && mem[a].Obj? && names[a] < |d.objects|
    && d.objects[names[a]] == IdealObject(look(mem[a].hdr), SeenAll(names, mem[a].fields))
  }

  predicate SameRoot<K>(d: Ideal<K>, vars: map<nat, Addr>, names: map<Addr, nat>, r: nat) {
    r in vars && r in d.vars && d.vars[r] == Seen(names, vars[r])
  }

  ghost predicate Simulates<H, K>(
      look: H -> K, d: Ideal<K>, mem: Mem<H>, vars: map<nat, Addr>, rootv: seq<nat>, names: map<Addr, nat>) {
    && names.Keys == mem.Keys
    && (forall a :: a in mem ==> SameObject(look, d, mem, names, a))
    && (forall a, b :: a in names && b in names && names[a] == names[b] ==> a == b)
    && (forall r :: r in rootv <==> r in d.roots)
    && (forall r :: r in rootv ==> SameRoot(d, vars, names, r))
  }

  // ---------------------------------------------------------------------------
  // A collection is invisible
  // ---------------------------------------------------------------------------

  /** Objects keep their names when they move. */
  function MovedNames<H>(e: Evac<H>, names: map<Addr, nat>): map<Addr, nat> {
    map a | a in Remaining(e) && Origin(e, a) in names :: names[Origin(e, a)]
  }

  /** A pointer that was redirected looks the same as before. */
  lemma SeenAfterMove<H>(e: Evac<H>, names: map<Addr, nat>, x: Addr)
    requires Finished(e) && names.Keys == e.mem0.Keys && Phi(e.mem, x) !in e.from
    requires x in e.mem0 || x !in Remaining(e)
    ensures Seen(MovedNames(e, names), Phi(e.mem, x)) == Seen(names, x)
  {
    if x in e.from {
      assert Accounted(e, x);
    } else {
      PhiOfOutside(e, x);
      if x in e.mem0 { assert x in Remaining(e); }
    }
  }

  lemma OriginSurvives<H>(e: Evac<H>, a: Addr)
    requires Finished(e) && a in Remaining(e)
    ensures Survives(e, Origin(e, a)) && Phi(e.mem, Origin(e, a)) == a
    ensures Origin(e, a) in e.mem0 && e.mem0[Origin(e, a)].Obj?
  {
    assert Faithful(e, a);
    if a !in e.src { PhiOfOutside(e, a); }
  }

  /** A survivor looks like what it was copied from. */
  ghost predicate LooksSame<H, K>(look: H -> K, e: Evac<H>, a: Addr) {
    && a in e.mem && e.mem[a].Obj? && Origin(e, a) in e.mem0 && e.mem0[Origin(e, a)].Obj?
    && look(e.mem[a].hdr) == look(e.mem0[Origin(e, a)].hdr)
  }

  lemma ObjectAfterMove<H, K>(look: H -> K, d: Ideal<K>, e: Evac<H>, names: map<Addr, nat>, a: Addr)
    requires Finished(e) && LooksSame(look, e, a) && names.Keys == e.mem0.Keys && a in Remaining(e)
    requires SameObject(look, d, e.mem0, names, Origin(e, a))
    requires forall i :: 0 <= i < |e.mem0[Origin(e, a)].fields| ==>
      e.mem0[Origin(e, a)].fields[i] in e.mem0 || e.mem0[Origin(e, a)].fields[i] !in Remaining(e)
    ensures SameObject(look, d, Remaining(e), MovedNames(e, names), a)
  {
    OriginSurvives(e, a);
    assert Faithful(e, a);
    var o := Origin(e, a);
    var names' := MovedNames(e, names);
    assert SeenAll(names', e.mem[a].fields) == SeenAll(names, e.mem0[o].fields) by {
      forall i | 0 <= i < |e.mem[a].fields|
        ensures Seen(names', e.mem[a].fields[i]) == Seen(names, e.mem0[o].fields[i])
      {
        ForwardingIsHomomorphism(e, o, i);
        SeenAfterMove(e, names, e.mem0[o].fields[i]);
      }
    }
  }

  /** Main result for one collection: whatever it copied or reclaimed, the same ideal heap is still simulated. */
  lemma MovingIsInvisible<H, K>(
      look: H -> K, d: Ideal<K>, e: Evac<H>, vars0: map<nat, Addr>, rootv: seq<nat>, vars': map<nat, Addr>,
      names: map<Addr, nat>)
    requires Simulates(look, d, e.mem0, vars0, rootv, names) && Finished(e) && Redirected(vars0, rootv, e, vars')
    requires forall a :: a in Remaining(e) ==> LooksSame(look, e, a)
    requires forall a, i :: a in e.mem0 && e.mem0[a].Obj? && 0 <= i < |e.mem0[a].fields| ==>
      e.mem0[a].fields[i] in e.mem0 || e.mem0[a].fields[i] !in Remaining(e)
    requires forall r :: r in rootv && r in vars0 ==> vars0[r] in e.mem0 || vars0[r] !in Remaining(e)
    ensures Simulates(look, d, Remaining(e), vars', rootv, MovedNames(e, names))
  {
    hide Finished, SameObject, Seen, Phi, LooksSame, Origin;
    var names', mem' := MovedNames(e, names), Remaining(e);
    forall a | a in mem' ensures a in names' && SameObject(look, d, mem', names', a) {
      OriginSurvives(e, a);
      assert SameObject(look, d, e.mem0, names, Origin(e, a));
      ObjectAfterMove(look, d, e, names, a);
    }
    NamesStayDistinct(e, names);
    forall r | r in rootv ensures SameRoot(d, vars', names', r) {
      assert SameRoot(d, vars0, names, r) && Redirection(vars0, rootv, e, vars', r);
      RootAfterMove(d, e, vars0, rootv, vars', names, r);
    }
  }

  lemma NamesStayDistinct<H>(e: Evac<H>, names: map<Addr, nat>)
    requires Finished(e) && names.Keys == e.mem0.Keys
    requires forall a, b :: a in names && b in names && names[a] == names[b] ==> a == b
    ensures var names' := MovedNames(e, names);
      forall a, b :: a in names' && b in names' && names'[a] == names'[b] ==> a == b
  {
    hide Finished, Phi;
    var names' := MovedNames(e, names);
    forall a, b | a in names' && b in names' && names'[a] == names'[b] ensures a == b {
      OriginSurvives(e, a);
      OriginSurvives(e, b);
    }
  }

  lemma RootAfterMove<H, K>(
      d: Ideal<K>, e: Evac<H>, vars0: map<nat, Addr>, rootv: seq<nat>, vars': map<nat, Addr>, names: map<Addr, nat>,
      r: nat)
    requires SameRoot(d, vars0, names, r) && Redirection(vars0, rootv, e, vars', r) && r in rootv
    requires Finished(e) && names.Keys == e.mem0.Keys
    requires vars0[r] in e.mem0 || vars0[r] !in Remaining(e)
    ensures SameRoot(d, vars', MovedNames(e, names), r)
  {
    hide Finished;
    SeenAfterMove(e, names, vars0[r]);
  }

  // ---------------------------------------------------------------------------
  // The mutator's own steps
  // ---------------------------------------------------------------------------

  /** A new object takes the next number; nothing else looks different. */
  lemma NewIsSimulated<H, K>(
      look: H -> K, d: Ideal<K>, mem: Mem<H>, vars: map<nat, Addr>, rootv: seq<nat>, names: map<Addr, nat>,
      r: nat, h: H, looks: K, init: seq<nat>, x: Addr)
    requires Simulates(look, d, mem, vars, rootv, names) && x !in mem && r in rootv && look(h) == looks
    requires forall v :: v in init ==> v in rootv && v in vars
    requires forall a, i :: a in mem && mem[a].Obj? && 0 <= i < |mem[a].fields| ==> mem[a].fields[i] != x
    requires forall v :: v in rootv && v in vars ==> vars[v] != x
    ensures Simulates(look, DoNew(d, r, looks, init), mem[x := Obj(h, ReadAll(vars, init))], vars[r := x], rootv,
              names[x := |d.objects|])
  {
    var mem', names' := mem[x := Obj(h, ReadAll(vars, init))], names[x := |d.objects|];
    forall v | v in init ensures v in d.roots && SameRoot(d, vars, names, v) {}
    var d' := DoNew(d, r, looks, init);
    assert SeenAll(names', ReadAll(vars, init)) == ReadValues(d.vars, init) by {
      forall i | 0 <= i < |init| ensures Seen(names', vars[init[i]]) == d.vars[init[i]] {
        assert init[i] in init && SameRoot(d, vars, names, init[i]);
      }
    }
    forall a | a in mem' ensures SameObject(look, d', mem', names', a) {
      if a != x {
        assert SameObject(look, d, mem, names, a);
        SeenAllStays(names, names', mem[a].fields, x);
      }
    }
    forall v | v in rootv ensures SameRoot(d', vars[r := x], names', v) { assert SameRoot(d, vars, names, v); }
    forall a | a in names ensures names[a] < |d.objects| { assert SameObject(look, d, mem, names, a); }
  }

  lemma SeenAllStays(names: map<Addr, nat>, names': map<Addr, nat>, xs: seq<Addr>, x: Addr)
    requires forall i :: 0 <= i < |xs| ==> xs[i] != x
    requires x in names' && names' == names[x := names'[x]]
    ensures SeenAll(names', xs) == SeenAll(names, xs)
  {
  }

  /** A store changes one field of one ideal object. */
  lemma StoreIsSimulated<H, K>(
      look: H -> K, d: Ideal<K>, mem: Mem<H>, vars: map<nat, Addr>, rootv: seq<nat>, names: map<Addr, nat>, s: nat,
      i: nat, r: nat)
    requires Simulates(look, d, mem, vars, rootv, names) && HasField(d, s, i) && r in rootv
    ensures s in vars && r in vars && vars[s] in mem && mem[vars[s]].Obj? && i < |mem[vars[s]].fields|
    ensures Simulates(look, DoStore(d, s, i, r), Assigned(mem, vars[s], i, vars[r]), vars, rootv, names)
  {
    assert SameRoot(d, vars, names, s) && SameRoot(d, vars, names, r);
    assert SameObject(look, d, mem, names, vars[s]);
    var mem', d' := Assigned(mem, vars[s], i, vars[r]), DoStore(d, s, i, r);
    assert SeenAll(names, mem'[vars[s]].fields) == SeenAll(names, mem[vars[s]].fields)[i := Seen(names, vars[r])];
    forall a | a in mem' ensures SameObject(look, d', mem', names, a) { assert SameObject(look, d, mem, names, a); }
    forall v | v in rootv ensures SameRoot(d', vars, names, v) { assert SameRoot(d, vars, names, v); }
  }

  /** HasField can be decided by looking at memory. */
  lemma HasFieldInMemory<H, K>(
      look: H -> K, d: Ideal<K>, mem: Mem<H>, vars: map<nat, Addr>, rootv: seq<nat>, names: map<Addr, nat>, s: nat,
      i: nat)
    requires Simulates(look, d, mem, vars, rootv, names)
    ensures HasField(d, s, i) <==>
      s in rootv && s in vars && vars[s] in mem && mem[vars[s]].Obj? && i < |mem[vars[s]].fields|
    ensures HasField(d, s, i) ==> d.objects[d.vars[s].id].fields[i] == Seen(names, mem[vars[s]].fields[i])
  {
    if s in rootv {
      assert SameRoot(d, vars, names, s);
      if vars[s] in mem { assert SameObject(look, d, mem, names, vars[s]); }
    }
  }

  /** Giving a variable a value that looks like v is what the ideal assignment does. */
  lemma VariableIsSimulated<H, K>(
      look: H -> K, d: Ideal<K>, mem: Mem<H>, vars: map<nat, Addr>, rootv: seq<nat>, names: map<Addr, nat>, r: nat,
      x: Addr, v: Value)
    requires Simulates(look, d, mem, vars, rootv, names) && Seen(names, x) == v
    ensures Simulates(look, d.(vars := d.vars[r := v]), mem, vars[r := x], rootv, names)
  {
    var d' := d.(vars := d.vars[r := v]);
    forall a | a in mem ensures SameObject(look, d', mem, names, a) { assert SameObject(look, d, mem, names, a); }
    forall q | q in rootv ensures SameRoot(d', vars[r := x], names, q) { assert SameRoot(d, vars, names, q); }
  }

  /** The registered roots are the ideal ones, and each has a value. */
  lemma RootsAgree<H, K>(
      look: H -> K, d: Ideal<K>, mem: Mem<H>, vars: map<nat, Addr>, rootv: seq<nat>, names: map<Addr, nat>)
    requires Simulates(look, d, mem, vars, rootv, names)
    ensures forall r :: r in rootv <==> r in d.roots
    ensures forall r :: r in rootv ==> SameRoot(d, vars, names, r)
    ensures names.Keys == mem.Keys
  {
  }

  /** Which variables are registered does not matter to anything but the roots themselves. */
  lemma RegistrationIsSimulated<H, K>(
      look: H -> K, d: Ideal<K>, mem: Mem<H>, vars: map<nat, Addr>, rootv: seq<nat>, names: map<Addr, nat>,
      rootv': seq<nat>, roots': set<nat>)
    requires Simulates(look, d, mem, vars, rootv, names)
    requires forall r :: r in rootv' <==> r in roots'
    requires forall r :: r in rootv' ==> SameRoot(d, vars, names, r)
    ensures Simulates(look, d.(roots := roots'), mem, vars, rootv', names)
  {
    forall a | a in mem ensures SameObject(look, d.(roots := roots'), mem, names, a) {
      assert SameObject(look, d, mem, names, a);
    }
    forall r | r in rootv' ensures SameRoot(d.(roots := roots'), vars, names, r) { assert SameRoot(d, vars, names, r); }
  }

  /** Comparing two pointers gives the same answer as comparing the ideal ones. */
  lemma PointerEqualityAgrees<H, K>(
      look: H -> K, d: Ideal<K>, mem: Mem<H>, vars: map<nat, Addr>, rootv: seq<nat>, names: map<Addr, nat>, r: nat,
      s: nat)
    requires Simulates(look, d, mem, vars, rootv, names) && r in rootv && s in rootv
    ensures r in vars && s in vars && r in d.vars && s in d.vars
    ensures vars[r] == vars[s] <==> d.vars[r] == d.vars[s]
    ensures vars[r] == NULL && NULL !in mem <==> d.vars[r] == Foreign(NULL)
  {
    assert SameRoot(d, vars, names, r) && SameRoot(d, vars, names, s);
  }
}
