/**
 * Intrusive reference counting by load and compare-exchange, under every
 * interleaving of the threads that share an object.
 */
module Refcounted {

  const MODULUS: nat := 0x1_0000_0000

  /** What replaces the counter of a deleted object, to detect a second deletion. */
  const POISON: nat := 0xffff_ffff

  /**
   * Where a thread is in intrusive_ptr_add_ref or intrusive_ptr_release: before
   * the load, before the compare-exchange of what was loaded, before the store of
   * the poison, before the deletion. seen is the number of exchanges that had
   * succeeded, anywhere, when the load was made.
   */
  datatype Pc =
    | Idle
    | AddLoad
    | AddCas(n: nat, seen: nat)
    | RelLoad
    | RelCas(n: nat, seen: nat)
    | RelStore
    | RelDelete
    | Failed  // the assertion against a second deletion

  /** owns: the references this thread is responsible for. creator: it made the object, and no reference exists yet. */
  datatype Thread = Thread(pc: Pc, owns: nat, creator: bool)

  /** deletes: how often the object was deleted. wins: how many exchanges have succeeded. */
  datatype State = State(counter: nat, deletes: nat, wins: nat, threads: seq<Thread>)

  datatype Action =
    | StartAdd
    | StartRelease
    | Give(to: nat)  // a reference is moved to another thread; nothing is counted
    | Go             // the next atomic step of the operation in progress

  function With(s: State, t: nat, th: Thread): State
    requires t < |s.threads|
  {
    s.(threads := s.threads[t := th])
  }

  predicate Enabled(s: State, t: nat, a: Action) {
    t < |s.threads| &&
    var th := s.threads[t];
    match a
    case StartAdd => th.pc.Idle? && (0 < th.owns || th.creator)
    case StartRelease => th.pc.Idle? && 0 < th.owns
    case Give(u) => th.pc.Idle? && 0 < th.owns && u < |s.threads| && u != t
    case Go => !th.pc.Idle? && !th.pc.Failed?
  }

  function Step(s: State, t: nat, a: Action): State
    requires Enabled(s, t, a)
  {
    var th := s.threads[t];
    match a
    case StartAdd => With(s, t, th.(pc := AddLoad))
    case StartRelease => With(s, t, th.(pc := RelLoad))
    case Give(u) => With(With(s, t, th.(owns := th.owns - 1)), u, s.threads[u].(owns := s.threads[u].owns + 1))
    case Go =>
      match th.pc
      case AddLoad => With(s, t, th.(pc := AddCas(s.counter, s.wins)))
      case AddCas(n, _) =>
        if s.counter == n then
          With(s.(counter := (n + 1) % MODULUS, wins := s.wins + 1), t, Thread(Idle, th.owns + 1, false))
        else With(s, t, th.(pc := AddLoad))
      case RelLoad => With(s, t, th.(pc := if s.counter == POISON then Failed else RelCas(s.counter, s.wins)))
      case RelCas(n, _) =>
        if s.counter == n then
          With(s.(counter := (n + MODULUS - 1) % MODULUS, wins := s.wins + 1), t,
            Thread(if n == 1 then RelStore else Idle, if 0 < th.owns then th.owns - 1 else 0, th.creator))
        else With(s, t, th.(pc := RelLoad))
      case RelStore => With(s.(counter := POISON), t, th.(pc := RelDelete))
      case RelDelete => With(s.(deletes := s.deletes + 1), t, th.(pc := Idle))
      case _ => s
  }

  /** The object has just been made by thread t. */
  predicate IsInit(s: State, t: nat) {
    && s.counter == 0 && s.deletes == 0 && s.wins == 0 && t < |s.threads|
    && forall u :: 0 <= u < |s.threads| ==> s.threads[u] == Thread(Idle, 0, u == t)
  }

  /** References outstanding. */
  function Total(ths: seq<Thread>): nat {
    if ths == [] then 0 else ths[0].owns + Total(ths[1..])
  }

  lemma {:induction false} TotalUpdate(ths: seq<Thread>, t: nat, th: Thread)
    requires t < |ths|
    ensures Total(ths[t := th]) + ths[t].owns == Total(ths) + th.owns
  {
    if t == 0 {
      assert ths[t := th][1..] == ths[1..];
    } else {
      TotalUpdate(ths[1..], t - 1, th);
      assert ths[t := th][1..] == ths[1..][t - 1 := th];
    }
  }

  lemma {:induction false} TotalIsAtLeast(ths: seq<Thread>, t: nat)
    requires t < |ths|
    ensures ths[t].owns <= Total(ths)
  {
    if t > 0 { TotalIsAtLeast(ths[1..], t - 1); }
  }

  lemma {:induction false} TotalOfNothing(ths: seq<Thread>)
    requires forall t :: 0 <= t < |ths| ==> ths[t].owns == 0
    ensures Total(ths) == 0
  {
    if ths != [] { TotalOfNothing(ths[1..]); }
  }

  // ---------------------------------------------------------------------------
  // The invariant
  // ---------------------------------------------------------------------------

  /** In the middle of adding or releasing, before success. */
  predicate Busy(pc: Pc) { pc.AddLoad? || pc.AddCas? || pc.RelLoad? || pc.RelCas? }

  predicate Finishing(pc: Pc) { pc.RelStore? || pc.RelDelete? }

  /** A thread is at work only while it owns a reference, or as the creator adding the first. */
  predicate Entitled(th: Thread) {
    && !th.pc.Failed?
    && (Busy(th.pc) ==> 0 < th.owns || (th.creator && (th.pc.AddLoad? || th.pc.AddCas?)))
  }

  /** A loaded value is still current if no exchange has succeeded since. */
  predicate UpToDate(s: State, pc: Pc) {
    match pc
    case AddCas(n, seen) => seen <= s.wins && (seen == s.wins ==> n == s.counter)
    case RelCas(n, seen) => seen <= s.wins && (seen == s.wins ==> n == s.counter)
    case _ => true
  }

  /** The four times in the life of the object. */
  datatype Phase =
    | New              // made, no reference yet
    | Live             // references are outstanding
    | Dying(t: nat)    // thread t released the last one
    | Dead             // deleted

  ghost predicate InPhase(s: State, ph: Phase) {
    match ph
    case New =>
      s.deletes == 0 && s.counter == 0 && Total(s.threads) == 0
      && (forall u :: 0 <= u < |s.threads| ==> !Finishing(s.threads[u].pc))
      && (forall u, v :: 0 <= u < v < |s.threads| ==> !(s.threads[u].creator && s.threads[v].creator))
      && !NoCreator(s)
    case Live =>
      s.deletes == 0 && 0 < s.counter == Total(s.threads) && NoCreator(s)
      && forall u :: 0 <= u < |s.threads| ==> !Finishing(s.threads[u].pc)
    case Dying(t) =>
      s.deletes == 0 && Total(s.threads) == 0 && NoCreator(s) && t < |s.threads| && Finishing(s.threads[t].pc)
      && (s.threads[t].pc.RelDelete? ==> s.counter == POISON)
      && forall u :: 0 <= u < |s.threads| && u != t ==> !Finishing(s.threads[u].pc)
    case Dead =>
      s.deletes == 1 && s.counter == POISON && Total(s.threads) == 0 && NoCreator(s)
      && forall u :: 0 <= u < |s.threads| ==> !Finishing(s.threads[u].pc)
  }

  predicate NoCreator(s: State) { forall u :: 0 <= u < |s.threads| ==> !s.threads[u].creator }

  ghost predicate Inv(s: State, ph: Phase) {
    && InPhase(s, ph)
    && (forall u :: 0 <= u < |s.threads| ==> Entitled(s.threads[u]))
    && (forall u :: 0 <= u < |s.threads| ==> UpToDate(s, s.threads[u].pc))
  }

  /** Fewer references than the counter can tell from the poison. */
  predicate Bounded(s: State) { Total(s.threads) < POISON }

  lemma InitIsNew(s: State, t: nat)
    requires IsInit(s, t)
    ensures Inv(s, New)
  {
    TotalOfNothing(s.threads);
    assert s.threads[t].creator;
  }

  /** Once nothing is owned and nothing is new, nobody can be in the middle of anything. */
  lemma NobodyIsBusy(s: State, ph: Phase, u: nat)
    requires Inv(s, ph) && (ph.Dying? || ph.Dead?) && u < |s.threads|
    ensures !Busy(s.threads[u].pc)
  {
    TotalIsAtLeast(s.threads, u);
  }

  function NextPhase(s: State, ph: Phase, t: nat, a: Action): Phase
    requires Enabled(s, t, a)
  {
    var s', pc := Step(s, t, a), s.threads[t].pc;
    if pc.RelDelete? && a.Go? then Dead
    else if s'.wins == s.wins then ph
    else if pc.AddCas? then Live
    else if s'.threads[t].pc.RelStore? then Dying(t)
    else Live
  }

  /** Steps that change only where one thread is: the invariant is about as much as the counter and the owners tell. */
  lemma MoveKeepsInv(s: State, ph: Phase, t: nat, pc: Pc)
    requires Inv(s, ph) && t < |s.threads| && !Finishing(s.threads[t].pc) && !Finishing(pc)
    requires Entitled(s.threads[t].(pc := pc)) && UpToDate(s, pc)
    ensures Inv(With(s, t, s.threads[t].(pc := pc)), ph)
  {
    hide Total;
    var s' := With(s, t, s.threads[t].(pc := pc));
    TotalUpdate(s.threads, t, s'.threads[t]);
    if !NoCreator(s) {
      var u :| 0 <= u < |s.threads| && s.threads[u].creator;
      assert s'.threads[u].creator;
    }
  }

  /** Moving a reference from one thread to another changes no count. */
  lemma GiveKeepsInv(s: State, ph: Phase, t: nat, u: nat)
    requires Inv(s, ph) && Enabled(s, t, Give(u))
    ensures Inv(Step(s, t, Give(u)), ph)
  {
    hide Total;
    var th, s' := s.threads[t], Step(s, t, Give(u));
    var mid := With(s, t, th.(owns := th.owns - 1));
    TotalIsAtLeast(s.threads, t);
    TotalUpdate(s.threads, t, mid.threads[t]);
    TotalUpdate(mid.threads, u, s'.threads[u]);
  }

  /** While a thread is at work the object is alive, or new with that thread its creator. */
  lemma WorkerKeepsAlive(s: State, ph: Phase, t: nat)
    requires Inv(s, ph) && t < |s.threads| && Busy(s.threads[t].pc)
    ensures ph.New? || ph.Live?
    ensures ph.New? ==>
      s.threads[t].creator && s.threads[t].owns == 0 && !s.threads[t].pc.RelCas? && !s.threads[t].pc.RelLoad?
    ensures ph.Live? ==> 0 < s.threads[t].owns <= s.counter == Total(s.threads)
  {
    hide Total;
    assert Entitled(s.threads[t]);
    TotalIsAtLeast(s.threads, t);
  }

  /** A successful exchange adds one reference. */
  lemma AddWins(s: State, ph: Phase, t: nat)
    requires Inv(s, ph) && t < |s.threads| && s.threads[t].pc.AddCas? && s.threads[t].pc.n == s.counter
    requires Bounded(s) && Bounded(Step(s, t, Go))
    ensures Inv(Step(s, t, Go), Live)
  {
    hide Total;
    var s' := Step(s, t, Go);
    WorkerKeepsAlive(s, ph, t);
    TotalUpdate(s.threads, t, s'.threads[t]);
  }

  /** A successful exchange takes one reference away; the thread that took the last is to delete the object. */
  lemma ReleaseWins(s: State, ph: Phase, t: nat)
    requires Inv(s, ph) && t < |s.threads| && s.threads[t].pc.RelCas? && s.threads[t].pc.n == s.counter && Bounded(s)
    ensures Inv(Step(s, t, Go), if s.counter == 1 then Dying(t) else Live)
    ensures s.counter == 1 <==> Step(s, t, Go).threads[t].pc.RelStore?
  {
    hide Total;
    var s' := Step(s, t, Go);
    WorkerKeepsAlive(s, ph, t);
    TotalUpdate(s.threads, t, s'.threads[t]);
    OneLess(s.counter);
  }

  lemma OneLess(n: nat)
    requires 0 < n < MODULUS
    ensures (n + MODULUS - 1) % MODULUS == n - 1
  {
  }

  /** The thread that released the last reference finishes alone. */
  lemma FinishKeepsInv(s: State, ph: Phase, t: nat)
    requires Inv(s, ph) && t < |s.threads| && Finishing(s.threads[t].pc)
    ensures ph == Dying(t) && Inv(Step(s, t, Go), if s.threads[t].pc.RelStore? then ph else Dead)
  {
    hide Total;
    var s' := Step(s, t, Go);
    TotalUpdate(s.threads, t, s'.threads[t]);
    forall u | 0 <= u < |s.threads| ensures UpToDate(s', s'.threads[u].pc) { NobodyIsBusy(s, ph, u); }
  }

  /** Every step of every thread keeps the invariant. */
  lemma StepKeepsInv(s: State, ph: Phase, t: nat, a: Action)
    requires Inv(s, ph) && Enabled(s, t, a) && Bounded(s) && Bounded(Step(s, t, a))
    ensures Inv(Step(s, t, a), NextPhase(s, ph, t, a))
  {
    hide Total, Inv, InPhase;
    var th := s.threads[t];
    match a
    case StartAdd => Idling(s, ph, t); MoveKeepsInv(s, ph, t, AddLoad);
    case StartRelease => Idling(s, ph, t); MoveKeepsInv(s, ph, t, RelLoad);
    case Give(u) => GiveKeepsInv(s, ph, t, u);
    case Go =>
      Idling(s, ph, t);
      if Finishing(th.pc) {
        FinishKeepsInv(s, ph, t);
      } else {
        WorkerKeepsAlive(s, ph, t);
        match th.pc
        case AddLoad => MoveKeepsInv(s, ph, t, AddCas(s.counter, s.wins));
        case AddCas(n, _) => if s.counter == n { AddWins(s, ph, t); } else { MoveKeepsInv(s, ph, t, AddLoad); }
        case RelLoad => MoveKeepsInv(s, ph, t, RelCas(s.counter, s.wins));
        case RelCas(n, _) => if s.counter == n { ReleaseWins(s, ph, t); } else { MoveKeepsInv(s, ph, t, RelLoad); }
        case _ =>
      }
  }

  lemma Idling(s: State, ph: Phase, t: nat)
    requires Inv(s, ph) && t < |s.threads|
    ensures Entitled(s.threads[t]) && UpToDate(s, s.threads[t].pc)
  {
  }

  // ---------------------------------------------------------------------------
  // Main results, over every interleaving
  // ---------------------------------------------------------------------------

  datatype Move = Move(t: nat, a: Action)

  /** states are the successive states of a run whose steps are moves. */
  ghost predicate IsRun(states: seq<State>, moves: seq<Move>, t0: nat) {
    && |states| == |moves| + 1 && IsInit(states[0], t0)
    && (forall k :: 0 <= k < |states| ==> Bounded(states[k]))
    && forall k :: 0 <= k < |moves| ==>
         Enabled(states[k], moves[k].t, moves[k].a) && states[k + 1] == Step(states[k], moves[k].t, moves[k].a)
  }

  lemma {:induction false} RunKeepsInv(states: seq<State>, moves: seq<Move>, t0: nat, k: nat) returns (ph: Phase)
    requires IsRun(states, moves, t0) && k < |states|
    ensures Inv(states[k], ph)
    decreases k
  {
    if k == 0 {
      InitIsNew(states[0], t0);
      ph := New;
    } else {
      ph := RunKeepsInv(states, moves, t0, k - 1);
      assert Bounded(states[k - 1]) && Bounded(states[k]) &&
        states[k - 1 + 1] == Step(states[k - 1], moves[k - 1].t, moves[k - 1].a);
      StepKeepsInv(states[k - 1], ph, moves[k - 1].t, moves[k - 1].a);
      ph := NextPhase(states[k - 1], ph, moves[k - 1].t, moves[k - 1].a);
    }
  }

  /**
   * In every state of every run: no thread has run into the assertion; the object
   * has been deleted at most once, and not while references are outstanding; as
   * long as there are any, the counter is their number. The counter of the deleted
   * object is the poison.
   */
  lemma CountingIsSafe(states: seq<State>, moves: seq<Move>, t0: nat, k: nat)
    requires IsRun(states, moves, t0) && k < |states|
    ensures var s := states[k];
      && s.deletes <= 1
      && (0 < Total(s.threads) ==> s.deletes == 0 && s.counter == Total(s.threads))
      && (s.deletes == 1 ==> s.counter == 0xffff_ffff)
      && forall u :: 0 <= u < |s.threads| ==> !s.threads[u].pc.Failed?
  {
    var ph := RunKeepsInv(states, moves, t0, k);
    hide Total;
  }

  /**
   * When every thread has finished what it was doing and the creator has made its reference: the
   * object is gone exactly if no reference is left.
   */
  lemma DeletedIffReleased(states: seq<State>, moves: seq<Move>, t0: nat, k: nat)
    requires IsRun(states, moves, t0) && k < |states|
    requires forall u :: 0 <= u < |states[k].threads| ==> states[k].threads[u].pc.Idle? && !states[k].threads[u].creator
    ensures states[k].deletes == 1 <==> Total(states[k].threads) == 0
  {
    var ph := RunKeepsInv(states, moves, t0, k);
    hide Total;
  }

  /** Whatever step is taken, the object has not been deleted before it: nobody touches a deleted object. */
  lemma NoUseAfterDelete(states: seq<State>, moves: seq<Move>, t0: nat, k: nat)
    requires IsRun(states, moves, t0) && k < |moves|
    ensures states[k].deletes == 0
  {
    var ph := RunKeepsInv(states, moves, t0, k);
    DeadIsQuiet(states[k], ph, moves[k].t, moves[k].a);
  }

  lemma DeadIsQuiet(s: State, ph: Phase, t: nat, a: Action)
    requires Inv(s, ph) && Enabled(s, t, a)
    ensures s.deletes == 0
  {
    hide Total;
    TotalIsAtLeast(s.threads, t);
    assert Entitled(s.threads[t]);
  }

  /** Lock freedom: if an exchange fails, another one has succeeded since the load that preceded it. */
  lemma FailureMeansProgress(states: seq<State>, moves: seq<Move>, t0: nat, k: nat)
    requires IsRun(states, moves, t0) && k < |moves| && moves[k].a.Go?
    requires var pc := states[k].threads[moves[k].t].pc; (pc.AddCas? || pc.RelCas?) && pc.n != states[k].counter
    ensures states[k].threads[moves[k].t].pc.seen < states[k].wins
  {
    var ph := RunKeepsInv(states, moves, t0, k);
    assert UpToDate(states[k], states[k].threads[moves[k].t].pc);
  }
}
