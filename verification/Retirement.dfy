/**
 * When the N-generation collector may retire a log entry. It decides by
 * generation, although what a pointer will be after the next collections depends
 * on the ages of the two objects: for most configurations that is too early.
 */
module Retirement {
  import opened Stores

  /** The age of an object after a collection of the generations below u, if it survives. */
  function Aged(cfg: Config, age: nat, u: nat): nat {
    if Age2Gen(cfg, age) < u then NextAge(age) else age
  }

  /** Its age after surviving a run of collections. */
  function AgedBy(cfg: Config, age: nat, us: seq<nat>): nat {
    if us == [] then age else Aged(cfg, AgedBy(cfg, age, us[..|us| - 1]), us[|us| - 1])
  }

  /**
   * A pointer from an object of age p to one of age c goes from an older generation to a younger one
   * that is not the last.
   */
  predicate Crosses(cfg: Config, p: nat, c: nat) {
    Age2Gen(cfg, c) + 1 < cfg.n && Age2Gen(cfg, c) < Age2Gen(cfg, p)
  }

  /** The write barrier logs the store of such a pointer. */
  predicate LoggedFor(cfg: Config, p: nat, c: nat) {
    Age2Gen(cfg, c) + 1 < cfg.n && (Age2Gen(cfg, c) < Age2Gen(cfg, p) || (Age2Gen(cfg, c) == Age2Gen(cfg, p) && c < p))
  }

  /**
   * A store was logged; after the collections us, the last of which works through
   * its log, the entry is retired; after the further collections vs the pointer
   * goes from an older to a younger generation, and nothing remembers it.
   */
  ghost predicate RetiredTooEarly(cfg: Config, p: nat, c: nat, us: seq<nat>, vs: seq<nat>) {
    && p <= MAX_AGE && c <= MAX_AGE && LoggedFor(cfg, p, c)
    && 0 < |us| && Age2Gen(cfg, c) < us[|us| - 1]
    && !Crosses(cfg, AgedBy(cfg, p, us), AgedBy(cfg, c, us))
    && Crosses(cfg, AgedBy(cfg, p, us + vs), AgedBy(cfg, c, us + vs))
  }

  /** The configurations in which deciding by generation is right. */
  predicate DecidesRightly(cfg: Config) {
    cfg.survive == 1 || cfg.n == 1 || MAX_AGE < cfg.survive || (cfg.n == 2 && cfg.survive == 2)
  }

  lemma DivFacts(a: nat, s: nat)
    requires 0 < s
    ensures a < s ==> a / s == 0
    ensures a == s ==> a / s == 1
  {
  }

  lemma AgeIsBounded(cfg: Config, age: nat, us: seq<nat>)
    requires age <= MAX_AGE
    ensures age <= AgedBy(cfg, age, us) <= MAX_AGE
  {
    hide Age2Gen;
    if us != [] { AgeIsBounded(cfg, age, us[..|us| - 1]); }
  }

  /** With one survival per generation, a pointer that does not cross never will. */
  lemma {:induction false} NeverCrosses(cfg: Config, p: nat, c: nat, us: seq<nat>, vs: seq<nat>)
    requires cfg.survive == 1 && !Crosses(cfg, AgedBy(cfg, p, us), AgedBy(cfg, c, us)) && p <= MAX_AGE && c <= MAX_AGE
    ensures !Crosses(cfg, AgedBy(cfg, p, us + vs), AgedBy(cfg, c, us + vs))
    decreases |vs|
  {
    if vs == [] {
      assert us + vs == us;
    } else {
      var ws := us + vs;
      assert ws[..|ws| - 1] == us + vs[..|vs| - 1];
      NeverCrosses(cfg, p, c, us, vs[..|vs| - 1]);
      AgeIsBounded(cfg, p, ws[..|ws| - 1]);
      AgeIsBounded(cfg, c, ws[..|ws| - 1]);
      StaysYounger(cfg, AgedBy(cfg, p, ws[..|ws| - 1]), AgedBy(cfg, c, ws[..|ws| - 1]), ws[|ws| - 1]);
    }
  }

  lemma StaysYounger(cfg: Config, p: nat, c: nat, u: nat)
    requires cfg.survive == 1 && !Crosses(cfg, p, c) && p <= MAX_AGE && c <= MAX_AGE
    ensures !Crosses(cfg, Aged(cfg, p, u), Aged(cfg, c, u))
  {
    assert p / 1 == p && c / 1 == c && (p + 1) / 1 == p + 1 && (c + 1) / 1 == c + 1;
  }

  /**
   * Two generations, two survivals: once an entry's log has been worked through, the child is promoted
   * or the parent was.
   */
  lemma {:induction false} ChildFollows(cfg: Config, p: nat, c: nat, us: seq<nat>)
    requires cfg.n == 2 && cfg.survive == 2 && LoggedFor(cfg, p, c) && p <= MAX_AGE && c <= MAX_AGE
    ensures var p', c' := AgedBy(cfg, p, us), AgedBy(cfg, c, us); 2 <= c' || 2 <= p' || (p' == 1 && c' == 0)
    ensures 0 < |us| && 0 < us[|us| - 1] ==> 0 < AgedBy(cfg, c, us)
    decreases |us|
  {
    if us != [] {
      ChildFollows(cfg, p, c, us[..|us| - 1]);
      AgeIsBounded(cfg, p, us[..|us| - 1]);
      AgeIsBounded(cfg, c, us[..|us| - 1]);
    }
  }

  lemma AgesOnlyRise(cfg: Config, c: nat, us: seq<nat>, vs: seq<nat>)
    requires c <= MAX_AGE
    ensures AgedBy(cfg, c, us) <= AgedBy(cfg, c, us + vs)
    decreases |vs|
  {
    hide Age2Gen;
    if vs == [] {
      assert us + vs == us;
    } else {
      var ws := us + vs;
      assert ws[..|ws| - 1] == us + vs[..|vs| - 1];
      AgesOnlyRise(cfg, c, us, vs[..|vs| - 1]);
      AgeIsBounded(cfg, c, ws[..|ws| - 1]);
    }
  }

  lemma NotTooEarly(cfg: Config, p: nat, c: nat, us: seq<nat>, vs: seq<nat>)
    requires DecidesRightly(cfg)
    ensures !RetiredTooEarly(cfg, p, c, us, vs)
  {
    if RetiredTooEarly(cfg, p, c, us, vs) {
      if cfg.survive == 1 {
        NeverCrosses(cfg, p, c, us, vs);
      } else if cfg.n == 2 && cfg.survive == 2 {
        ChildFollows(cfg, p, c, us);
        AgesOnlyRise(cfg, c, us, vs);
      } else {
        AgeIsBounded(cfg, p, us + vs);
        DivFacts(AgedBy(cfg, p, us + vs), cfg.survive);
      }
    }
  }

  // ---------------------------------------------------------------------------
  // One collection, whatever the configuration
  // ---------------------------------------------------------------------------

  /**
   * Where an entry must not be lost after a collection, a store of the same
   * pointer would have been logged before it: a parent is not younger than its
   * child if they end up in one generation, and only what is young has aged.
   */
  lemma OlderBefore(cfg: Config, p: nat, x: nat, u: nat)
    requires p <= MAX_AGE && x <= MAX_AGE && LoggedFor(cfg, Aged(cfg, p, u), Aged(cfg, x, u))
    ensures LoggedFor(cfg, p, x)
  {
    hide Age2Gen;
    GenSteps(cfg, p);
    GenSteps(cfg, x);
    if Age2Gen(cfg, p) < u <= Age2Gen(cfg, x) {
      JustPromoted(cfg, p, u);
      AgeOfGeneration(cfg, x, u);
    } else {
      GenIsMonotone(cfg, x, p);
      GenIsMonotone(cfg, NextAge(p), NextAge(x));
    }
  }

  /** An object that has just been promoted is as young as its new generation allows. */
  lemma JustPromoted(cfg: Config, p: nat, u: nat)
    requires p <= MAX_AGE && Age2Gen(cfg, p) < u <= Age2Gen(cfg, NextAge(p)) && Age2Gen(cfg, NextAge(p)) + 1 < cfg.n
    ensures NextAge(p) == u * cfg.survive
  {
    hide Age2Gen;
    GenIsQuotient(cfg, p);
    GenIsQuotient(cfg, NextAge(p));
    GenSteps(cfg, p);
    StepInto(p, cfg.survive);
  }

  lemma GenIsQuotient(cfg: Config, a: nat)
    ensures Age2Gen(cfg, a) + 1 < cfg.n ==> Age2Gen(cfg, a) == a / cfg.survive
  {
  }

  lemma StepInto(p: nat, s: nat)
    requires 0 < s && (p + 1) / s == p / s + 1
    ensures p + 1 == ((p + 1) / s) * s
  {
    var q := p / s;
    assert p == s * q + p % s && p + 1 == s * (q + 1) + (p + 1) % s;
    assert s * (q + 1) == s * q + s;
  }

  lemma AgeOfGeneration(cfg: Config, x: nat, u: nat)
    requires u <= Age2Gen(cfg, x) && Age2Gen(cfg, x) + 1 < cfg.n
    ensures u * cfg.survive <= x
  {
    var q := x / cfg.survive;
    MulIsMonotone(u, q, cfg.survive);
    assert x == cfg.survive * q + x % cfg.survive;
  }

  lemma MulIsMonotone(a: nat, b: nat, s: nat)
    requires a <= b
    ensures a * s <= b * s
  {
  }

  lemma GenIsMonotone(cfg: Config, a: nat, b: nat)
    ensures a <= b ==> Age2Gen(cfg, a) <= Age2Gen(cfg, b)
  {
    if a <= b { DivIsMonotone(a, b, cfg.survive); }
  }

  lemma {:induction false} DivIsMonotone(a: nat, b: nat, s: nat)
    requires a <= b && 0 < s
    ensures a / s <= b / s
    decreases b
  {
    if a < b {
      DivIsMonotone(a, b - 1, s);
      DivSteps(b - 1, s);
    }
  }

  /**
   * Where the collector decides rightly, an entry that must not be lost and whose
   * log has been worked through names a pointer from an older to a younger
   * generation: the entry has been kept.
   */
  lemma OwedCrosses(cfg: Config, p: nat, x: nat, u: nat)
    requires DecidesRightly(cfg) && cfg.survive <= MAX_AGE && 0 < u && p <= MAX_AGE && x <= MAX_AGE
    requires LoggedFor(cfg, Aged(cfg, p, u), Aged(cfg, x, u))
    ensures Crosses(cfg, Aged(cfg, p, u), Aged(cfg, x, u))
  {
    OlderBefore(cfg, p, x, u);
    if cfg.survive == 1 {
      assert forall a: nat :: a / 1 == a;
    }
  }

  // ---------------------------------------------------------------------------
  // Where the collector does not decide rightly
  // ---------------------------------------------------------------------------

  /** k collections of the youngest generation. */
  function Nursery(k: nat): seq<nat> { seq(k, _ => 1) }

  lemma {:induction false} AgedInNursery(cfg: Config, a: nat, k: nat)
    requires a + k <= cfg.survive <= MAX_AGE
    ensures AgedBy(cfg, a, Nursery(k)) == a + k
    decreases k
  {
    if 0 < k {
      assert Nursery(k)[..k - 1] == Nursery(k - 1);
      AgedInNursery(cfg, a, k - 1);
      DivFacts(a + k - 1, cfg.survive);
    }
  }

  /** Three survivals or more: parent and child of ages 1 and 0 part company later. */
  lemma TooEarlyInNursery(cfg: Config)
    requires 2 <= cfg.n && 3 <= cfg.survive <= MAX_AGE
    ensures RetiredTooEarly(cfg, 1, 0, Nursery(1), Nursery(cfg.survive - 2))
  {
    var s := cfg.survive;
    assert Nursery(1) + Nursery(s - 2) == Nursery(s - 1);
    AgedInNursery(cfg, 1, 1);
    AgedInNursery(cfg, 0, 1);
    AgedInNursery(cfg, 1, s - 1);
    AgedInNursery(cfg, 0, s - 1);
    DivFacts(0, s);
    DivFacts(1, s);
    DivFacts(2, s);
    DivFacts(s, s);
    DivFacts(s - 1, s);
  }

  /**
   * Two survivals and three generations: the child catches up with its parent's generation, and is
   * left behind again.
   */
  lemma TooEarlyInSecond(cfg: Config)
    requires 3 <= cfg.n && cfg.survive == 2
    ensures RetiredTooEarly(cfg, 3, 1, [1], [2])
  {
    assert [1] + [2] == [1, 2] && [1, 2][..1] == [1] && [1][..0] == [];
    assert AgedBy(cfg, 3, [1]) == 3 && AgedBy(cfg, 1, [1]) == 2;
    assert AgedBy(cfg, 3, [1, 2]) == 4 && AgedBy(cfg, 1, [1, 2]) == 3;
  }

  /**
   * Exactly when no entry is ever retired too early. The default, two survivals, is wrong with three
   * generations or more.
   */
  lemma RetirementIsSoundIff(cfg: Config)
    ensures (forall p, c, us, vs :: !RetiredTooEarly(cfg, p, c, us, vs)) <==> DecidesRightly(cfg)
  {
    if DecidesRightly(cfg) {
      forall p, c, us, vs ensures !RetiredTooEarly(cfg, p, c, us, vs) { NotTooEarly(cfg, p, c, us, vs); }
    } else if cfg.survive == 2 {
      TooEarlyInSecond(cfg);
    } else {
      TooEarlyInNursery(cfg);
    }
  }
}
