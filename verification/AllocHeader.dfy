/**
 * The 64-bit header in front of every allocation: type, age and padded size in
 * bit fields of configurable width, and the bytes it is stored as.
 */
module AllocHeader {
  import opened Alignment

  function Pow2(n: nat): (p: nat)
    ensures 0 < p
  {
    if n == 0 then 1 else 2 * Pow2(n - 1)
  }

  lemma {:induction false} Pow2Adds(a: nat, b: nat)
    ensures Pow2(a + b) == Pow2(a) * Pow2(b)
    decreases a
  {
    if 0 < a {
      Pow2Adds(a - 1, b);
      assert Pow2(a + b) == 2 * Pow2(a - 1 + b);
      Associates(2, Pow2(a - 1), Pow2(b));
    }
  }

  lemma Associates(a: nat, b: nat, c: nat)
    ensures a * (b * c) == (a * b) * c
  {
  }

  lemma {:induction false} Pow2Grows(a: nat, b: nat)
    requires a <= b
    ensures Pow2(a) <= Pow2(b)
    decreases b
  {
    if a < b { Pow2Grows(a, b - 1); }
  }

  /** hi, shifted left by bits, with lo below it. */
  function Join(hi: nat, bits: nat, lo: nat): nat { hi * Pow2(bits) + lo }

  /** Widths of the bit fields, and the guard bytes between allocations. */
  datatype HeaderConfig = HeaderConfig(guardZ: nat, tseqBits: nat, ageBits: nat, sizeBits: nat) {
    predicate Ok() { tseqBits + ageBits + sizeBits <= 64 && guardZ % 8 == 0 }

    function MaxAge(): nat { Pow2(ageBits) - 1 }

    /**
     * The header for type t, age a and padded size z. Age does not wrap around; type and size are cut
     * to their fields.
     */
    function MkHeader(t: nat, a: nat, z: nat): nat {
      var age := if a < MaxAge() then a else MaxAge();
      Join(Join(t % Pow2(tseqBits), ageBits, age), sizeBits, z % Pow2(sizeBits))
    }

    function Size(h: nat): nat { h % Pow2(sizeBits) }

    function Age(h: nat): nat { (h / Pow2(sizeBits)) % Pow2(ageBits) }

    function Tseq(h: nat): nat { h / Pow2(sizeBits) / Pow2(ageBits) % Pow2(tseqBits) }
  }

  /** Taking apart q * m + r. */
  lemma TakeApart(q: nat, m: nat, r: nat)
    requires r < m
    ensures (q * m + r) / m == q && (q * m + r) % m == r
  {
    var x := q * m + r;
    assert x == m * (x / m) + x % m;
    assert m * (q - x / m) == x % m - r;
    Bounds(m, q - x / m);
  }

  /**
   * What is read from a header is what was put in, as far as it fitted: an age that does not fit
   * becomes the largest.
   */
  lemma HeaderRoundTrip(cfg: HeaderConfig, t: nat, a: nat, z: nat)
    ensures var h := cfg.MkHeader(t, a, z);
      && cfg.Size(h) == z % Pow2(cfg.sizeBits)
      && (cfg.Age(h) == a <==> a < Pow2(cfg.ageBits))
      && (Pow2(cfg.ageBits) <= a ==> cfg.Age(h) == Pow2(cfg.ageBits) - 1)
      && cfg.Tseq(h) == t % Pow2(cfg.tseqBits)
  {
    var age := if a < cfg.MaxAge() then a else cfg.MaxAge();
    var tt := t % Pow2(cfg.tseqBits);
    TakeApart(tt * Pow2(cfg.ageBits) + age, Pow2(cfg.sizeBits), z % Pow2(cfg.sizeBits));
    TakeApart(tt, Pow2(cfg.ageBits), age);
    SmallMod(tt, Pow2(cfg.tseqBits));
  }

  /** The stored size is right exactly if it fits its field: nothing in the allocator checks that it does. */
  lemma SizeIsKeptIff(cfg: HeaderConfig, t: nat, a: nat, z: nat)
    ensures cfg.Size(cfg.MkHeader(t, a, z)) == z <==> z < Pow2(cfg.sizeBits)
  {
    HeaderRoundTrip(cfg, t, a, z);
    if z < Pow2(cfg.sizeBits) { SmallMod(z, Pow2(cfg.sizeBits)); }
  }

  /** A header fits in 64 bits. */
  lemma HeaderFits(cfg: HeaderConfig, t: nat, a: nat, z: nat)
    requires cfg.Ok()
    ensures cfg.MkHeader(t, a, z) < 0x1_0000_0000_0000_0000
  {
    hide Pow2;
    var T, A, S := Pow2(cfg.tseqBits), Pow2(cfg.ageBits), Pow2(cfg.sizeBits);
    var age := if a < cfg.MaxAge() then a else cfg.MaxAge();
    Combine(t % T, T, age, A);
    Combine((t % T) * A + age, T * A, z % S, S);
    Pow2Adds(cfg.tseqBits, cfg.ageBits);
    Pow2Adds(cfg.tseqBits + cfg.ageBits, cfg.sizeBits);
    Pow2Grows(cfg.tseqBits + cfg.ageBits + cfg.sizeBits, 64);
    Pow2OfWord();
  }

  /** The type is in the high bits, the size in the low ones. */
  lemma HeaderLayout(cfg: HeaderConfig, t: nat, a: nat, z: nat)
    ensures var h, tt, w := cfg.MkHeader(t, a, z), t % Pow2(cfg.tseqBits), Pow2(cfg.ageBits + cfg.sizeBits);
      tt * w <= h < (tt + 1) * w && h % Pow2(cfg.sizeBits) == z % Pow2(cfg.sizeBits)
  {
    hide Pow2, HeaderConfig.Age, HeaderConfig.Tseq;
    var A, S, tt := Pow2(cfg.ageBits), Pow2(cfg.sizeBits), t % Pow2(cfg.tseqBits);
    var age := if a < cfg.MaxAge() then a else cfg.MaxAge();
    Pow2Adds(cfg.ageBits, cfg.sizeBits);
    TakeApart(tt * A + age, S, z % S);
    Combine(age, A, z % S, S);
    Spread(tt, A, S, age);
  }

  lemma Spread(t: nat, a: nat, s: nat, r: nat)
    ensures (t * a + r) * s == t * (a * s) + r * s && (t + 1) * (a * s) == t * (a * s) + a * s
  {
    Associates(t, a, s);
    var x := t * a;
    assert (x + r) * s == x * s + r * s;
  }

  lemma Pow2OfWord()
    ensures Pow2(64) == 0x1_0000_0000_0000_0000
  {
    assert Pow2(8) == 256;
    hide Pow2;
    Pow2Adds(8, 8);
    Pow2Adds(16, 16);
    Pow2Adds(32, 32);
  }

  lemma Combine(q: nat, n: nat, r: nat, m: nat)
    requires q < n && r < m
    ensures q * m + r < n * m
  {
    assert n * m - q * m == m * (n - q);
    Bounds(m, n - q);
  }

  // ---------------------------------------------------------------------------
  // Words in memory
  // ---------------------------------------------------------------------------

  newtype byte = x: int | 0 <= x < 256

  /** The n low bytes of h, lowest first. */
  function ToBytes(h: nat, n: nat): (bs: seq<byte>)
    ensures |bs| == n
  {
    if n == 0 then [] else [(h % 256) as byte] + ToBytes(h / 256, n - 1)
  }

  /** Byte i holds the bits from 8 * i on. */
  lemma {:induction false} LowestFirst(h: nat, n: nat, i: nat)
    requires i < n
    ensures ToBytes(h, n)[i] as nat == h / Pow2(8 * i) % 256
    decreases i
  {
    if 0 < i {
      LowestFirst(h / 256, n - 1, i - 1);
      assert Pow2(8 * i) == 256 * Pow2(8 * (i - 1)) by { Pow2Adds(8, 8 * (i - 1)); assert Pow2(8) == 256; }
      DivideTwice(h, 256, Pow2(8 * (i - 1)));
    }
  }

  lemma DivideTwice(h: nat, a: nat, b: nat)
    requires 0 < a && 0 < b
    ensures h / a / b == h / (a * b)
  {
    var q, r, q', r' := h / a, h % a, h / a / b, h / a % b;
    assert h == a * q + r && q == b * q' + r';
    Combine(r', b, r, a);
    assert a * (b * q' + r') == (a * b) * q' + a * r';
    assert h == q' * (a * b) + (r' * a + r);
    TakeApart(q', a * b, r' * a + r);
  }

  function FromBytes(bs: seq<byte>): nat {
    if bs == [] then 0 else bs[0] as nat + 256 * FromBytes(bs[1..])
  }

  lemma {:induction false} BytesRoundTrip(h: nat, n: nat)
    requires h < Pow2(8 * n)
    ensures FromBytes(ToBytes(h, n)) == h
    decreases n
  {
    if 0 < n {
      assert Pow2(8 * n) == 256 * Pow2(8 * (n - 1)) by { Pow2Adds(8, 8 * (n - 1)); assert Pow2(8) == 256; }
      BytesRoundTrip(h / 256, n - 1);
      assert ToBytes(h, n)[1..] == ToBytes(h / 256, n - 1);
    }
  }
}
