/** The 32-bit "compact" floating form of difficulty targets, and the work it stands for. */
module Compact {
  import opened Powers

  type Uint32 = n: int | 0 <= n < 0x1_0000_0000

  const ONE_24 := 0x100_0000

  /** The number with so many bytes and such a mantissa at their front. */
  function Expand(mantissa: nat, exponent: nat): nat {
    if exponent <= 3 then Quotient(mantissa, Pow2(8 * (3 - exponent))) else Product(mantissa, Pow2(8 * (exponent - 3)))
  }

  /** The whole number a compact value stands for: 23 bits of mantissa, a sign bit, and
      a base-256 exponent that counts the bytes of the number. */
  function CompactToBig(compact: Uint32): (n: int)
  {
    var mantissa := compact % 0x80_0000;
    var negative := compact / 0x80_0000 % 2 == 1;
    var magnitude: int := Expand(mantissa, compact / ONE_24);
    if negative then -magnitude else magnitude
  }

  /** The expected number of hashes behind a target: 2^256 over one more than the target. */
  function CalcWork(bits: Uint32): (work: nat)
  {
    var target := CompactToBig(bits);
    if target <= 0 then 0 else Pow2(256) / (target + 1)
  }

  /** How many bytes a number takes. */
  function ByteLen(n: nat): nat {
    if n == 0 then 0 else 1 + ByteLen(n / 256)
  }

  /** The first three of so many bytes. */
  function Scaled(n: nat, exponent: nat): nat {
    if exponent <= 3 then Product(n, Pow2(8 * (3 - exponent))) else Quotient(n, Pow2(8 * (exponent - 3)))
  }

  lemma SmallPowers()
    ensures Pow2(0) == 1 && Pow2(8) == 256 && Pow2(16) == 0x1_0000 && Pow2(24) == ONE_24
  {
  }

  lemma {:induction false} ByteLenBounds(n: nat)
    requires n > 0
    ensures ByteLen(n) >= 1 && Pow2(8 * (ByteLen(n) - 1)) <= n < Pow2(8 * ByteLen(n))
  {
    if n < 256 {
      assert ByteLen(n) == 1 && Pow2(8) == 256;
    } else {
      ByteLenBounds(n / 256);
      var e := ByteLen(n / 256);
      EightMore(e - 1);
      EightMore(e);
    }
  }

  lemma EightMore(k: nat)
    ensures Pow2(8 * (k + 1)) == 256 * Pow2(8 * k)
  {
    Pow2Add(8, 8 * k);
    assert Pow2(8) == 256;
  }

  lemma {:induction false} ByteLenFits(n: nat, k: nat)
    requires n < Pow2(8 * k)
    ensures ByteLen(n) <= k
    decreases k
  {
    if n > 0 && k > 0 {
      EightMore(k - 1);
      ByteLenFits(n / 256, k - 1);
    }
  }

  // ----- Nonlinear steps -----

  lemma Regroup(r: nat, u: nat)
    ensures 256 * r * u == r * (256 * u) && 256 * (r + 1) * u == r * (256 * u) + 256 * u
  {
  }

  lemma DivDiv(n: nat, u: nat)
    requires u > 0
    ensures n / u / 256 == n / (256 * u)
  {
    var q := n / u;
    var r := q / 256;
    DivBounds(n, u);
    MulLe(256 * r, q, u);
    MulLe(q + 1, 256 * (r + 1), u);
    Regroup(r, u);
    QuotientUnique(n, 256 * u, r, n - r * (256 * u));
  }

  lemma QuotientUnique(n: nat, d: nat, q: nat, r: nat)
    requires d > 0 && n == q * d + r && r < d
    ensures n / d == q
  {
    var k := n / d;
    DivBounds(n, d);
    if k < q {
      MulLe(k + 1, q, d);
    } else if q < k {
      MulLe(q + 1, k, d);
    }
  }

  lemma QuotientExact(m: nat, u: nat)
    requires u > 0
    ensures m * u / u == m
  {
    QuotientUnique(m * u, u, m, 0);
  }

  // ----- Packing -----

  /** Compacts a number of at most 256 bits: its first three bytes and how many bytes it
      has, shifted by one byte when the first bit would read as a sign. */
  function BigToCompact(n: nat): (compact: Uint32)
    requires n < Pow2(256)
  {
    if n == 0 then 0
    else
      var exponent, mantissa := ByteLen(n), Scaled(n, ByteLen(n));
      ScaledBounds(n);
      ByteLenFits(n, 32);
      if mantissa >= 0x80_0000 then (exponent + 1) * ONE_24 + mantissa / 256 else exponent * ONE_24 + mantissa
  }

  lemma ScaledBounds(n: nat)
    requires n > 0
    ensures 0x1_0000 <= Scaled(n, ByteLen(n)) < ONE_24
  {
    hide Pow2, ByteLen, Quotient, Product;
    SmallPowers();
    ByteLenBounds(n);
    var e := ByteLen(n);
    if e <= 3 {
      SmallScaled(n, e);
    } else {
      Pow2Add(8 * (e - 3), 16);
      Pow2Add(8 * (e - 3), 24);
      assert 8 * (e - 3) + 16 == 8 * (e - 1) && 8 * (e - 3) + 24 == 8 * e;
      QuotientBounds(n, Pow2(8 * (e - 3)), 0x1_0000, ONE_24);
    }
  }

  lemma SmallScaled(n: nat, e: nat)
    requires 1 <= e <= 3 && Pow2(8 * (e - 1)) <= n < Pow2(8 * e)
    ensures 0x1_0000 <= Scaled(n, e) < ONE_24
  {
    hide Pow2;
    SmallPowers();
  }

  lemma QuotientBounds(n: nat, u: nat, lo: nat, hi: nat)
    requires u > 0 && u * lo <= n < u * hi
    ensures lo <= Quotient(n, u) < hi
  {
    var q := n / u;
    DivBounds(n, u);
    if q < lo {
      MulLe(q + 1, lo, u);
    } else if q >= hi {
      MulLe(hi, q, u);
    }
  }

  /** The exponent and the mantissa that packing settles on. */
  ghost predicate Packs(n: nat, e: nat, m: nat) {
    e >= 1 && m == Scaled(n, e) && 0x8000 <= m < 0x80_0000
  }

  lemma ScaledShift(n: nat, e: nat)
    requires e >= 1
    ensures Scaled(n, e) / 256 == Scaled(n, e + 1)
  {
    hide Pow2;
    SmallPowers();
    if e >= 3 {
      var u := Pow2(8 * (e - 3));
      EightMore(e - 3);
      DivDiv(n, u);
    }
  }

  lemma Packed(n: nat) returns (e: nat, m: nat)
    requires 0 < n < Pow2(256)
    ensures Packs(n, e, m) && BigToCompact(n) == e * ONE_24 + m && e <= 33
  {
    ScaledBounds(n);
    ByteLenBounds(n);
    ByteLenFits(n, 32);
    e, m := ByteLen(n), Scaled(n, ByteLen(n));
    if m >= 0x80_0000 {
      ScaledShift(n, e);
      e, m := e + 1, m / 256;
    }
  }

  // ----- What packing loses -----

  lemma Unpack(e: nat, m: nat)
    requires e <= 0xff && m < 0x80_0000
    ensures CompactToBig(e * ONE_24 + m) == Expand(m, e)
  {
    var compact := e * ONE_24 + m;
    assert compact / ONE_24 == e && compact % 0x80_0000 == m && compact / 0x80_0000 == 2 * e;
  }

  lemma ExpandScaled(n: nat, e: nat, m: nat)
    requires Packs(n, e, m)
    ensures Expand(m, e) <= n && n - Expand(m, e) <= n / 0x8000
    ensures Scaled(Expand(m, e), e) == m
  {
    hide Pow2;
    if e <= 3 {
      QuotientExact(n, Pow2(8 * (3 - e)));
    } else {
      var u := Pow2(8 * (e - 3));
      DivBounds(n, u);
      QuotientExact(m, u);
      MulLe(0x8000, m, u);
    }
  }

  lemma {:induction false} ScaledFalls(n: nat, e: nat, e': nat)
    requires 1 <= e < e'
    ensures Scaled(n, e') <= Scaled(n, e) / 256
    decreases e'
  {
    hide Scaled;
    ScaledShift(n, e' - 1);
    if e < e' - 1 {
      ScaledFalls(n, e, e' - 1);
    }
  }

  lemma ScaledMonotone(a: nat, b: nat, e: nat)
    requires a <= b
    ensures Scaled(a, e) <= Scaled(b, e)
  {
    hide Pow2;
    if e <= 3 {
      MulLe(a, b, Pow2(8 * (3 - e)));
    } else {
      QuotientMonotone(a, b, Pow2(8 * (e - 3)));
    }
  }

  lemma QuotientMonotone(a: nat, b: nat, u: nat)
    requires a <= b && u > 0
    ensures a / u <= b / u
  {
    DivBounds(a, u);
    DivBounds(b, u);
    if a / u > b / u {
      MulLe(b / u + 1, a / u, u);
    }
  }

  /** A larger number packs to a larger or equal exponent. */
  lemma PacksInOrder(a: nat, e: nat, m: nat, b: nat, e': nat, m': nat)
    requires a <= b && Packs(a, e, m) && Packs(b, e', m')
    ensures e < e' || (e == e' && m <= m')
  {
    hide Scaled;
    ScaledMonotone(a, b, e);
    if e > e' {
      ScaledFalls(b, e', e);
    }
  }

  /** Packing rounds down, by at most one part in 2^15. */
  lemma PackingRoundsDown(n: nat)
    requires n < Pow2(256)
    ensures 0 <= CompactToBig(BigToCompact(n)) <= n && n - CompactToBig(BigToCompact(n)) <= n / 0x8000
  {
    hide BigToCompact, Pow2, Scaled;
    if n > 0 {
      var e, m := Packed(n);
      Unpack(e, m);
      ExpandScaled(n, e, m);
    } else {
      PackZero();
    }
  }

  lemma PackZero()
    ensures 0 < Pow2(256) && BigToCompact(0) == 0 && CompactToBig(0) == 0
  {
    hide Pow2;
    SmallPowers();
  }

  /** Packing keeps the order. */
  lemma PackingMonotone(a: nat, b: nat)
    requires a <= b < Pow2(256)
    ensures BigToCompact(a) <= BigToCompact(b)
  {
    hide BigToCompact, Pow2, Scaled, ByteLen;
    if a == 0 {
      PackZero();
    } else {
      var e, m := Packed(a);
      var e', m' := Packed(b);
      PacksInOrder(a, e, m, b, e', m');
    }
  }

  /** Packing again changes nothing. */
  lemma PackingStable(n: nat)
    requires n < Pow2(256)
    ensures 0 <= CompactToBig(BigToCompact(n)) < Pow2(256)
    ensures BigToCompact(CompactToBig(BigToCompact(n))) == BigToCompact(n)
  {
    hide BigToCompact, Pow2, Scaled, ByteLen, CompactToBig;
    PackingRoundsDown(n);
    if n == 0 {
      PackZero();
    } else {
      var e, m := Packed(n);
      Unpack(e, m);
      ExpandScaled(n, e, m);
      var back := Expand(m, e);
      ScaledPositive(back, e, m);
      var e', m' := Packed(back);
      PacksInOrder(back, e', m', back, e, m);
      PacksInOrder(back, e, m, back, e', m');
    }
  }

  /** What packing makes of a larger number is not smaller. */
  lemma RoundingMonotone(a: nat, b: nat)
    requires a <= b < Pow2(256)
    ensures CompactToBig(BigToCompact(a)) <= CompactToBig(BigToCompact(b))
  {
    hide BigToCompact, Pow2, CompactToBig;
    PackingRoundsDown(a);
    PackingRoundsDown(b);
    PackingStable(a);
    PackingStable(b);
    var a', b' := CompactToBig(BigToCompact(a)), CompactToBig(BigToCompact(b));
    PackingMonotone(a', b);
    if b' < a' {
      PackingMonotone(b', a');
    }
  }

  /** A number that some compact value stands for packs without loss. */
  lemma PackingExact(e: nat, m: nat)
    requires e <= 0xff && m < 0x80_0000 && Expand(m, e) < Pow2(256)
    ensures CompactToBig(BigToCompact(Expand(m, e))) == Expand(m, e)
  {
    hide BigToCompact, Pow2, Scaled, CompactToBig, Expand;
    var r := Expand(m, e);
    if r == 0 {
      PackZero();
    } else {
      var e', m' := Packed(r);
      Unpack(e', m');
      ExpandScaled(r, e', m');
      NothingCutOff(e, m, e', m');
    }
  }

  /** The packed form keeps every byte of such a number. */
  lemma NothingCutOff(e: nat, m: nat, e': nat, m': nat)
    requires m < 0x80_0000 && Packs(Expand(m, e), e', m')
    ensures Expand(m', e') == Expand(m, e)
  {
    hide Pow2;
    var r := Expand(m, e);
    if e' <= 3 {
      QuotientExact(r, Pow2(8 * (3 - e')));
    } else {
      var u := Pow2(8 * (e' - 3));
      DivBounds(r, u);
      ExponentFits(e, m, e', m');
      var k := Pow2(8 * (e - e'));
      Pow2Add(8 * (e - e'), 8 * (e' - 3));
      assert 8 * (e - e') + 8 * (e' - 3) == 8 * (e - 3);
      assert r == m * (k * u) == (m * k) * u;
      QuotientExact(m * k, u);
    }
  }

  lemma ExponentFits(e: nat, m: nat, e': nat, m': nat)
    requires m < 0x80_0000 && Packs(Expand(m, e), e', m') && e' > 3
    ensures e >= e'
  {
    hide Pow2;
    SmallPowers();
    var r, u := Expand(m, e), Pow2(8 * (e' - 3));
    DivBounds(r, u);
    MulLe(0x8000, m', u);
    EightMore(e' - 4);
    Pow2Grows(0, 8 * (e' - 4));
    if e < e' {
      if e <= 3 {
        SmallQuotient(m, Pow2(8 * (3 - e)));
      } else {
        Pow2Grows(8 * (e - 3), 8 * (e' - 4));
        MulLe(m, 0x7f_ffff, Pow2(8 * (e - 3)));
      }
    }
  }

  lemma SmallQuotient(m: nat, d: nat)
    requires d > 0
    ensures Quotient(m, d) <= m
  {
    var q := Quotient(m, d);
    DivBounds(m, d);
    MulLe(1, d, q);
  }

  /** Packing rounds to the largest number not above it that any compact value stands for. */
  lemma PackingIsBest(n: nat, bits: Uint32)
    requires n < Pow2(256) && 0 <= CompactToBig(bits) <= n
    ensures CompactToBig(bits) <= CompactToBig(BigToCompact(n)) <= n
  {
    hide BigToCompact, Pow2, Expand;
    var r := CompactToBig(bits);
    PackingRoundsDown(n);
    if r > 0 {
      var e, m := bits / ONE_24, bits % 0x80_0000;
      assert r == Expand(m, e);
      PackingExact(e, m);
      RoundingMonotone(r, n);
    }
  }

  lemma ScaledPositive(n: nat, e: nat, m: nat)
    requires Packs(n, e, m)
    ensures n > 0
  {
    hide Pow2;
  }

  // ----- What a compact value means -----

  /** The exponent, the sign bit and the mantissa put together. */
  function Bits(exponent: nat, negative: bool, mantissa: nat): Uint32
    requires exponent <= 0xff && mantissa < 0x80_0000
  {
    exponent * ONE_24 + (if negative then 0x80_0000 else 0) + mantissa
  }

  /** Every compact value is put together in one way. */
  lemma BitsSplit(bits: Uint32)
    ensures bits / ONE_24 <= 0xff && bits == Bits(bits / ONE_24, bits / 0x80_0000 % 2 == 1, bits % 0x80_0000)
  {
  }

  lemma BitsParts(e: nat, negative: bool, m: nat)
    requires e <= 0xff && m < 0x80_0000
    ensures
      var bits := Bits(e, negative, m);
      bits / ONE_24 == e && bits % 0x80_0000 == m && (bits / 0x80_0000 % 2 == 1 <==> negative)
  {
    var bits := Bits(e, negative, m);
    assert bits / 0x80_0000 == 2 * e + if negative then 1 else 0;
  }

  /** The number is the mantissa times 256 to the exponent less three, rounded towards zero,
      with the sign. */
  lemma CompactMeans(e: nat, negative: bool, m: nat)
    requires e <= 0xff && m < 0x80_0000
    ensures
      var n := CompactToBig(Bits(e, negative, m));
      var size := if negative then -n else n;
      && size >= 0 && (e >= 3 ==> size == m * Pow2(8 * (e - 3)))
      && (e < 3 ==> size * Pow2(8 * (3 - e)) <= m < (size + 1) * Pow2(8 * (3 - e)))
  {
    hide Pow2;
    SmallPowers();
    BitsParts(e, negative, m);
    if e < 3 {
      DivBounds(m, Pow2(8 * (3 - e)));
    }
  }

  // ----- What work means -----

  /** The expected number of hashes for a target: 2^256 parted among one more than the target,
      rounded down. */
  ghost predicate IsWork(target: int, work: nat) {
    if target <= 0 then work == 0
    else work * (target + 1) <= Pow2(256) < (work + 1) * (target + 1)
  }

  lemma WorkMeans(bits: Uint32)
    ensures IsWork(CompactToBig(bits), CalcWork(bits))
  {
    hide Pow2, CompactToBig;
    var target := CompactToBig(bits);
    if target > 0 {
      DivBounds(Pow2(256), target + 1);
    }
  }

  /** A smaller positive target never has less work. */
  lemma HarderIsMoreWork(bits: Uint32, bits': Uint32)
    requires 0 < CompactToBig(bits) <= CompactToBig(bits')
    ensures CalcWork(bits) >= CalcWork(bits')
  {
    hide Pow2, CompactToBig, CalcWork;
    WorkMeans(bits);
    WorkMeans(bits');
    MoreParts(CalcWork(bits'), CalcWork(bits), CompactToBig(bits') + 1, CompactToBig(bits) + 1, Pow2(256));
  }

  lemma MoreParts(w: nat, w': nat, d: nat, d': nat, whole: nat)
    requires d >= d' && w * d <= whole < (w' + 1) * d'
    ensures w <= w'
  {
    if w > w' {
      MulLe(w' + 1, w, d');
      MulLe(d', d, w);
    }
  }
}
