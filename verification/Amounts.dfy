/** The compressed form of an amount: trailing zeros become an exponent. */
module Amounts {
  import opened Vlq

  function Pow10(e: nat): (p: nat)
    ensures p > 0
  {
    if e == 0 then 1 else 10 * Pow10(e - 1)
  }

  /** The code of `m` with `e` zeros already taken off. */
  function CodeFrom(m: nat, e: nat): (x: nat)
    requires m > 0 && e <= 9
    ensures x > 0
    decreases 9 - e
  {
    if m % 10 == 0 && e < 9 then CodeFrom(m / 10, e + 1)
    else if e < 9 then 1 + 10 * (9 * (m / 10) + m % 10 - 1) + e
    else 10 + 10 * (m - 1)
  }

  function Compress(a: nat): (x: nat) {
    if a == 0 then 0 else CodeFrom(a, 0)
  }

  /** The number a code's mantissa stands for. */
  function Mantissa(q: nat, e: nat): (n: nat)
    ensures n > 0
  {
    if e < 9 then q / 9 * 10 + q % 9 + 1 else q + 1
  }

  function Decompress(x: nat): (a: nat) {
    if x == 0 then 0 else Mantissa((x - 1) / 10, (x - 1) % 10) * Pow10((x - 1) % 10)
  }

  // ----- The two are inverse -----

  lemma Times(a: nat, b: nat)
    ensures 10 * a * b == a * (10 * b)
  {
  }

  lemma {:induction false} DecompressCode(m: nat, e: nat)
    requires m > 0 && e <= 9
    ensures Decompress(CodeFrom(m, e)) == m * Pow10(e)
    decreases 9 - e
  {
    if m % 10 == 0 && e < 9 {
      DecompressCode(m / 10, e + 1);
      Times(m / 10, Pow10(e));
    } else {
      CodeParts(m, e);
    }
  }

  /** The digits a final code is made of. */
  lemma CodeParts(m: nat, e: nat)
    requires m > 0 && e <= 9 && (m % 10 == 0 ==> e == 9)
    ensures (CodeFrom(m, e) - 1) % 10 == e && Mantissa((CodeFrom(m, e) - 1) / 10, e) == m
  {
    var q := if e < 9 then 9 * (m / 10) + m % 10 - 1 else m - 1;
    assert CodeFrom(m, e) - 1 == 10 * q + e;
    if e < 9 {
      assert q / 9 == m / 10 && q % 9 == m % 10 - 1;
    }
  }

  lemma OneZero(m: nat, e: nat)
    requires m > 0 && e < 9
    ensures CodeFrom(10 * m, e) == CodeFrom(m, e + 1)
  {
    assert 10 * m % 10 == 0 && 10 * m / 10 == m;
  }

  /** Zeros put on come off again. */
  lemma {:induction false} StripZeros(n: nat, k: nat, e: nat)
    requires n > 0 && k <= e <= 9
    ensures n * Pow10(k) > 0 && CodeFrom(n * Pow10(k), e - k) == CodeFrom(n, e)
    decreases k
  {
    hide CodeFrom;
    if k > 0 {
      StripZeros(n, k - 1, e);
      assert n * Pow10(k) == 10 * (n * Pow10(k - 1));
      OneZero(n * Pow10(k - 1), e - k);
    }
  }

  lemma CodeOfMantissa(q: nat, e: nat)
    requires e <= 9
    ensures CodeFrom(Mantissa(q, e), e) == 10 * q + e + 1
  {
    if e < 9 {
      assert Mantissa(q, e) / 10 == q / 9 && Mantissa(q, e) % 10 == q % 9 + 1;
    }
  }

  /** Compression is a bijection on the naturals, with decompression as its inverse. */
  lemma CompressBijective(a: nat)
    ensures Decompress(Compress(a)) == a && Compress(Decompress(a)) == a
  {
    hide CodeFrom, Mantissa;
    if a > 0 {
      DecompressCode(a, 0);
      var q, e := (a - 1) / 10, (a - 1) % 10;
      StripZeros(Mantissa(q, e), e, e);
      CodeOfMantissa(q, e);
    }
  }

  /** The code of an amount with `e` zeros at its end, nine at most: a digit and what is before
      it for fewer than nine zeros, else all that is left. */
  lemma CompressMeans(n: nat, d: nat, e: nat)
    requires e <= 9 && (if e < 9 then 1 <= d <= 9 else d == 0 && n > 0)
    ensures e < 9 ==> Compress((10 * n + d) * Pow10(e)) == 1 + 10 * (9 * n + d - 1) + e
    ensures e == 9 ==> Compress(n * Pow10(9)) == 10 + 10 * (n - 1)
  {
    hide Pow10;
    if e < 9 {
      StripZeros(10 * n + d, e, e);
      assert (10 * n + d) / 10 == n && (10 * n + d) % 10 == d;
    } else {
      StripZeros(n, 9, 9);
    }
  }

  /** The documented codes, but for that of 50000000: the code written down for it, 47, stands
      for another amount. */
  lemma Examples()
    ensures Compress(0) == 0 && Compress(1000) == 4 && Compress(10000) == 5 && Compress(12345678) == 111111101
    ensures Compress(100000000) == 9 && Compress(500000000) == 49 && Compress(1000000000) == 10
    ensures Compress(50000000) == 48 && Decompress(47) == 5000000
  {
    hide Compress;
    assert Compress(0) == 0 by {
      NothingCompressed();
    }
    assert Pow10(3) == 1000 && Pow10(4) == 10000 && Pow10(0) == 1;
    assert Pow10(6) == 1000000 && Pow10(7) == 10000000 && Pow10(8) == 100000000 && Pow10(9) == 1000000000;
    CompressMeans(0, 1, 3);
    CompressMeans(0, 1, 4);
    CompressMeans(1234567, 8, 0);
    CompressMeans(0, 1, 8);
    CompressMeans(0, 5, 8);
    CompressMeans(1, 0, 9);
    CompressMeans(0, 5, 7);
  }

  lemma NothingCompressed()
    ensures Compress(0) == 0
  {
  }

  // ----- In 64 bits -----

  lemma {:induction false} CodeBound(m: nat, e: nat)
    requires m > 0 && e < 9
    ensures CodeFrom(m, e) <= 9 * m + 9
    decreases 9 - e
  {
    if m % 10 == 0 && e < 8 {
      CodeBound(m / 10, e + 1);
    }
  }

  /** The amounts whose code fits. */
  predicate Fits(a: Uint64) {
    a % 10 == 0 || 9 * a + a % 10 - 9 < TWO_64
  }

  /** A 64-bit amount has a 64-bit code exactly when it ends in a zero or is small enough. */
  lemma CompressFits(a: Uint64)
    ensures Compress(a) < TWO_64 <==> Fits(a)
  {
    if a > 0 && a % 10 == 0 {
      CodeBound(a / 10, 1);
    }
  }

  /** The loop of the compressor, in 64-bit arithmetic. */
  method CompressTxOutAmount(amount: Uint64) returns (r: Uint64)
    ensures r == Compress(amount) % TWO_64
  {
    if amount == 0 {
      return 0;
    }
    var m: Uint64, exponent := amount, 0;
    while m % 10 == 0 && exponent < 9
      invariant m > 0 && 0 <= exponent <= 9 && CodeFrom(m, exponent) == Compress(amount)
      decreases 9 - exponent
    {
      m := m / 10;
      exponent := exponent + 1;
    }
    if exponent < 9 {
      var lastDigit := m % 10;
      return (1 + 10 * (9 * (m / 10) + lastDigit - 1) + exponent) % TWO_64;
    }
    return (10 + 10 * (m - 1)) % TWO_64;
  }

  lemma ModTimes(n: nat, p: nat)
    ensures (n % TWO_64 * p) % TWO_64 == (n * p) % TWO_64
  {
    var q := n / TWO_64;
    assert n * p == n % TWO_64 * p + q * p * TWO_64;
    Multiple(n % TWO_64 * p, q * p);
  }

  lemma {:induction false} Multiple(a: nat, k: nat)
    ensures (a + k * TWO_64) % TWO_64 == a % TWO_64
    decreases k
  {
    if k > 0 {
      Multiple(a, k - 1);
      assert a + k * TWO_64 == (a + (k - 1) * TWO_64) + TWO_64;
    }
  }

  /** One turn of the decompressor moves a factor of ten over. */
  lemma TimesTen(r: Uint64, e: nat)
    requires e > 0
    ensures (r * 10 % TWO_64 * Pow10(e - 1)) % TWO_64 == (r * Pow10(e)) % TWO_64
  {
    ModTimes(r * 10, Pow10(e - 1));
    Times(r, Pow10(e - 1));
  }

  /** What the digits of a code stand for, and that this is a 64-bit number. */
  lemma Digits(x: Uint64)
    requires x > 0
    ensures
      var m, e := (x - 1) / 10, (x - 1) % 10;
      && Decompress(x) == Mantissa(m, e) * Pow10(e) && Mantissa(m, e) < TWO_64
      && Mantissa(m, e) == if e < 9 then m / 9 * 10 + (m % 9 + 1) else m + 1
  {
    hide Pow10;
    var m := (x - 1) / 10;
    assert m / 9 * 10 + m % 9 + 1 <= 2 * m + 1;
  }

  /** The loop of the decompressor, in 64-bit arithmetic. */
  method DecompressTxOutAmount(amount: Uint64) returns (r: Uint64)
    ensures r == Decompress(amount) % TWO_64
  {
    if amount == 0 {
      return 0;
    }
    hide Decompress, Mantissa, Pow10;
    Digits(amount);
    var exponent := (amount - 1) % 10;
    var m := (amount - 1) / 10;
    if exponent < 9 {
      var lastDigit := m % 9 + 1;
      r := m / 9 * 10 + lastDigit;
    } else {
      r := m + 1;
    }
    while exponent > 0
      invariant 0 <= exponent <= 9 && 0 <= r < TWO_64
      invariant (r * Pow10(exponent)) % TWO_64 == Decompress(amount) % TWO_64
    {
      TimesTen(r, exponent);
      r := r * 10 % TWO_64;
      exponent := exponent - 1;
    }
    TimesOne(r);
  }

  lemma TimesOne(r: Uint64)
    ensures (r * Pow10(0)) % TWO_64 == r
  {
  }

  // ----- Exactly the amounts that come back -----

  /** The code of an amount that ends in another digit than zero. */
  function Code(a: Uint64): int {
    9 * a + a % 10 - 9
  }

  lemma CodeIs(a: Uint64)
    requires a % 10 != 0
    ensures Compress(a) == Code(a) == 10 * (9 * (a / 10) + a % 10 - 1) + 1
  {
  }

  /** What a code that wrapped `q` times loses of its mantissa, with 10 k == q 2^64 + e. */
  function Offset(k: nat, carry: bool): nat {
    10 * (k / 9) + k % 9 + if carry then 1 else 0
  }

  lemma MantissaLess(n: nat, d: nat, k: nat, e: nat)
    requires 1 <= d <= 9 && e < 9 && 9 * n + d - 1 >= k
    ensures Mantissa(9 * n + d - 1 - k, e) == 10 * n + d - Offset(k, d - 1 < k % 9)
  {
    var q, k1, k0 := 9 * n + d - 1 - k, k / 9, k % 9;
    if d - 1 < k0 {
      NinthsOf(q, n - k1 - 1, d + 8 - k0);
    } else {
      NinthsOf(q, n - k1, d - 1 - k0);
    }
  }

  lemma NinthsOf(q: nat, a: int, b: nat)
    requires q == 9 * a + b && b < 9
    ensures q / 9 == a && q % 9 == b
  {
  }

  /** A code that wraps around decodes as a smaller mantissa with an exponent made up by the
      wrap. */
  lemma Wrapped(a: Uint64, q: nat, e: nat, k: nat)
    requires a % 10 != 0 && e < 9 && 10 * k == q * TWO_64 + e && q * TWO_64 < Code(a) < (q + 1) * TWO_64
    ensures Compress(a) % TWO_64 == Code(a) - q * TWO_64
    ensures
      var c := Offset(k, a % 10 - 1 < k % 9);
      c < a && Decompress(Compress(a) % TWO_64) == (a - c) * Pow10(e)
  {
    hide Compress, Decompress, Mantissa, Offset;
    CodeIs(a);
    var n, d := a / 10, a % 10;
    Rest(Code(a), q);
    DecompressIs(Code(a) - q * TWO_64, 9 * n + d - 1 - k, e);
    MantissaLess(n, d, k, e);
  }

  lemma DecompressIs(x: nat, q: nat, e: nat)
    requires x == 10 * q + e + 1 && e < 10
    ensures Decompress(x) == Mantissa(q, e) * Pow10(e)
  {
    assert (x - 1) / 10 == q && (x - 1) % 10 == e;
  }

  lemma Rest(c: nat, q: nat)
    requires q * TWO_64 <= c < (q + 1) * TWO_64
    ensures c % TWO_64 == c - q * TWO_64 && c / TWO_64 == q
  {
    Multiple(c - q * TWO_64, q);
  }

  /** Modulo 2^64 an equation (a - c) p == a has one solution when p - 1 has an inverse. */
  lemma OneSolution(a: Uint64, c: nat, p: nat, t: int, inv: nat, w: nat)
    requires (a - c) * p == a + t * TWO_64 && (p - 1) * inv == 1 + w * TWO_64
    ensures a == (c * p * inv) % TWO_64
  {
    var z := a * w - t * inv;
    calc {
      c * p * inv;
      (a * (p - 1) - t * TWO_64) * inv;
      a * ((p - 1) * inv) - t * inv * TWO_64;
      a + z * TWO_64;
    }
    AnyMultiple(a, z);
  }

  lemma AnyMultiple(a: Uint64, z: int)
    requires a + z * TWO_64 >= 0
    ensures (a + z * TWO_64) % TWO_64 == a
  {
    if z >= 0 {
      Multiple(a, z);
    } else {
      MulNegative(z);
    }
  }

  lemma MulNegative(z: int)
    requires z < 0
    ensures z * TWO_64 + TWO_64 <= 0
  {
  }

  /** The one amount that could come back after wrapping `q` times does not wrap `q` times. */
  lemma NeverBack(a: Uint64, q: nat, e: nat, k: nat, inv: nat, w: nat, r: Uint64, r': Uint64)
    requires a % 10 != 0 && e < 9 && 10 * k == q * TWO_64 + e && q * TWO_64 < Code(a) < (q + 1) * TWO_64
    requires (Pow10(e) - 1) * inv == 1 + w * TWO_64
    requires r == (Offset(k, false) * Pow10(e) * inv) % TWO_64 && r' == (Offset(k, true) * Pow10(e) * inv) % TWO_64
    requires !(q * TWO_64 < Code(r) < (q + 1) * TWO_64) && !(q * TWO_64 < Code(r') < (q + 1) * TWO_64)
    ensures Decompress(Compress(a) % TWO_64) % TWO_64 != a
  {
    hide Compress, Decompress, Pow10, Code, Offset;
    Wrapped(a, q, e, k);
    var c := Offset(k, a % 10 - 1 < k % 9);
    var v := Decompress(Compress(a) % TWO_64);
    if v % TWO_64 == a {
      OneSolution(a, c, Pow10(e), v / TWO_64, inv, w);
    }
  }

  lemma Residue(x: nat, m: nat, r: Uint64)
    requires x == r + m * TWO_64
    ensures x % TWO_64 == r
  {
    Multiple(r, m);
  }

  lemma Tens()
    ensures Pow10(2) == 100 && Pow10(4) == 1_0000 && Pow10(6) == 100_0000 && Pow10(8) == 1_0000_0000
  {
    assert Pow10(3) == 10 * Pow10(2) && Pow10(5) == 10 * Pow10(4) && Pow10(7) == 10 * Pow10(6);
  }

  lemma WrappedOnce(a: Uint64)
    requires a % 10 != 0 && 1 * TWO_64 < Code(a) < 2 * TWO_64
    ensures Decompress(Compress(a) % TWO_64) % TWO_64 != a
  {
    hide Compress, Decompress, Pow10;
    Tens();
    assert Offset(1844674407370955162, false) == 2049638230412172402 &&
      Offset(1844674407370955162, true) == 2049638230412172403;
    Residue(2049638230412172402 * 10000 * 13458245626333751279, 14953606251481945867176, 15288550632769423584);
    Residue(2049638230412172403 * 10000 * 13458245626333751279, 14953606251481945874472, 10300052185393623248);
    NeverBack(a, 1, 4, 1844674407370955162, 13458245626333751279, 7295, 15288550632769423584, 10300052185393623248);
  }

  lemma WrappedTwice(a: Uint64)
    requires a % 10 != 0 && 2 * TWO_64 < Code(a) < 3 * TWO_64
    ensures Decompress(Compress(a) % TWO_64) % TWO_64 != a
  {
    hide Compress, Decompress, Pow10;
    Tens();
    assert Offset(3689348814741910324, false) == 4099276460824344804 &&
      Offset(3689348814741910324, true) == 4099276460824344805;
    Residue(4099276460824344804 * 100000000 * 300153063250403071, 6670068072231179356278725, 14480868974329830400);
    Residue(4099276460824344805 * 100000000 * 300153063250403071, 6670068072231179357905858, 14781022037580233472);
    NeverBack(a, 2, 8, 3689348814741910324, 300153063250403071, 1627133, 14480868974329830400, 14781022037580233472);
  }

  lemma WrappedThrice(a: Uint64)
    requires a % 10 != 0 && 3 * TWO_64 < Code(a) < 4 * TWO_64
    ensures Decompress(Compress(a) % TWO_64) % TWO_64 != a
  {
    hide Compress, Decompress, Pow10;
    Tens();
    assert Offset(5534023222112865485, false) == 6148914691236517205 &&
      Offset(5534023222112865485, true) == 6148914691236517206;
    Residue(6148914691236517205 * 100 * 12670490878911611211, 422349695963720373677, 1925417731599313468);
    Residue(6148914691236517206 * 100 * 12670490878911611211, 422349695963720373745, 14595908610510924680);
    NeverBack(a, 3, 2, 5534023222112865485, 12670490878911611211, 68, 1925417731599313468, 14595908610510924680);
  }

  lemma WrappedFourTimes(a: Uint64)
    requires a % 10 != 0 && 4 * TWO_64 < Code(a) < 5 * TWO_64
    ensures Decompress(Compress(a) % TWO_64) % TWO_64 != a
  {
    hide Compress, Decompress, Pow10;
    Tens();
    assert Offset(7378697629483820647, false) == 8198552921648689607 &&
      Offset(7378697629483820647, true) == 8198552921648689608;
    Residue(8198552921648689607 * 1000000 * 1672254362768354751, 743224161230379889323260, 14161661572577611840);
    Residue(8198552921648689608 * 1000000 * 1672254362768354751, 743224161230379889413913, 15833915935345966592);
    NeverBack(a, 4, 6, 7378697629483820647, 1672254362768354751, 90653, 14161661572577611840, 15833915935345966592);
  }

  lemma WrappedFiveTimes(a: Uint64)
    requires a % 10 != 0 && 5 * TWO_64 < Code(a) < 6 * TWO_64
    ensures Decompress(Compress(a) % TWO_64) % TWO_64 != a
  {
    hide Compress, Decompress;
    Wrapped(a, 5, 0, 9223372036854775808);
  }

  lemma WrappedSixTimes(a: Uint64)
    requires a % 10 != 0 && 6 * TWO_64 < Code(a) < 7 * TWO_64
    ensures Decompress(Compress(a) % TWO_64) % TWO_64 != a
  {
    hide Compress, Decompress, Pow10;
    Tens();
    assert Offset(11068046444225730970, false) == 12297829382473034411 &&
      Offset(11068046444225730970, true) == 12297829382473034412;
    Residue(12297829382473034411 * 10000 * 13458245626333751279, 89721637508891675195765, 4486081875444583760);
    Residue(12297829382473034412 * 10000 * 13458245626333751279, 89721637508891675203060, 17944327501778335040);
    NeverBack(a, 6, 4, 11068046444225730970, 13458245626333751279, 7295, 4486081875444583760, 17944327501778335040);
  }

  lemma WrappedSevenTimes(a: Uint64)
    requires a % 10 != 0 && 7 * TWO_64 < Code(a) < 8 * TWO_64
    ensures Decompress(Compress(a) % TWO_64) % TWO_64 != a
  {
    hide Compress, Decompress, Pow10;
    Tens();
    assert Offset(12912720851596686132, false) == 14347467612885206813 &&
      Offset(12912720851596686132, true) == 14347467612885206814;
    Residue(14347467612885206813 * 100000000 * 300153063250403071, 23345238252809127745348407, 4266028162630124288);
    Residue(14347467612885206814 * 100000000 * 300153063250403071, 23345238252809127746975540, 4566181225880527360);
    NeverBack(a, 7, 8, 12912720851596686132, 300153063250403071, 1627133, 4266028162630124288, 4566181225880527360);
  }

  lemma WrappedEightTimes(a: Uint64)
    requires a % 10 != 0 && 8 * TWO_64 < Code(a) < 9 * TWO_64
    ensures Decompress(Compress(a) % TWO_64) % TWO_64 != a
  {
    hide Compress, Decompress, Pow10;
    Tens();
    assert Offset(14757395258967641293, false) == 16397105843297379214 &&
      Offset(14757395258967641293, true) == 16397105843297379215;
    Residue(16397105843297379214 * 100 * 12670490878911611211, 1126265855903254329851, 7432526512302726184);
    Residue(16397105843297379215 * 100 * 12670490878911611211, 1126265855903254329920, 1656273317504785780);
    NeverBack(a, 8, 2, 14757395258967641293, 12670490878911611211, 68, 7432526512302726184, 1656273317504785780);
  }

  /** An amount whose code wraps around does not come back. */
  lemma WrappedIsLost(a: Uint64)
    requires !Fits(a)
    ensures Decompress(Compress(a) % TWO_64) % TWO_64 != a
  {
    hide Decompress, Compress;
    CodeIs(a);
    var q := Code(a) / TWO_64;
    assert Code(a) % 2 == 1 && TWO_64 % 2 == 0 && 1 <= q <= 8;
    match q
    case 1 => WrappedOnce(a);
    case 2 => WrappedTwice(a);
    case 3 => WrappedThrice(a);
    case 4 => WrappedFourTimes(a);
    case 5 => WrappedFiveTimes(a);
    case 6 => WrappedSixTimes(a);
    case 7 => WrappedSevenTimes(a);
    case 8 => WrappedEightTimes(a);
  }

  /** Compressing and decompressing a 64-bit amount gives it back exactly when its code
      fits. */
  lemma AmountRoundTrip(a: Uint64)
    ensures Decompress(Compress(a) % TWO_64) % TWO_64 == a <==> Fits(a)
  {
    hide Compress, Decompress, Fits;
    CompressFits(a);
    CompressBijective(a);
    if !Fits(a) {
      WrappedIsLost(a);
    }
  }

  /** All the money there will ever be, in its smallest units. */
  const MAX_UNITS := 0x4000_0000 * 6_000_000_000

  const LEAST_LOST := 2049638230412172403

  /** The smallest amount that does not come back is about a third of all money. */
  lemma LeastLost(a: Uint64)
    ensures a < LEAST_LOST ==> Decompress(Compress(a) % TWO_64) % TWO_64 == a
    ensures Decompress(Compress(LEAST_LOST) % TWO_64) % TWO_64 != LEAST_LOST
    ensures MAX_UNITS / 4 < LEAST_LOST < MAX_UNITS / 3
  {
    hide Compress, Decompress;
    AmountRoundTrip(a);
    AmountRoundTrip(LEAST_LOST);
  }
}
