/** Retargeting: the difficulty that the next block must have. */
module Difficulty {
  import opened BlockTree
  import opened Compact
  import opened Options
  import opened Powers

  /** The network's parameters; times are in seconds. */
  datatype Params = Params(
    powLimit: nat,
    powLimitBits: Uint32,
    targetTimespan: int,
    adjustmentFactor: int,
    blocksPerRetarget: int,
    reduceMinDifficulty: bool,
    minDiffReductionTime: int,
    hdCoinType: nat)

  ghost predicate ValidParams(p: Params) {
    && p.powLimit < Pow2(256) && 0 <= CompactToBig(p.powLimitBits) <= p.powLimit
    && p.targetTimespan > 0 && p.adjustmentFactor >= 1 && p.blocksPerRetarget >= 1
  }

  function MinTimespan(p: Params): int
    requires p.adjustmentFactor >= 1 && p.targetTimespan >= 0
  {
    Quotient(p.targetTimespan, p.adjustmentFactor)
  }

  function MaxTimespan(p: Params): int {
    p.targetTimespan * p.adjustmentFactor
  }

  function Clamp(t: int, lo: int, hi: int): int {
    if t < lo then lo else if t > hi then hi else t
  }

  function Min(a: nat, b: nat): nat {
    if a <= b then a else b
  }

  /** The old target scaled by how long the last stretch took, within limits. */
  function NewTarget(timespan: int, prior: nat, p: Params): (n: nat)
    requires ValidParams(p)
    ensures n <= p.powLimit
  {
    TimespansOrdered(p);
    Min(p.powLimit, Quotient(Product(prior, Clamp(timespan, MinTimespan(p), MaxTimespan(p))), p.targetTimespan))
  }

  lemma TimespansOrdered(p: Params)
    requires ValidParams(p)
    ensures 0 <= MinTimespan(p) <= p.targetTimespan <= MaxTimespan(p)
  {
    hide Pow2, CompactToBig;
    MulLe(1, p.adjustmentFactor, p.targetTimespan);
    QuotientSmaller(p.targetTimespan, p.adjustmentFactor);
  }

  lemma QuotientSmaller(n: nat, d: nat)
    requires d >= 1
    ensures Quotient(n, d) <= n
  {
    var q := Quotient(n, d);
    DivBounds(n, d);
    MulLe(1, d, q);
  }

  function ComputeNextTarget(timespan: int, currentDiff: Uint32, p: Params): (bits: Uint32)
    requires ValidParams(p) && CompactToBig(currentDiff) >= 0
  {
    BigToCompact(NewTarget(timespan, CompactToBig(currentDiff), p))
  }

  lemma NewTargetMonotone(t: int, t': int, prior: nat, p: Params)
    requires ValidParams(p) && t <= t'
    ensures NewTarget(t, prior, p) <= NewTarget(t', prior, p)
  {
    hide Pow2, CompactToBig;
    TimespansOrdered(p);
    var c, c' := Clamp(t, MinTimespan(p), MaxTimespan(p)), Clamp(t', MinTimespan(p), MaxTimespan(p));
    MulLe(c, c', prior);
    assert Product(prior, c) <= Product(prior, c');
    QuotientMonotone(Product(prior, c), Product(prior, c'), p.targetTimespan);
  }

  /** The new target is at most the adjustment factor times the old one. */
  lemma NewTargetBound(t: int, prior: nat, p: Params)
    requires ValidParams(p)
    ensures NewTarget(t, prior, p) <= prior * p.adjustmentFactor
  {
    hide Pow2, CompactToBig;
    TimespansOrdered(p);
    var c, hi := Clamp(t, MinTimespan(p), MaxTimespan(p)), MaxTimespan(p);
    MulLe(c, hi, prior);
    assert Product(prior, c) <= Product(prior, hi) == prior * p.adjustmentFactor * p.targetTimespan;
    QuotientMonotone(Product(prior, c), Product(prior, hi), p.targetTimespan);
    QuotientExact(prior * p.adjustmentFactor, p.targetTimespan);
  }

  lemma LossMonotone(a: nat, b: nat)
    requires a <= b
    ensures a - a / 0x8000 <= b - b / 0x8000
  {
  }

  /** Whatever the timespan, the retargeted difficulty decodes to a target within the proof
      of work limit and within the adjustment factor, and rounding takes at most one part
      in 2^15 off what the shortest timespan would give. */
  lemma RetargetBounds(timespan: int, bits: Uint32, p: Params)
    requires ValidParams(p) && CompactToBig(bits) >= 0
    ensures
      var prior, next := CompactToBig(bits), CompactToBig(ComputeNextTarget(timespan, bits, p));
      var least := NewTarget(MinTimespan(p), prior, p);
      && 0 <= next <= p.powLimit && next <= prior * p.adjustmentFactor
      && next >= least - least / 0x8000
  {
    hide Pow2, CompactToBig, NewTarget, BigToCompact;
    var prior := CompactToBig(bits);
    var n, least := NewTarget(timespan, prior, p), NewTarget(MinTimespan(p), prior, p);
    PackingRoundsDown(n);
    NewTargetBound(timespan, prior, p);
    ShortestIsLeast(timespan, prior, p);
    LossMonotone(least, n);
  }

  lemma ShortestIsLeast(timespan: int, prior: nat, p: Params)
    requires ValidParams(p)
    ensures NewTarget(MinTimespan(p), prior, p) <= NewTarget(timespan, prior, p)
  {
    hide Pow2, CompactToBig;
    TimespansOrdered(p);
    var lo := MinTimespan(p);
    if timespan >= lo {
      NewTargetMonotone(lo, timespan, prior, p);
    } else {
      assert Clamp(timespan, lo, MaxTimespan(p)) == Clamp(lo, lo, MaxTimespan(p));
    }
  }

  /** A longer stretch never makes the next one harder. */
  lemma RetargetMonotone(t: int, t': int, bits: Uint32, p: Params)
    requires ValidParams(p) && CompactToBig(bits) >= 0 && t <= t'
    ensures ComputeNextTarget(t, bits, p) <= ComputeNextTarget(t', bits, p)
  {
    hide Pow2, CompactToBig, NewTarget, BigToCompact;
    var prior := CompactToBig(bits);
    NewTargetMonotone(t, t', prior, p);
    PackingMonotone(NewTarget(t, prior, p), NewTarget(t', prior, p));
  }

  /** A stretch that took exactly the target time leaves a packed difficulty as it is. */
  lemma RetargetFixpoint(n: nat, p: Params)
    requires ValidParams(p) && n <= p.powLimit
    ensures CompactToBig(BigToCompact(n)) >= 0
    ensures ComputeNextTarget(p.targetTimespan, BigToCompact(n), p) == BigToCompact(n)
  {
    hide Pow2, CompactToBig, BigToCompact;
    PackingRoundsDown(n);
    PackingStable(n);
    TimespansOrdered(p);
    QuotientExact(CompactToBig(BigToCompact(n)), p.targetTimespan);
  }

  // ----- The easiest difficulty after some time -----

  function Power(b: nat, e: nat): (r: nat) {
    if e == 0 then 1 else Product(b, Power(b, e - 1))
  }

  lemma {:induction false} PowerPositive(b: nat, e: nat)
    requires b >= 1
    ensures Power(b, e) >= 1
  {
    if e > 0 {
      PowerPositive(b, e - 1);
      MulLe(1, b, Power(b, e - 1));
    }
  }

  /** How many retargets, each after the longest stretch, fit a duration, rounded up. */
  function Rounds(duration: int, longest: int): (k: nat)
    requires longest > 0
    decreases if duration > 0 then duration else 0
  {
    if duration <= 0 then 0 else 1 + Rounds(duration - longest, longest)
  }

  lemma {:induction false} RoundsCeiling(duration: int, longest: int)
    requires longest > 0 && duration >= 0
    ensures (Rounds(duration, longest) - 1) * longest < duration <= Rounds(duration, longest) * longest ||
      duration == Rounds(duration, longest) == 0
    decreases duration
  {
    if duration > longest {
      RoundsCeiling(duration - longest, longest);
    } else if duration > 0 {
      assert Rounds(duration - longest, longest) == 0;
    }
  }

  /** The closed form: the target times the factor once for each round, within the limit. */
  function Easiest(target: nat, duration: int, p: Params): (n: nat)
    requires ValidParams(p)
    ensures n <= p.powLimit
  {
    TimespansOrdered(p);
    Min(p.powLimit, Product(target, Power(p.adjustmentFactor, Rounds(duration, MaxTimespan(p)))))
  }

  lemma EasiestStep(target: nat, duration: int, p: Params)
    requires ValidParams(p) && duration > 0
    ensures Easiest(target, duration, p) == Easiest(Product(target, p.adjustmentFactor), duration - MaxTimespan(p), p)
  {
    hide Pow2, CompactToBig;
    TimespansOrdered(p);
    var k := Rounds(duration - MaxTimespan(p), MaxTimespan(p));
    var f, g := p.adjustmentFactor, Power(p.adjustmentFactor, k);
    assert target * (f * g) == (target * f) * g;
  }

  lemma EasiestDone(target: nat, duration: int, p: Params)
    requires ValidParams(p) && (duration <= 0 || target >= p.powLimit)
    ensures Easiest(target, duration, p) == Min(p.powLimit, target)
  {
    hide Pow2, CompactToBig;
    TimespansOrdered(p);
    var g := Power(p.adjustmentFactor, Rounds(duration, MaxTimespan(p)));
    PowerPositive(p.adjustmentFactor, Rounds(duration, MaxTimespan(p)));
    MulLe(1, g, target);
  }

  /** Multiplies round after round, and stops early at the limit; the early stop does not
      show in the result. */
  method CalcEasiestDifficulty(bits: Uint32, duration: int, p: Params) returns (r: Uint32)
    requires ValidParams(p) && CompactToBig(bits) >= 0
    ensures r == if p.reduceMinDifficulty && duration > p.minDiffReductionTime then p.powLimitBits
                 else BigToCompact(Easiest(CompactToBig(bits), duration, p))
  {
    hide Pow2, Easiest, BigToCompact, CompactToBig, MaxTimespan;
    if p.reduceMinDifficulty {
      if duration > p.minDiffReductionTime {
        return p.powLimitBits;
      }
    }
    TimespansOrdered(p);
    var newTarget: nat, durationVal := CompactToBig(bits), duration;
    while durationVal > 0 && newTarget < p.powLimit
      invariant Easiest(newTarget, durationVal, p) == Easiest(CompactToBig(bits), duration, p)
      decreases durationVal
    {
      EasiestStep(newTarget, durationVal, p);
      newTarget := Product(newTarget, p.adjustmentFactor);
      durationVal := durationVal - MaxTimespan(p);
    }
    EasiestDone(newTarget, durationVal, p);
    if newTarget > p.powLimit {
      newTarget := p.powLimit;
    }
    return BigToCompact(newTarget);
  }

  // ----- What the easiest difficulty does not bound -----

  /** The target after one retarget for each timespan. */
  ghost function After(target: nat, spans: seq<int>, p: Params): (n: nat)
    requires ValidParams(p)
    decreases |spans|
  {
    if spans == [] then target
    else
      var n := NewTarget(spans[0], target, p);
      PackingRoundsDown(n);
      After(CompactToBig(BigToCompact(n)), spans[1..], p)
  }

  /** Over any run of retargets the target grows at most by the factor each time. */
  lemma {:induction false} AfterBound(target: nat, spans: seq<int>, p: Params)
    requires ValidParams(p)
    ensures After(target, spans, p) <= target * Power(p.adjustmentFactor, |spans|)
    decreases |spans|
  {
    hide Pow2, NewTarget, BigToCompact, CompactToBig;
    if spans != [] {
      var n := NewTarget(spans[0], target, p);
      PackingRoundsDown(n);
      NewTargetBound(spans[0], target, p);
      var next := CompactToBig(BigToCompact(n));
      AfterBound(next, spans[1..], p);
      var f, g := p.adjustmentFactor, Power(p.adjustmentFactor, |spans| - 1);
      MulLe(next, target * f, g);
      assert (target * f) * g == target * (f * g);
    }
  }

  /** A stretch as retargeting sees it. */
  function Seen(span: int, p: Params): (n: nat)
    requires ValidParams(p)
  {
    TimespansOrdered(p);
    Clamp(span, MinTimespan(p), MaxTimespan(p))
  }

  /** The stretches as retargeting sees them, multiplied. */
  ghost function Stretch(spans: seq<int>, p: Params): (n: nat)
    requires ValidParams(p)
    decreases |spans|
  {
    if spans == [] then 1 else Product(Seen(spans[0], p), Stretch(spans[1..], p))
  }

  ghost function RoundsOf(spans: seq<int>, p: Params): (n: nat)
    requires ValidParams(p)
  {
    TimespansOrdered(p);
    Rounds(Sum(spans), MaxTimespan(p))
  }

  ghost function Sum(spans: seq<int>): int
    decreases |spans|
  {
    if spans == [] then 0 else spans[0] + Sum(spans[1..])
  }

  /** (x t) y <= (a c) s, when x y <= m s and m t <= a c. */
  lemma ChainProducts(after: nat, y: nat, t: nat, m: nat, s: nat, a: nat, c: nat)
    requires after * y <= m * s && m * t <= a * c
    ensures after * Product(t, y) <= a * Product(c, s)
  {
    calc {
      after * Product(t, y);
      (after * y) * t;
    <= { MulLe(after * y, m * s, t); }
      (m * s) * t;
      (m * t) * s;
    <= { MulLe(m * t, a * c, s); }
      (a * c) * s;
      a * Product(c, s);
    }
  }

  /** One retarget gains at most its stretch over the target time. */
  lemma NewTargetStretch(span: int, target: nat, p: Params)
    requires ValidParams(p)
    ensures NewTarget(span, target, p) * p.targetTimespan <= target * Seen(span, p)
  {
    hide Pow2, CompactToBig;
    var c := Seen(span, p);
    var q := Quotient(Product(target, c), p.targetTimespan);
    DivBounds(Product(target, c), p.targetTimespan);
    MulLe(NewTarget(span, target, p), q, p.targetTimespan);
  }

  /** Over any run of retargets the target grows at most by the product of the stretches
      over the target time. */
  lemma {:induction false} AfterStretch(target: nat, spans: seq<int>, p: Params)
    requires ValidParams(p)
    ensures After(target, spans, p) * Power(p.targetTimespan, |spans|) <= target * Stretch(spans, p)
    decreases |spans|
  {
    hide Pow2, NewTarget, BigToCompact, CompactToBig;
    if spans != [] {
      var n, t := NewTarget(spans[0], target, p), p.targetTimespan;
      PackingRoundsDown(n);
      NewTargetStretch(spans[0], target, p);
      var next := CompactToBig(BigToCompact(n));
      AfterStretch(next, spans[1..], p);
      MulLe(next, n, t);
      ChainProducts(After(target, spans, p), Power(t, |spans| - 1), t, next, Stretch(spans[1..], p),
                    target, Seen(spans[0], p));
    }
  }

  lemma {:induction false} AfterWithinLimit(target: nat, spans: seq<int>, p: Params)
    requires ValidParams(p) && target <= p.powLimit
    ensures After(target, spans, p) <= p.powLimit
    decreases |spans|
  {
    hide Pow2, NewTarget, BigToCompact, CompactToBig;
    if spans != [] {
      var n := NewTarget(spans[0], target, p);
      PackingRoundsDown(n);
      AfterWithinLimit(CompactToBig(BigToCompact(n)), spans[1..], p);
    }
  }

  lemma Cancel(a: nat, b: nat, t: nat)
    requires t >= 1 && a * t <= b * t
    ensures a <= b
  {
    if a > b {
      MulLe(b + 1, a, t);
    }
  }

  /** The easiest difficulty bounds every run of retargets whose stretches, multiplied,
      come to no more than its own rounds of the longest stretch would. */
  lemma EasiestBounds(target: nat, spans: seq<int>, p: Params)
    requires ValidParams(p) && target <= p.powLimit
    requires Stretch(spans, p) <= Power(p.adjustmentFactor, RoundsOf(spans, p)) * Power(p.targetTimespan, |spans|)
    ensures After(target, spans, p) <= Easiest(target, Sum(spans), p)
  {
    hide Pow2, NewTarget, BigToCompact, CompactToBig, After, Power, Rounds, Stretch;
    var t, f := Power(p.targetTimespan, |spans|), Power(p.adjustmentFactor, RoundsOf(spans, p));
    AfterWithinLimit(target, spans, p);
    AfterStretch(target, spans, p);
    PowerPositive(p.targetTimespan, |spans|);
    MulLe(Stretch(spans, p), f * t, target);
    assert target * (f * t) == Product(target, f) * t;
    Cancel(After(target, spans, p), Product(target, f), t);
  }

  lemma {:induction false} PowerMonotone(b: nat, e: nat, e': nat)
    requires b >= 1 && e <= e'
    ensures Power(b, e) <= Power(b, e')
    decreases e'
  {
    if e < e' {
      PowerMonotone(b, e, e' - 1);
      MulLe(1, b, Power(b, e' - 1));
    }
  }

  lemma {:induction false} StretchBound(spans: seq<int>, p: Params)
    requires ValidParams(p)
    ensures Stretch(spans, p) <= Power(p.adjustmentFactor, |spans|) * Power(p.targetTimespan, |spans|)
    decreases |spans|
  {
    hide Pow2, CompactToBig, Product;
    if spans != [] {
      TimespansOrdered(p);
      StretchBound(spans[1..], p);
      var f, t, n := p.adjustmentFactor, p.targetTimespan, |spans| - 1;
      PairProducts(Seen(spans[0], p), Stretch(spans[1..], p), f, Power(f, n), t, Power(t, n));
    }
  }

  lemma PairProducts(c: nat, s: nat, f: nat, ff: nat, t: nat, tt: nat)
    requires c <= t * f && s <= ff * tt
    ensures Product(c, s) <= Product(f, ff) * Product(t, tt)
  {
    calc {
      Product(c, s);
    <= { MulLe(c, t * f, s); }
      (t * f) * s;
    <= { MulLe(s, ff * tt, t * f); }
      (t * f) * (ff * tt);
      Product(f, ff) * Product(t, tt);
    }
  }

  /** In particular it bounds as many retargets as it counts rounds. */
  lemma EasiestBoundsRounds(target: nat, spans: seq<int>, p: Params)
    requires ValidParams(p) && target <= p.powLimit
    requires |spans| <= RoundsOf(spans, p)
    ensures After(target, spans, p) <= Easiest(target, Sum(spans), p)
  {
    hide Pow2, NewTarget, BigToCompact, CompactToBig, After, Power, Rounds, Stretch, Easiest;
    var rounds := RoundsOf(spans, p);
    StretchBound(spans, p);
    PowerMonotone(p.adjustmentFactor, |spans|, rounds);
    MulLe(Power(p.adjustmentFactor, |spans|), Power(p.adjustmentFactor, rounds), Power(p.targetTimespan, |spans|));
    EasiestBounds(target, spans, p);
  }

  /** No retarget of the run meets the limit, or comes below 2^15 where packing and division
      lose more than two parts in 2^15 between them. */
  ghost predicate Clear(target: nat, spans: seq<int>, p: Params)
    requires ValidParams(p)
    decreases |spans|
  {
    spans != [] ==>
      var n := Quotient(Product(target, Seen(spans[0], p)), p.targetTimespan);
      && 0x8000 <= n <= p.powLimit
      && CompactToBig(BigToCompact(n)) >= 0 && Clear(CompactToBig(BigToCompact(n)), spans[1..], p)
  }

  /** What is left of a number of at least 2^15 after packing and of the division before it. */
  lemma LossBound(q: nat, next: nat)
    requires q >= 0x8000 && next >= q - q / 0x8000
    ensures next * 0x8001 >= 0x7fff * (q + 1)
  {
    LossMonotone(0x8000, q);
    assert next * 0x8000 >= 0x7fff * q;
  }

  /** One retarget that is clear of the limit gains at least its stretch over the target time,
      but for two parts in 2^15. */
  lemma ClearStep(span: int, target: nat, p: Params)
    requires ValidParams(p)
    requires 0x8000 <= Quotient(Product(target, Seen(span, p)), p.targetTimespan) <= p.powLimit
    ensures
      var n := NewTarget(span, target, p);
      && n == Quotient(Product(target, Seen(span, p)), p.targetTimespan)
      && CompactToBig(BigToCompact(n)) * (0x8001 * p.targetTimespan) >= target * (0x7fff * Seen(span, p))
  {
    hide Pow2, CompactToBig, BigToCompact;
    var c, t := Seen(span, p), p.targetTimespan;
    var q := Quotient(Product(target, c), t);
    PackingRoundsDown(q);
    LossBound(q, CompactToBig(BigToCompact(q)));
    DivBounds(Product(target, c), t);
    StepProducts(CompactToBig(BigToCompact(q)), q, t, target, c);
  }

  lemma StepProducts(next: nat, q: nat, t: nat, target: nat, c: nat)
    requires next * 0x8001 >= 0x7fff * (q + 1) && (q + 1) * t >= target * c
    ensures next * (0x8001 * t) >= target * (0x7fff * c)
  {
    MulLe(0x7fff * (q + 1), next * 0x8001, t);
    assert (0x7fff * (q + 1)) * t == 0x7fff * ((q + 1) * t);
    assert target * (0x7fff * c) == 0x7fff * (target * c);
    assert next * (0x8001 * t) == (next * 0x8001) * t;
  }

  /** A clear run gains at least the product of its stretches over the target time, but for two
      parts in 2^15 each time. */
  lemma {:induction false} ClearStretch(target: nat, spans: seq<int>, p: Params)
    requires ValidParams(p) && Clear(target, spans, p)
    ensures After(target, spans, p) * Power(0x8001 * p.targetTimespan, |spans|) >=
      target * Product(Power(0x7fff, |spans|), Stretch(spans, p))
    decreases |spans|
  {
    hide Pow2, NewTarget, BigToCompact, CompactToBig;
    if spans != [] {
      var t, c, k := 0x8001 * p.targetTimespan, 0x7fff * Seen(spans[0], p), |spans| - 1;
      ClearStep(spans[0], target, p);
      var next := CompactToBig(BigToCompact(NewTarget(spans[0], target, p)));
      ClearStretch(next, spans[1..], p);
      var s := Product(Power(0x7fff, k), Stretch(spans[1..], p));
      ChainProducts(target, c, s, next, t, After(target, spans, p), Power(t, k));
      StretchProducts(Power(0x7fff, k), Seen(spans[0], p), Stretch(spans[1..], p));
      assert Product(Power(t, k), t) == Power(t, |spans|);
    }
  }

  lemma StretchProducts(b: nat, c: nat, s: nat)
    ensures Product(Product(b, s), 0x7fff * c) == Product(0x7fff * b, Product(c, s))
  {
    assert (b * s) * (0x7fff * c) == (0x7fff * b) * (c * s);
  }

  /** The other way round: a clear run goes beyond the easiest difficulty when its stretches,
      multiplied and less two parts in 2^15 each, come to more than the rounds would. */
  lemma EasiestExceeded(target: nat, spans: seq<int>, p: Params)
    requires ValidParams(p) && target > 0 && Clear(target, spans, p)
    requires Power(0x7fff, |spans|) * Stretch(spans, p) >
      Power(p.adjustmentFactor, RoundsOf(spans, p)) * Power(0x8001 * p.targetTimespan, |spans|)
    ensures After(target, spans, p) > Easiest(target, Sum(spans), p)
  {
    hide Pow2, NewTarget, BigToCompact, CompactToBig, After, Power, Rounds, Stretch, Clear;
    var t, f := Power(0x8001 * p.targetTimespan, |spans|), Power(p.adjustmentFactor, RoundsOf(spans, p));
    ClearStretch(target, spans, p);
    Beyond(After(target, spans, p), target, f, t, Power(0x7fff, |spans|) * Stretch(spans, p));
  }

  lemma Beyond(after: nat, target: nat, f: nat, t: nat, s: nat)
    requires target > 0 && after * t >= target * s && s > f * t
    ensures after > target * f
  {
    MulLe(f * t + 1, s, target);
    assert (target * f) * t == (f * t) * target;
    if after <= target * f {
      MulLe(after, target * f, t);
    }
  }

  /** A number of three bytes and 23 bits packs without loss. */
  lemma ThreeBytesExact(n: nat)
    requires 0x1_0000 <= n < 0x80_0000
    ensures n < Pow2(256) && CompactToBig(BigToCompact(n)) == n
  {
    hide Pow2, ByteLen;
    SmallPowers();
    Pow2Grows(24, 256);
    assert Scaled(n, 3) == n;
    var e, m := Packed(n);
    PacksInOrder(n, e, m, n, 3, n);
    PacksInOrder(n, 3, n, n, e, m);
    Unpack(3, n);
  }

  /** Over a total duration the easiest difficulty is not a bound: with factor four, four
      retargets that each took three times the target time go further than the three rounds
      that fit the same duration. */
  lemma EasiestIsNoBound()
    ensures
      var p := Params(0x7f_ffff, 0x300_0000 + 0x7f_ffff, 100, 4, 1, false, 0, 0);
      && ValidParams(p)
      && After(0x1_0000, [300, 300, 300, 300], p) == 81 * 0x1_0000
      && Easiest(0x1_0000, 300 + 300 + 300 + 300, p) == 64 * 0x1_0000
  {
    hide Pow2, BigToCompact, CompactToBig, ByteLen, Scaled;
    var p := Params(0x7f_ffff, 0x300_0000 + 0x7f_ffff, 100, 4, 1, false, 0, 0);
    ThreeBytesExact(0x7f_ffff);
    LimitExact();
    Tripled(0x1_0000, [300, 300, 300], p);
    Tripled(3 * 0x1_0000, [300, 300], p);
    Tripled(9 * 0x1_0000, [300], p);
    Tripled(27 * 0x1_0000, [], p);
    assert Rounds(0, 400) == 0 && Rounds(400, 400) == 1 && Rounds(800, 400) == 2 && Rounds(1200, 400) == 3;
    assert Power(4, 1) == 4 && Power(4, 2) == 16 && Power(4, 3) == 64;
  }

  lemma LimitExact()
    ensures CompactToBig(0x300_0000 + 0x7f_ffff) == 0x7f_ffff
  {
    Unpack(3, 0x7f_ffff);
    SmallPowers();
  }

  lemma Tripled(n: nat, rest: seq<int>, p: Params)
    requires ValidParams(p) && p.targetTimespan == 100 && p.adjustmentFactor == 4 && p.powLimit == 0x7f_ffff
    requires 0x1_0000 <= 3 * n < 0x80_0000
    ensures After(n, [300] + rest, p) == After(3 * n, rest, p)
  {
    hide Pow2, BigToCompact, CompactToBig;
    ThreeBytesExact(3 * n);
    assert ([300] + rest)[1..] == rest;
    assert NewTarget(300, n, p) == 3 * n by {
      QuotientExact(3 * n, 100);
    }
  }

  // ----- The required difficulty -----

  /** The bits of the last block, going back no further than the last retarget, that did not
      have the minimum difficulty. */
  function PrevBits(line: seq<BlockNode>, i: nat, p: Params): Uint32
    requires i < |line| && p.blocksPerRetarget >= 1
  {
    if i % p.blocksPerRetarget == 0 || line[i].bits != p.powLimitBits then line[i].bits
    else
      SmallMod(0, p.blocksPerRetarget);
      PrevBits(line, i - 1, p)
  }

  /** Whether the minimum difficulty rule is in force after a block at this height. */
  predicate Reduces(height: nat, p: Params) {
    p.reduceMinDifficulty || (p.hdCoinType == 390 && height < 50000)
  }

  /** What the next block on a line must have in its header. */
  function Required(line: seq<BlockNode>, newBlockTime: int, p: Params): Uint32
    requires ValidParams(p) && (line != [] ==> CompactToBig(line[|line| - 1].bits) >= 0)
  {
    if line == [] then p.powLimitBits
    else
      var h, last := |line| - 1, line[|line| - 1];
      if |line| % p.blocksPerRetarget != 0 then
        if Reduces(h, p) then
          if newBlockTime > last.timestamp + p.minDiffReductionTime then p.powLimitBits else PrevBits(line, h, p)
        else last.bits
      else
        FullStretch(|line|, p.blocksPerRetarget);
        ComputeNextTarget(last.timestamp - line[|line| - p.blocksPerRetarget].timestamp, last.bits, p)
  }

  /** At a retarget the line is at least one stretch long. */
  lemma FullStretch(n: nat, stretch: nat)
    requires stretch >= 1 && n >= 1 && n % stretch == 0
    ensures n >= stretch
  {
    if n < stretch {
      SmallMod(n, stretch);
    }
  }

  method FindPrevTestNetDifficulty(startNode: BlockNode, p: Params) returns (lastBits: Uint32)
    requires Rooted(startNode) && p.blocksPerRetarget >= 1
    ensures lastBits == PrevBits(Lineage(startNode), startNode.height, p)
  {
    ghost var line := Lineage(startNode);
    LineageIsLinked(startNode);
    var iterNode: BlockNode? := startNode;
    while iterNode != null && iterNode.height % p.blocksPerRetarget != 0 && iterNode.bits == p.powLimitBits
      invariant iterNode != null && iterNode.height < |line| && iterNode == line[iterNode.height]
      invariant PrevBits(line, iterNode.height, p) == PrevBits(line, startNode.height, p)
      decreases iterNode.height
    {
      assert line[iterNode.height].parent == if iterNode.height == 0 then null else line[iterNode.height - 1];
      SmallMod(0, p.blocksPerRetarget);
      iterNode := iterNode.parent;
    }
    lastBits := p.powLimitBits;
    if iterNode != null {
      lastBits := iterNode.bits;
    }
  }

  /** The required difficulty after any block of the tree.  The block that began the stretch
      is always found. */
  method CalcNextRequiredDifficulty(lastNode: BlockNode?, newBlockTime: int, p: Params) returns (r: Option<Uint32>)
    requires ValidParams(p) && (lastNode != null ==> Rooted(lastNode) && CompactToBig(lastNode.bits) >= 0)
    ensures r == Some(Required(if lastNode == null then [] else Lineage(lastNode), newBlockTime, p))
  {
    if lastNode == null {
      return Some(p.powLimitBits);
    }
    if (lastNode.height + 1) % p.blocksPerRetarget != 0 {
      if p.reduceMinDifficulty || (p.hdCoinType == 390 && lastNode.height < 50000) {
        var allowMinTime := lastNode.timestamp + p.minDiffReductionTime;
        if newBlockTime > allowMinTime {
          return Some(p.powLimitBits);
        }
        var bits := FindPrevTestNetDifficulty(lastNode, p);
        return Some(bits);
      }
      return Some(lastNode.bits);
    }
    FullStretch(lastNode.height + 1, p.blocksPerRetarget);
    var firstNode := RelativeAncestor(lastNode, p.blocksPerRetarget - 1);
    if firstNode == null {
      return None;
    }
    var actualTimespan := lastNode.timestamp - firstNode.timestamp;
    return Some(ComputeNextTarget(actualTimespan, lastNode.bits, p));
  }

  // ----- What the required difficulty means -----

  /** At a retarget: what the last stretch took, and the target before it. */
  ghost predicate Retargets(line: seq<BlockNode>, span: int, prior: int, p: Params) {
    && ValidParams(p) && line != [] && |line| % p.blocksPerRetarget == 0 && |line| >= p.blocksPerRetarget
    && span == line[|line| - 1].timestamp - line[|line| - p.blocksPerRetarget].timestamp
    && prior == CompactToBig(line[|line| - 1].bits) >= 0
  }

  /** At a retarget the new target is the old one times what the stretch took over what it
      should take, the ratio kept within the adjustment factor and the result within the
      limit; packing takes at most one part in 2^15 off. */
  lemma RequiredRetargets(line: seq<BlockNode>, time: int, p: Params, span: int, prior: int)
    requires Retargets(line, span, prior, p)
    ensures
      var t, f := p.targetTimespan, p.adjustmentFactor;
      var seen := if span < t / f then t / f else if span > t * f then t * f else span;
      var scaled := prior * seen / t;
      var want := if scaled < p.powLimit then scaled else p.powLimit;
      want - want / 0x8000 <= CompactToBig(Required(line, time, p)) <= want
  {
    hide Pow2, CompactToBig, BigToCompact;
    PackingRoundsDown(NewTarget(span, prior, p));
  }

  /** A stretch that took exactly the target time keeps the difficulty. */
  lemma RequiredFixpoint(line: seq<BlockNode>, time: int, p: Params, prior: int)
    requires Retargets(line, p.targetTimespan, prior, p) && prior <= p.powLimit
    requires BigToCompact(prior) == line[|line| - 1].bits
    ensures Required(line, time, p) == line[|line| - 1].bits
  {
    hide Pow2, CompactToBig, BigToCompact, ComputeNextTarget;
    RetargetFixpoint(prior, p);
  }

  /** A later last block, or an earlier first one, never makes the next stretch harder. */
  lemma RequiredMonotone(line: seq<BlockNode>, line': seq<BlockNode>, time: int, time': int, p: Params, span: int,
                         span': int, prior: int)
    requires Retargets(line, span, prior, p) && Retargets(line', span', prior, p) && span <= span'
    ensures CompactToBig(Required(line, time, p)) <= CompactToBig(Required(line', time', p))
    ensures Required(line, time, p) <= Required(line', time', p)
  {
    hide Pow2, CompactToBig, BigToCompact, NewTarget;
    NewTargetMonotone(span, span', prior, p);
    PackingMonotone(NewTarget(span, prior, p), NewTarget(span', prior, p));
    RoundingMonotone(NewTarget(span, prior, p), NewTarget(span', prior, p));
  }

  /** Off a retarget: the difficulty stays, unless the minimum rule is in force.  Under that
      rule a late block may have the minimum; another has the difficulty of the last block, at
      `j`, that began a stretch or did not use the rule. */
  lemma RequiredBetween(line: seq<BlockNode>, time: int, p: Params, j: nat)
    requires ValidParams(p) && line != [] && |line| % p.blocksPerRetarget != 0
    requires CompactToBig(line[|line| - 1].bits) >= 0
    requires j < |line| && (j % p.blocksPerRetarget == 0 || line[j].bits != p.powLimitBits)
    requires forall i :: j < i < |line| ==> i % p.blocksPerRetarget != 0 && line[i].bits == p.powLimitBits
    ensures
      var rule := p.reduceMinDifficulty || (p.hdCoinType == 390 && |line| - 1 < 50000);
      Required(line, time, p) ==
      if !rule then line[|line| - 1].bits
      else if time > line[|line| - 1].timestamp + p.minDiffReductionTime then p.powLimitBits
      else line[j].bits
  {
    hide Pow2, CompactToBig;
    PrevBitsAt(line, |line| - 1, p, j);
  }

  lemma {:induction false} PrevBitsAt(line: seq<BlockNode>, i: nat, p: Params, j: nat)
    requires p.blocksPerRetarget >= 1 && j <= i < |line|
    requires j % p.blocksPerRetarget == 0 || line[j].bits != p.powLimitBits
    requires forall m :: j < m <= i ==> m % p.blocksPerRetarget != 0 && line[m].bits == p.powLimitBits
    ensures PrevBits(line, i, p) == line[j].bits
  {
    if j < i {
      SmallMod(0, p.blocksPerRetarget);
      PrevBitsAt(line, i - 1, p, j);
    }
  }

  /** There always is such a block. */
  lemma {:induction false} BeganStretch(line: seq<BlockNode>, i: nat, p: Params) returns (j: nat)
    requires p.blocksPerRetarget >= 1 && i < |line|
    ensures j <= i && (j % p.blocksPerRetarget == 0 || line[j].bits != p.powLimitBits)
    ensures forall m :: j < m <= i ==> m % p.blocksPerRetarget != 0 && line[m].bits == p.powLimitBits
  {
    if i % p.blocksPerRetarget == 0 || line[i].bits != p.powLimitBits {
      j := i;
    } else {
      SmallMod(0, p.blocksPerRetarget);
      j := BeganStretch(line, i - 1, p);
    }
  }

  // ----- Whole lines -----

  /** If the block before it has a target at all, the block has the required difficulty. */
  ghost predicate Follows(line: seq<BlockNode>, i: nat, p: Params)
    requires ValidParams(p) && i < |line|
  {
    (i > 0 ==> CompactToBig(line[i - 1].bits) >= 0) ==> line[i].bits == Required(line[..i], line[i].timestamp, p)
  }

  ghost predicate WithinLimit(bits: Uint32, p: Params) {
    0 <= CompactToBig(bits) <= p.powLimit
  }

  lemma {:induction false} PrevBitsFound(line: seq<BlockNode>, i: nat, p: Params)
    requires i < |line| && p.blocksPerRetarget >= 1
    ensures exists j :: 0 <= j <= i && PrevBits(line, i, p) == line[j].bits
  {
    if i % p.blocksPerRetarget != 0 && line[i].bits == p.powLimitBits {
      SmallMod(0, p.blocksPerRetarget);
      PrevBitsFound(line, i - 1, p);
    } else {
      assert PrevBits(line, i, p) == line[i].bits;
    }
  }

  lemma RequiredWithinLimit(line: seq<BlockNode>, time: int, p: Params)
    requires ValidParams(p) && forall i :: 0 <= i < |line| ==> WithinLimit(line[i].bits, p)
    requires line != [] ==> CompactToBig(line[|line| - 1].bits) >= 0
    ensures WithinLimit(Required(line, time, p), p)
  {
    hide Pow2, CompactToBig, ComputeNextTarget;
    if line != [] {
      var last := line[|line| - 1];
      assert WithinLimit(last.bits, p);
      PrevBitsFound(line, |line| - 1, p);
      if |line| % p.blocksPerRetarget == 0 {
        FullStretch(|line|, p.blocksPerRetarget);
        RetargetBounds(last.timestamp - line[|line| - p.blocksPerRetarget].timestamp, last.bits, p);
      }
    }
  }

  /** Along every line of blocks that meet the required difficulty, every target is within
      the proof of work limit. */
  lemma {:induction false} LineWithinLimit(line: seq<BlockNode>, n: nat, p: Params)
    requires ValidParams(p) && n <= |line| && forall i :: 0 <= i < |line| ==> Follows(line, i, p)
    ensures forall i :: 0 <= i < n ==> WithinLimit(line[i].bits, p)
  {
    hide Pow2, CompactToBig, Required;
    if n > 0 {
      LineWithinLimit(line, n - 1, p);
      assert Follows(line, n - 1, p);
      assert n > 1 ==> WithinLimit(line[n - 2].bits, p);
      RequiredWithinLimit(line[..n - 1], line[n - 1].timestamp, p);
    }
  }
}
