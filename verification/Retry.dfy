/** Exponential backoff (retryx/retryx.go), over exact reals. */
module Retry {
  import opened Text

  const MAX_INT64: int := 0x7FFF_FFFF_FFFF_FFFF

  /** time.Duration */
  type Duration = d: int | -MAX_INT64 - 1 <= d <= MAX_INT64

  datatype Config = Config(baseDelay: Duration, factor: real, maxDelay: Duration, jitter: real)

  datatype Error = NegativeDelay | BadFactor | BadJitter | NegativeAttempt | BadSample

  /** The product, under a name so that proofs can rest on its laws alone. */
  function Times(x: real, y: real): real {
    x * y
  }

  function Pow(f: real, n: nat): real {
    if n == 0 then 1.0 else Times(f, Pow(f, n - 1))
  }

  /** The jitter multiplier for a sample. */
  function Multiplier(c: Config, sample: real): real {
    if c.jitter > 0.0 then 1.0 - c.jitter + Times(2.0 * c.jitter, sample) else 1.0
  }

  /** The delay before jitter. */
  function Grown(c: Config, attempt: nat): real {
    Times(c.baseDelay as real, Pow(c.factor, attempt))
  }

  /** The delay before it is capped and rounded. */
  function Raw(c: Config, attempt: nat, sample: real): real {
    Times(Grown(c, attempt), Multiplier(c, sample))
  }

  /** The cap, the saturation and the conversion to whole nanoseconds. */
  function Settle(c: Config, raw: real): int {
    var capped := if c.maxDelay > 0 && raw > c.maxDelay as real then c.maxDelay as real else raw;
    if capped > MAX_INT64 as real then MAX_INT64 else capped.Floor
  }

  /** Delay.  `random` is what the random function would return, none for a nil function. */
  function Delay(c: Config, attempt: int, random: Option<real>): Result<int, Error> {
    if c.baseDelay < 0 || c.maxDelay < 0 then Err(NegativeDelay)
    else if c.factor <= 0.0 then Err(BadFactor)
    else if c.jitter < 0.0 || c.jitter > 1.0 then Err(BadJitter)
    else if attempt < 0 then Err(NegativeAttempt)
    else
      var sample := if random.Some? then random.value else 0.5;
      if c.jitter > 0.0 && (sample < 0.0 || sample > 1.0) then Err(BadSample)
      else Ok(Settle(c, Raw(c, attempt, sample)))
  }

  /** What a configuration must be for any call to succeed. */
  predicate ValidConfig(c: Config) {
    c.baseDelay >= 0 && c.maxDelay >= 0 && c.factor > 0.0 && 0.0 <= c.jitter <= 1.0
  }

  predicate ValidSample(random: Option<real>) {
    random.Some? ==> 0.0 <= random.value <= 1.0
  }

  function Sample(random: Option<real>): real {
    if random.Some? then random.value else 0.5
  }

  // ------------------------------------------------------------------
  // Arithmetic
  // ------------------------------------------------------------------

  lemma TimesSign(x: real, y: real)
    ensures x >= 0.0 && y >= 0.0 ==> Times(x, y) >= 0.0
    ensures x > 0.0 && y > 0.0 ==> Times(x, y) > 0.0
  {
  }

  lemma TimesUnits(x: real)
    ensures Times(x, 0.0) == 0.0 && Times(x, 1.0) == x && Times(1.0, x) == x && Times(0.0, x) == 0.0
  {
  }

  lemma TimesAdds(x: real, y: real, z: real)
    ensures Times(x, y + z) == Times(x, y) + Times(x, z)
    ensures Times(y + z, x) == Times(y, x) + Times(z, x)
  {
  }

  lemma TimesCommutes(x: real, y: real)
    ensures Times(x, y) == Times(y, x)
  {
  }

  lemma TimesRegroups(x: real, y: real, z: real)
    ensures Times(Times(x, y), z) == Times(x, Times(y, z))
  {
  }

  lemma TimesMono(a: real, x: real, y: real)
    requires a >= 0.0 && x <= y
    ensures Times(a, x) <= Times(a, y)
  {
    hide Times;
    TimesSign(a, y - x);
    TimesAdds(a, x, y - x);
    assert x + (y - x) == y;
  }

  lemma Cancel(a: real, x: real, y: real)
    requires a > 0.0 && Times(a, x) <= Times(a, y)
    ensures x <= y
  {
    hide Times;
    TimesSign(a, x - y);
    TimesAdds(a, y, x - y);
    assert y + (x - y) == x;
  }

  lemma {:induction false} PowPositive(f: real, n: nat)
    requires f > 0.0
    ensures Pow(f, n) > 0.0
  {
    hide Times;
    if n > 0 {
      PowPositive(f, n - 1);
      TimesSign(f, Pow(f, n - 1));
    }
  }

  lemma {:induction false} PowMono(f: real, m: nat, n: nat)
    requires f >= 1.0 && m <= n
    ensures Pow(f, m) <= Pow(f, n)
    decreases n
  {
    hide Times;
    if m < n {
      PowMono(f, m, n - 1);
      PowPositive(f, n - 1);
      var p := Pow(f, n - 1);
      TimesMono(p, 1.0, f);
      TimesUnits(p);
      TimesCommutes(f, p);
    }
  }

  /** Bernoulli's inequality: powers outgrow every line. */
  lemma {:induction false} Bernoulli(f: real, n: nat)
    requires f >= 1.0
    ensures Pow(f, n) >= 1.0 + Times(n as real, f - 1.0)
  {
    hide Times;
    var x := f - 1.0;
    if n == 0 {
      TimesUnits(x);
    } else {
      var m := (n - 1) as real;
      var rise := Times(m, x);
      Bernoulli(f, n - 1);
      TimesMono(f, 1.0 + rise, Pow(f, n - 1));
      TimesAdds(f, 1.0, rise);
      TimesUnits(f);
      TimesAdds(rise, 1.0, x);
      TimesUnits(rise);
      assert 1.0 + x == f;
      TimesSign(m, x);
      TimesSign(x, rise);
      TimesAdds(x, m, 1.0);
      TimesUnits(x);
      assert m + 1.0 == n as real;
    }
  }

  lemma MultiplierBounds(c: Config, sample: real)
    requires ValidConfig(c) && 0.0 <= sample <= 1.0
    ensures 0.0 <= 1.0 - c.jitter <= Multiplier(c, sample) <= 1.0 + c.jitter
  {
    hide Times;
    TimesMono(2.0 * c.jitter, 0.0, sample);
    TimesMono(2.0 * c.jitter, sample, 1.0);
    TimesUnits(2.0 * c.jitter);
  }

  lemma MultiplierEnds(c: Config)
    ensures c.jitter > 0.0 ==> Multiplier(c, 0.0) == 1.0 - c.jitter && Multiplier(c, 1.0) == 1.0 + c.jitter
    ensures c.jitter >= 0.0 ==> Multiplier(c, 0.5) == 1.0
    ensures c.jitter == 0.0 ==> forall s :: Multiplier(c, s) == 1.0
  {
    assert Times(2.0 * c.jitter, 0.5) == c.jitter;
    hide Times;
    TimesUnits(2.0 * c.jitter);
  }

  lemma GrownPositive(c: Config, attempt: nat)
    requires ValidConfig(c)
    ensures Grown(c, attempt) >= 0.0
  {
    hide Times;
    PowPositive(c.factor, attempt);
    TimesSign(c.baseDelay as real, Pow(c.factor, attempt));
  }

  lemma RawNonNegative(c: Config, attempt: nat, sample: real)
    requires ValidConfig(c) && 0.0 <= sample <= 1.0
    ensures Raw(c, attempt, sample) >= 0.0
  {
    hide Times, Grown, Multiplier;
    GrownPositive(c, attempt);
    MultiplierBounds(c, sample);
    TimesSign(Grown(c, attempt), Multiplier(c, sample));
  }

  lemma SettleMono(c: Config, x: real, y: real)
    requires x <= y
    ensures Settle(c, x) <= Settle(c, y)
  {
  }

  /** The sample the result depends on: any will do without jitter. */
  function Effective(c: Config, random: Option<real>): real {
    if c.jitter > 0.0 then Sample(random) else 0.5
  }

  lemma DelayIsSettled(c: Config, attempt: int, random: Option<real>)
    requires Delay(c, attempt, random).Ok?
    ensures ValidConfig(c) && attempt >= 0 && 0.0 <= Effective(c, random) <= 1.0
    ensures Delay(c, attempt, random).value == Settle(c, Raw(c, attempt, Effective(c, random)))
  {
    hide Grown, Settle, Times;
    assert Multiplier(c, Sample(random)) == Multiplier(c, Effective(c, random));
    assert Raw(c, attempt, Sample(random)) == Raw(c, attempt, Effective(c, random));
  }

  // ------------------------------------------------------------------
  // What Delay promises
  // ------------------------------------------------------------------

  /** Exactly the documented arguments are accepted; a sample matters only with jitter. */
  lemma ErrorsExactly(c: Config, attempt: int, random: Option<real>)
    ensures Delay(c, attempt, random).Ok?
            <==> ValidConfig(c) && attempt >= 0 && (c.jitter > 0.0 ==> ValidSample(random))
  {
    hide Raw, Settle;
  }

  /** No delay is negative, above the maximum when one is set, or beyond what a Duration holds. */
  lemma Bounded(c: Config, attempt: int, random: Option<real>)
    requires Delay(c, attempt, random).Ok?
    ensures var d := Delay(c, attempt, random).value;
            0 <= d <= MAX_INT64 && (c.maxDelay > 0 ==> d <= c.maxDelay)
  {
    DelayIsSettled(c, attempt, random);
    hide Delay, Raw, Effective;
    RawNonNegative(c, attempt, Effective(c, random));
  }

  lemma SettleMeans(c: Config, raw: real)
    requires c.maxDelay >= 0
    ensures var limit := if c.maxDelay > 0 then c.maxDelay as int else 0x7FFF_FFFF_FFFF_FFFF;
            if raw > limit as real then Settle(c, raw) == limit
            else Settle(c, raw) as real <= raw < Settle(c, raw) as real + 1.0
  {
  }

  lemma RawIsProduct(c: Config, attempt: nat, sample: real)
    requires c.jitter >= 0.0
    ensures Raw(c, attempt, sample) ==
            c.baseDelay as real * Pow(c.factor, attempt) * (1.0 - c.jitter + 2.0 * c.jitter * sample)
  {
    hide Pow;
    if c.jitter == 0.0 {
      assert 2.0 * c.jitter * sample == 0.0;
    }
  }

  /** The delay, for every attempt and sample: base delay times power of the factor times jitter, in whole
      nanoseconds, or the maximum (the longest Duration if none is set) if that is less. */
  lemma ExactDelay(c: Config, attempt: nat, random: Option<real>)
    requires Delay(c, attempt, random).Ok?
    ensures var sample := if random.Some? then random.value else 0.5;
            var exact := c.baseDelay as real * Pow(c.factor, attempt) * (1.0 - c.jitter + 2.0 * c.jitter * sample);
            var limit := if c.maxDelay > 0 then c.maxDelay as int else 0x7FFF_FFFF_FFFF_FFFF;
            var d := Delay(c, attempt, random).value;
            if exact > limit as real then d == limit else d as real <= exact < d as real + 1.0
  {
    DelaySettles(c, attempt, random);
    hide Delay, Raw, Settle, Pow;
    RawIsProduct(c, attempt, Sample(random));
    SettleMeans(c, Raw(c, attempt, Sample(random)));
  }

  lemma DelaySettles(c: Config, attempt: nat, random: Option<real>)
    requires Delay(c, attempt, random).Ok?
    ensures ValidConfig(c) && Delay(c, attempt, random).value == Settle(c, Raw(c, attempt, Sample(random)))
  {
    hide Raw, Settle;
  }

  /** Powers: one, the factor, and the product of powers for a sum. */
  lemma {:induction false} PowAdds(f: real, m: nat, n: nat)
    ensures Pow(f, 0) == 1.0 && Pow(f, 1) == f && Pow(f, m + n) == Pow(f, m) * Pow(f, n)
  {
    TimesUnits(f);
    hide Times;
    assert Pow(f, 1) == Times(f, Pow(f, 0));
    if m == 0 {
      assert Pow(f, m) * Pow(f, n) == Pow(f, n);
    } else {
      PowAdds(f, m - 1, n);
      assert Pow(f, m + n) == Times(f, Pow(f, m - 1 + n));
      TimesIs(f, Pow(f, m - 1 + n));
      TimesIs(f, Pow(f, m - 1));
      Regroups(f, Pow(f, m - 1), Pow(f, n));
    }
  }

  lemma TimesIs(x: real, y: real)
    ensures Times(x, y) == x * y
  {
  }

  lemma Regroups(x: real, y: real, z: real)
    ensures x * (y * z) == x * y * z
  {
  }

  lemma RawAttemptMono(c: Config, m: nat, n: nat, sample: real)
    requires ValidConfig(c) && c.factor >= 1.0 && m <= n && 0.0 <= sample <= 1.0
    ensures Raw(c, m, sample) <= Raw(c, n, sample)
  {
    hide Times, Pow, Multiplier;
    var mult := Multiplier(c, sample);
    PowMono(c.factor, m, n);
    MultiplierBounds(c, sample);
    TimesMono(c.baseDelay as real, Pow(c.factor, m), Pow(c.factor, n));
    TimesMono(mult, Grown(c, m), Grown(c, n));
    TimesCommutes(mult, Grown(c, m));
    TimesCommutes(mult, Grown(c, n));
  }

  /** For the same sample a later attempt never waits less. */
  lemma MonotoneInAttempt(c: Config, m: nat, n: nat, random: Option<real>)
    requires c.factor >= 1.0 && m <= n && Delay(c, m, random).Ok?
    ensures Delay(c, n, random).Ok? && Delay(c, m, random).value <= Delay(c, n, random).value
  {
    ErrorsExactly(c, m, random);
    ErrorsExactly(c, n, random);
    hide Delay, Raw, Settle, Effective;
    DelayIsSettled(c, m, random);
    DelayIsSettled(c, n, random);
    var sample := Effective(c, random);
    RawAttemptMono(c, m, n, sample);
    SettleMono(c, Raw(c, m, sample), Raw(c, n, sample));
  }

  lemma RawSampleMono(c: Config, attempt: nat, s: real, t: real)
    requires ValidConfig(c) && 0.0 <= s <= t <= 1.0
    ensures Raw(c, attempt, s) <= Raw(c, attempt, t)
  {
    hide Times, Grown;
    TimesMono(2.0 * c.jitter, s, t);
    assert Multiplier(c, s) <= Multiplier(c, t);
    GrownPositive(c, attempt);
    TimesMono(Grown(c, attempt), Multiplier(c, s), Multiplier(c, t));
  }

  lemma DelayOfSample(c: Config, attempt: nat, random: Option<real>)
    requires ValidConfig(c) && ValidSample(random)
    ensures Delay(c, attempt, random) == Ok(Settle(c, Raw(c, attempt, Sample(random))))
  {
    hide Raw, Settle;
  }

  /** A larger sample never waits less, so every delay lies between those of the extreme samples. */
  lemma MonotoneInSample(c: Config, attempt: nat, s: real, t: real)
    requires ValidConfig(c) && 0.0 <= s <= t <= 1.0
    ensures Delay(c, attempt, Some(s)).Ok? && Delay(c, attempt, Some(t)).Ok?
    ensures Delay(c, attempt, Some(s)).value <= Delay(c, attempt, Some(t)).value
  {
    hide Delay, Raw, Settle;
    DelayOfSample(c, attempt, Some(s));
    DelayOfSample(c, attempt, Some(t));
    RawSampleMono(c, attempt, s, t);
    SettleMono(c, Raw(c, attempt, s), Raw(c, attempt, t));
  }

  lemma DelayOfNil(c: Config, attempt: nat)
    requires ValidConfig(c)
    ensures Delay(c, attempt, None) == Ok(Settle(c, Grown(c, attempt)))
  {
    MultiplierEnds(c);
    TimesUnits(Grown(c, attempt));
    hide Times, Grown, Settle, Multiplier;
  }

  /** A nil random function applies no adjustment, as if there were no jitter. */
  lemma NilIsNeutral(c: Config, attempt: nat)
    requires ValidConfig(c)
    ensures Delay(c, attempt, None) == Delay(c.(jitter := 0.0), attempt, None)
  {
    var plain := c.(jitter := 0.0);
    DelayOfNil(c, attempt);
    DelayOfNil(plain, attempt);
    assert Grown(plain, attempt) == Grown(c, attempt);
    hide Delay, Grown;
  }

  /** Before capping, jitter moves a delay by at most its fraction, and reaches both ends. */
  lemma JitterSpread(c: Config, attempt: nat, sample: real)
    requires ValidConfig(c) && 0.0 <= sample <= 1.0
    ensures var plain := Grown(c, attempt);
            && Raw(c.(jitter := 0.0), attempt, sample) == plain
            && Times(plain, 1.0 - c.jitter) <= Raw(c, attempt, sample) <= Times(plain, 1.0 + c.jitter)
            && Raw(c, attempt, 0.0) == Times(plain, 1.0 - c.jitter)
            && Raw(c, attempt, 1.0) == Times(plain, 1.0 + c.jitter)
  {
    var plain, none := Grown(c, attempt), c.(jitter := 0.0);
    assert Grown(none, attempt) == plain;
    hide Times, Grown, Multiplier;
    MultiplierEnds(c);
    MultiplierEnds(none);
    assert Multiplier(none, sample) == 1.0;
    TimesUnits(plain);
    GrownPositive(c, attempt);
    MultiplierBounds(c, sample);
    TimesMono(plain, 1.0 - c.jitter, Multiplier(c, sample));
    TimesMono(plain, Multiplier(c, sample), 1.0 + c.jitter);
    if c.jitter == 0.0 {
      assert Multiplier(c, 0.0) == 1.0 && Multiplier(c, 1.0) == 1.0;
    }
  }

  /** The first attempt waits the base delay, or the maximum if that is less. */
  lemma FirstDelay(c: Config)
    requires ValidConfig(c)
    ensures Delay(c, 0, None) == Ok(if 0 < c.maxDelay < c.baseDelay then c.maxDelay as int else c.baseDelay as int)
  {
    DelayOfNil(c, 0);
    TimesUnits(c.baseDelay as real);
    hide Delay, Times;
    assert Grown(c, 0) == c.baseDelay as real;
  }

  /** Whatever the samples, the next attempt waits at least as long. */
  ghost predicate GrowsRegardless(c: Config) {
    forall m: nat, n: nat, s: real, t: real :: n == m + 1 && 0.0 <= s <= 1.0 && 0.0 <= t <= 1.0 ==>
      Raw(c, m, s) <= Raw(c, n, t)
  }

  /** The factor outweighs the spread of the jitter. */
  predicate Outweighs(c: Config) {
    Times(c.factor, 1.0 - c.jitter) >= 1.0 + c.jitter
  }

  lemma GrownNext(c: Config, attempt: nat, x: real)
    ensures Times(Grown(c, attempt + 1), x) == Times(Grown(c, attempt), Times(c.factor, x))
  {
    var b, p := c.baseDelay as real, Pow(c.factor, attempt);
    assert Pow(c.factor, attempt + 1) == Times(c.factor, p);
    hide Times, Pow;
    TimesCommutes(c.factor, p);
    TimesRegroups(b, p, c.factor);
    TimesRegroups(Times(b, p), c.factor, x);
  }

  lemma RawGrows(c: Config, attempt: nat, s: real, t: real)
    requires ValidConfig(c) && Outweighs(c) && 0.0 <= s <= 1.0 && 0.0 <= t <= 1.0
    ensures Raw(c, attempt, s) <= Raw(c, attempt + 1, t)
  {
    hide Times, Grown, Multiplier;
    GrownPositive(c, attempt);
    MultiplierBounds(c, s);
    MultiplierBounds(c, t);
    TimesMono(c.factor, 1.0 - c.jitter, Multiplier(c, t));
    TimesMono(Grown(c, attempt), Multiplier(c, s), Times(c.factor, Multiplier(c, t)));
    GrownNext(c, attempt, Multiplier(c, t));
  }

  /** The extreme samples of the first two attempts. */
  lemma FirstTwo(c: Config)
    requires ValidConfig(c)
    ensures Raw(c, 0, 1.0) == Times(c.baseDelay as real, 1.0 + c.jitter)
    ensures Raw(c, 1, 0.0) == Times(c.baseDelay as real, Times(c.factor, 1.0 - c.jitter))
  {
    var b := c.baseDelay as real;
    assert Grown(c, 0) == Times(b, 1.0);
    hide Grown, Pow;
    JitterSpread(c, 0, 0.5);
    JitterSpread(c, 1, 0.5);
    hide Raw, Times;
    TimesUnits(b);
    GrownNext(c, 0, 1.0 - c.jitter);
  }

  /** Before rounding, attempts grow for arbitrary samples if and only if the factor outweighs the spread of the
      jitter. */
  lemma GrowsRegardlessIff(c: Config)
    requires ValidConfig(c) && c.baseDelay > 0
    ensures GrowsRegardless(c) <==> Outweighs(c)
  {
    hide Times, Raw;
    if Outweighs(c) {
      hide Outweighs;
      forall m: nat, n: nat, s: real, t: real | n == m + 1 && 0.0 <= s <= 1.0 && 0.0 <= t <= 1.0
        ensures Raw(c, m, s) <= Raw(c, n, t)
      {
        RawGrows(c, m, s, t);
      }
    }
    if GrowsRegardless(c) {
      assert Raw(c, 0, 1.0) <= Raw(c, 1, 0.0);
      FirstTwo(c);
      Cancel(c.baseDelay as real, 1.0 + c.jitter, Times(c.factor, 1.0 - c.jitter));
    }
  }

  lemma FactorAtLeastOne(c: Config)
    requires ValidConfig(c) && Outweighs(c)
    ensures c.factor >= 1.0
  {
    hide Times;
    TimesMono(c.factor, 1.0 - c.jitter, 1.0);
    TimesUnits(c.factor);
  }

  lemma RawGrowsFar(c: Config, m: nat, n: nat, s: real, t: real)
    requires ValidConfig(c) && Outweighs(c)
    requires m < n && 0.0 <= s <= 1.0 && 0.0 <= t <= 1.0
    ensures Raw(c, m, s) <= Raw(c, n, t)
  {
    hide Raw, Outweighs;
    FactorAtLeastOne(c);
    RawGrows(c, m, s, t);
    RawAttemptMono(c, m + 1, n, t);
  }

  /** Under that condition the delays themselves grow for arbitrary samples. */
  lemma MonotoneRegardless(c: Config, m: nat, n: nat, r: Option<real>, s: Option<real>)
    requires m < n && Delay(c, m, r).Ok? && Delay(c, n, s).Ok? && Outweighs(c)
    ensures Delay(c, m, r).value <= Delay(c, n, s).value
  {
    hide Delay, Raw, Settle, Effective, Outweighs;
    DelayIsSettled(c, m, r);
    DelayIsSettled(c, n, s);
    var x, y := Raw(c, m, Effective(c, r)), Raw(c, n, Effective(c, s));
    RawGrowsFar(c, m, n, Effective(c, r), Effective(c, s));
    SettleMono(c, x, y);
  }

  /** With a factor above one the maximum is reached, and kept, from an attempt that can be computed in advance. */
  lemma ReachesMaximum(c: Config, attempt: nat, random: Option<real>)
    requires ValidConfig(c) && ValidSample(random) && c.factor > 1.0 && c.baseDelay > 0 && c.maxDelay > 0
    requires Times(Times(c.baseDelay as real, Times(attempt as real, c.factor - 1.0)), Multiplier(c, Sample(random)))
             >= c.maxDelay as real
    ensures Delay(c, attempt, random) == Ok(c.maxDelay as int)
  {
    DelayOfSample(c, attempt, random);
    hide Delay, Times, Multiplier, Pow;
    var b, mult, line := c.baseDelay as real, Multiplier(c, Sample(random)), Times(attempt as real, c.factor - 1.0);
    Bernoulli(c.factor, attempt);
    MultiplierBounds(c, Sample(random));
    TimesMono(b, line, Pow(c.factor, attempt));
    TimesMono(mult, Times(b, line), Grown(c, attempt));
    TimesCommutes(mult, Times(b, line));
    TimesCommutes(mult, Grown(c, attempt));
    assert Raw(c, attempt, Sample(random)) >= c.maxDelay as real;
  }
}
