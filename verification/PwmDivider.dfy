/**
  The AST2600 PWM driver: the search for a clock divider and the packing of the
  result into the channel's registers, in the driver's own integer widths.
 */
module PwmDivider {
  import opened Options

  const NSEC_PER_SEC := 1_000_000_000
  const PWM_PERIOD_MAX := 255
  const ERANGE := 34

  /** u32 multiplication. */
  function Mul32(a: nat, b: nat): nat { a * b % TWO_32 }

  /** BIT(n) */
  function Bit(n: nat): (p: nat)
    ensures p >= 1
  {
    if n == 0 then 1 else 2 * Bit(n - 1)
  }

  lemma BitOf15()
    ensures Bit(15) == 32768
  {
    assert Bit(4) == 16;
    assert Bit(8) == 256;
    assert Bit(12) == 4096;
  }

  /** The tick of divider setting (`l`, `h`) without any wrap-around. */
  function Tick(clk: nat, l: nat, h: nat): nat {
    clk * Bit(h) * (l + 1)
  }

  /** The setting's longest period reaches `period`. */
  predicate Reaches(clk: nat, period: nat, l: nat, h: nat) {
    Tick(clk, l, h) * PWM_PERIOD_MAX >= period
  }

  /** (`l`, `h`) comes before (`l'`, `h'`) in the search. */
  predicate Before(l: nat, h: nat, l': nat, h': nat) {
    l < l' || (l == l' && h < h')
  }

  /** The setting the search has to find: the first one, `h` running fastest, that reaches the period. */
  ghost predicate FirstHit(clk: nat, period: nat, l: nat, h: nat) {
    && l <= 0xff && h <= 0xf && Reaches(clk, period, l, h)
    && forall l', h' | h' <= 0xf && Before(l', h', l, h) :: !Reaches(clk, period, l', h')
  }

  /** `tick_ns` as the driver computes it. */
  function Tick32(clk: nat, l: nat, h: nat): nat {
    Mul32(Mul32(clk, Bit(h)), l + 1)
  }

  /** The driver's test of a setting. */
  predicate Passes(clk: nat, period: nat, l: nat, h: nat) {
    Mul32(Tick32(clk, l, h), PWM_PERIOD_MAX) >= period
  }

  /** The setting the search stops at. */
  ghost predicate FirstPass(clk: nat, period: nat, l: nat, h: nat) {
    && l <= 0xff && h <= 0xf && Passes(clk, period, l, h)
    && forall l', h' | h' <= 0xf && Before(l', h', l, h) :: !Passes(clk, period, l', h')
  }

  /** Nothing wraps, or the wrapped product still passes at once. */
  predicate Sound(clk: nat, period: nat) {
    clk * PWM_PERIOD_MAX < TWO_32 || Mul32(clk, PWM_PERIOD_MAX) >= period
  }

  // ------------------------------------------------------------------ the tick of a setting

  lemma MulMonotone(x: nat, y: nat, b: nat)
    requires x <= y
    ensures x * b <= y * b
  {
    assert y * b == x * b + (y - x) * b;
  }

  lemma TickDoubles(clk: nat, l: nat, h: nat)
    ensures Tick(clk, l, h + 1) == 2 * Tick(clk, l, h)
  {
    assert clk * (2 * Bit(h)) == 2 * (clk * Bit(h));
    var x := clk * Bit(h);
    assert 2 * x * (l + 1) == 2 * (x * (l + 1));
  }

  lemma TickInBase(clk: nat, l: nat, h: nat)
    ensures Tick(clk, l, h) == (l + 1) * Tick(clk, 0, h)
  {
    assert Tick(clk, 0, h) == clk * Bit(h);
  }

  lemma {:induction false} TickGrowsInH(clk: nat, l: nat, h: nat, h': nat)
    requires h <= h'
    ensures Tick(clk, l, h) <= Tick(clk, l, h')
    decreases h'
  {
    if h < h' {
      TickGrowsInH(clk, l, h, h' - 1);
      TickDoubles(clk, l, h' - 1);
    }
  }

  lemma TickGrowsInL(clk: nat, l: nat, l': nat, h: nat)
    requires l <= l'
    ensures Tick(clk, l, h) <= Tick(clk, l', h)
  {
    TickInBase(clk, l, h);
    TickInBase(clk, l', h);
    var base := Tick(clk, 0, h);
    assert (l' + 1) * base == (l + 1) * base + (l' - l) * base;
  }

  // ------------------------------------------------------------------ settings by the longest period

  /** A setting stretches an undivided longest period of `base` to one that covers `period`. */
  predicate Covers(base: nat, period: nat, l: nat, h: nat) {
    Tick(base, l, h) >= period
  }

  ghost predicate FirstCover(base: nat, period: nat, l: nat, h: nat) {
    && l <= 0xff && h <= 0xf && Covers(base, period, l, h)
    && forall l', h' | h' <= 0xf && Before(l', h', l, h) :: !Covers(base, period, l', h')
  }

  lemma LongestPeriod(clk: nat, l: nat, h: nat)
    ensures Tick(clk * PWM_PERIOD_MAX, l, h) == Tick(clk, l, h) * PWM_PERIOD_MAX
  {
    var b, m := Bit(h), l + 1;
    assert clk * PWM_PERIOD_MAX * b == clk * b * PWM_PERIOD_MAX;
    assert clk * b * PWM_PERIOD_MAX * m == clk * b * m * PWM_PERIOD_MAX;
  }

  /** In exact arithmetic the undivided longest period is `clk * 255`. */
  lemma HitIsCover(clk: nat, period: nat, l: nat, h: nat)
    ensures FirstHit(clk, period, l, h) <==> FirstCover(clk * PWM_PERIOD_MAX, period, l, h)
  {
    hide Tick;
    forall l', h' ensures Reaches(clk, period, l', h') <==> Covers(clk * PWM_PERIOD_MAX, period, l', h') {
      LongestPeriod(clk, l', h');
    }
  }

  /** With divider `l` or more the slowest setting covers every period the driver accepts. */
  lemma SlowestCovers(base: nat, period: nat, l: nat)
    requires period <= NSEC_PER_SEC && (l + 1) * (base * 32768) >= NSEC_PER_SEC
    ensures Covers(base, period, l, 15)
  {
    TickInBase(base, l, 15);
    BitOf15();
  }

  /** One more divider step at most doubles the slowest tick. */
  lemma NextSlowest(clk: nat, l: nat)
    requires l >= 1
    ensures Tick(clk, l, 14) <= Tick(clk, l - 1, 15)
    ensures Tick(clk, l, 15) <= 2 * Tick(clk, l - 1, 15)
  {
    TickDoubles(clk, l, 14);
    TickInBase(clk, l, 15);
    TickInBase(clk, l - 1, 15);
    var base := Tick(clk, 0, 15);
    assert 2 * (l * base) == (l + 1) * base + (l - 1) * base;
  }

  /** The settings before one that is being tried have failed, given that its two predecessors have. */
  lemma AllBeforeFail(base: nat, period: nat, l: nat, h: nat)
    requires h <= 15
    requires l >= 1 ==> !Covers(base, period, l - 1, 15)
    requires h >= 1 ==> !Covers(base, period, l, h - 1)
    ensures forall l', h' | h' <= 0xf && Before(l', h', l, h) :: !Covers(base, period, l', h')
  {
    forall l', h' | h' <= 0xf && Before(l', h', l, h) ensures !Covers(base, period, l', h') {
      if l' == l {
        TickGrowsInH(base, l, h', h - 1);
      } else {
        TickGrowsInH(base, l', h', 15);
        TickGrowsInL(base, l', l - 1, 15);
      }
    }
  }

  // ------------------------------------------------------------------ machine width

  /** No product that the search forms for this setting leaves 32 bits. */
  predicate Fits(clk: nat, l: nat, h: nat) {
    Tick(clk, l, h) * PWM_PERIOD_MAX < TWO_32
  }

  /** A setting whose predecessors in the search have failed stretches the base to less than 32 bits. */
  lemma TriedSettingFits(base: nat, period: nat, l: nat, h: nat)
    requires base < TWO_32 && period <= NSEC_PER_SEC && h <= 15
    requires l >= 1 ==> !Covers(base, period, l - 1, 15)
    requires h >= 1 ==> !Covers(base, period, l, h - 1)
    ensures Tick(base, l, h) < TWO_32
  {
    if h >= 1 {
      TickDoubles(base, l, h - 1);
    } else if l >= 1 {
      NextSlowest(base, l);
      TickGrowsInH(base, l, 0, 15);
    } else {
      assert Tick(base, 0, 0) == base;
    }
  }

  /** Reducing a factor first does not change a product modulo 2^32. */
  lemma ReduceFirst(a: nat, b: nat)
    ensures a % TWO_32 * b % TWO_32 == a * b % TWO_32
  {
    var q, r := a / TWO_32, a % TWO_32;
    assert a * b == r * b + q * b * TWO_32 by {
      assert a == r + q * TWO_32;
      assert (r + q * TWO_32) * b == r * b + q * TWO_32 * b;
      assert q * TWO_32 * b == q * b * TWO_32;
    }
    AddMultiple(r * b, q * b);
  }

  lemma AddMultiple(x: nat, q: nat)
    ensures (x + q * TWO_32) % TWO_32 == x % TWO_32
  {
  }

  /** The driver's tick is the exact one modulo 2^32. */
  lemma Tick32Wraps(clk: nat, l: nat, h: nat)
    ensures Tick32(clk, l, h) == Tick(clk, l, h) % TWO_32
  {
    hide Bit;
    ReduceFirst(clk * Bit(h), l + 1);
  }

  /** The driver's test compares the period with the stretched undivided longest period, modulo 2^32. */
  lemma TestWraps(clk: nat, l: nat, h: nat)
    ensures Mul32(Tick32(clk, l, h), PWM_PERIOD_MAX) == Tick(Mul32(clk, PWM_PERIOD_MAX), l, h) % TWO_32
  {
    hide Bit, Tick, Tick32;
    Tick32Wraps(clk, l, h);
    ReduceFirst(Tick(clk, l, h), PWM_PERIOD_MAX);
    LongestPeriod(clk, l, h);
    TickOfWrapped(clk * PWM_PERIOD_MAX, l, h);
  }

  lemma TickOfWrapped(x: nat, l: nat, h: nat)
    ensures Tick(x % TWO_32, l, h) % TWO_32 == Tick(x, l, h) % TWO_32
  {
    hide Bit;
    var m := Bit(h) * (l + 1);
    ReduceFirst(x, m);
    assert x % TWO_32 * Bit(h) * (l + 1) == x % TWO_32 * m;
    assert x * Bit(h) * (l + 1) == x * m;
  }

  /**
    What the search has at machine width for the undivided longest period:
    `clk * 255` modulo 2^32. It never gets small, because 2^32 is one more than
    a multiple of 255.
   */
  lemma WrappedBase(clk: nat)
    requires 1 <= clk <= NSEC_PER_SEC
    ensures 196 <= Mul32(clk, PWM_PERIOD_MAX) < TWO_32
  {
    var q, r := clk * PWM_PERIOD_MAX / TWO_32, Mul32(clk, PWM_PERIOD_MAX);
    assert clk * PWM_PERIOD_MAX == q * TWO_32 + r;
    assert q <= 59;
    assert PWM_PERIOD_MAX * (clk - q * 16843009) == q + r;
  }

  /** The first setting that covers the period from the wrapped base is the first that passes the driver's test. */
  lemma CoverIsPass(clk: nat, period: nat, l: nat, h: nat)
    requires period <= NSEC_PER_SEC && FirstCover(Mul32(clk, PWM_PERIOD_MAX), period, l, h)
    ensures FirstPass(clk, period, l, h)
  {
    hide Tick, Tick32, Mul32, Before;
    var base := Mul32(clk, PWM_PERIOD_MAX);
    assert Mul32(Tick32(clk, l, h), PWM_PERIOD_MAX) == Tick(base, l, h) by {
      PredecessorsFail(base, period, l, h);
      TestWraps(clk, l, h);
      WrapsBelow(clk);
      TriedSettingFits(base, period, l, h);
    }
    forall l', h' | h' <= 0xf && Before(l', h', l, h) ensures !Passes(clk, period, l', h') {
      TestWraps(clk, l', h');
    }
  }

  lemma WrapsBelow(clk: nat)
    ensures Mul32(clk, PWM_PERIOD_MAX) < TWO_32
  {
  }

  lemma PredecessorsFail(base: nat, period: nat, l: nat, h: nat)
    requires FirstCover(base, period, l, h)
    ensures l <= 0xff && h <= 0xf
    ensures l >= 1 ==> !Covers(base, period, l - 1, 15)
    ensures h >= 1 ==> !Covers(base, period, l, h - 1)
  {
    assert l >= 1 ==> Before(l - 1, 15, l, h);
    assert h >= 1 ==> Before(l, h - 1, l, h);
  }

  // ------------------------------------------------------------------ the search

  /**
    The nested search, for every clock the probe can find: it terminates at the
    first setting that passes the driver's test, by divider 156 at the latest.
    It is the setting asked for, with its exact tick, if and only if nothing
    wraps or the wrapped product passes at once.
   */
  method SearchDivider(clk: nat, period: nat) returns (divL: nat, divH: nat, tickNs: nat)
    requires 1 <= clk <= NSEC_PER_SEC
    requires period <= NSEC_PER_SEC
    ensures FirstPass(clk, period, divL, divH) && FirstCover(Mul32(clk, PWM_PERIOD_MAX), period, divL, divH)
    ensures tickNs == Tick32(clk, divL, divH) >= 1
    ensures divL <= 156
    ensures FirstHit(clk, period, divL, divH) && tickNs == Tick(clk, divL, divH) <==> Sound(clk, period)
    ensures clk * PWM_PERIOD_MAX < TWO_32 ==>
              && divL <= 119
              && forall l, h | h <= 0xf && (Before(l, h, divL, divH) || (l == divL && h == divH)) :: Fits(clk, l, h)
  {
    hide Tick, Tick32, Bit, Mul32, FirstHit, FirstPass, FirstCover, Before, Sound, Fits;
    ghost var base := Mul32(clk, PWM_PERIOD_MAX);
    WrappedBase(clk);
    divL, divH, tickNs := 0, 0, 0;
    while divL <= 0xff
      invariant divL <= 156
      invariant divL >= 1 ==> !Covers(base, period, divL - 1, 15)
      decreases 157 - divL
    {
      divH := 0;
      while divH <= 0xf
        invariant divH <= 16
        invariant divH >= 1 ==> !Covers(base, period, divL, divH - 1) && tickNs == Tick32(clk, divL, divH - 1)
        invariant divH >= 1 ==> Mul32(tickNs, PWM_PERIOD_MAX) == Tick(base, divL, divH - 1)
        decreases 16 - divH
      {
        TriedSettingFits(base, period, divL, divH);
        TestWraps(clk, divL, divH);
        tickNs := Mul32(Mul32(clk, Bit(divH)), divL + 1);
        assert tickNs == Tick32(clk, divL, divH) by { Tick32Is(clk, divL, divH); }
        if Mul32(tickNs, PWM_PERIOD_MAX) >= period {
          break;
        }
        divH := divH + 1;
      }
      if Mul32(tickNs, PWM_PERIOD_MAX) >= period {
        FoundFirst(base, period, divL, divH);
        break;
      }
      SlowestFails(base, period, divL, 196, 156);
      divL := (divL + 1) % 0x100;
    }
    CoverIsPass(clk, period, divL, divH);
    PassedTickPositive(clk, period, divL, divH);
    SearchResultExactly(clk, period, divL, divH);
    if clk * PWM_PERIOD_MAX < TWO_32 {
      NarrowSearch(clk, period, divL, divH);
    }
  }

  lemma Tick32Is(clk: nat, l: nat, h: nat)
    ensures Tick32(clk, l, h) == Mul32(Mul32(clk, Bit(h)), l + 1)
  {
  }

  lemma FoundFirst(base: nat, period: nat, l: nat, h: nat)
    requires l <= 0xff && h <= 0xf && Covers(base, period, l, h)
    requires l >= 1 ==> !Covers(base, period, l - 1, 15)
    requires h >= 1 ==> !Covers(base, period, l, h - 1)
    ensures FirstCover(base, period, l, h)
  {
    AllBeforeFail(base, period, l, h);
  }

  /** A divider whose slowest setting fails is below `last`, from which on even the smallest base covers. */
  lemma SlowestFails(base: nat, period: nat, l: nat, least: nat, last: nat)
    requires period <= NSEC_PER_SEC && base >= least && (last + 1) * (least * 32768) >= NSEC_PER_SEC
    requires !Covers(base, period, l, 15)
    ensures l < last
  {
    if l >= last {
      MulMonotone(last + 1, l + 1, least * 32768);
      MulMonotone(least * 32768, base * 32768, l + 1);
      assert (l + 1) * (least * 32768) == least * 32768 * (l + 1);
      assert (l + 1) * (base * 32768) == base * 32768 * (l + 1);
      SlowestCovers(base, period, l);
    }
  }

  /** The driver never divides by a zero tick. */
  lemma PassedTickPositive(clk: nat, period: nat, l: nat, h: nat)
    requires 1 <= clk < TWO_32 && FirstPass(clk, period, l, h)
    ensures Tick32(clk, l, h) >= 1
  {
    if Tick32(clk, l, h) == 0 {
      assert period == 0;
      assert Before(0, 0, l, h) || (l == 0 && h == 0);
      assert Passes(clk, 0, 0, 0);
    }
  }

  /** Without division the longest period is the base. */
  lemma FirstIsUndivided(base: nat, period: nat, l: nat, h: nat)
    requires FirstCover(base, period, l, h)
    ensures l == 0 && h == 0 <==> base >= period
  {
    assert Tick(base, 0, 0) == base;
    if base >= period && !(l == 0 && h == 0) {
      assert Before(0, 0, l, h);
      assert Covers(base, period, 0, 0);
    }
  }

  lemma UndividedTick(clk: nat)
    requires clk < TWO_32
    ensures Tick32(clk, 0, 0) == Tick(clk, 0, 0) == clk
  {
  }

  /** Where the search ends up is where it should, with the exact tick, exactly under the condition. */
  lemma SearchResultExactly(clk: nat, period: nat, l: nat, h: nat)
    requires clk < TWO_32 && period <= NSEC_PER_SEC
    requires FirstCover(Mul32(clk, PWM_PERIOD_MAX), period, l, h)
    ensures FirstHit(clk, period, l, h) && Tick32(clk, l, h) == Tick(clk, l, h) <==> Sound(clk, period)
  {
    hide Tick, Tick32, FirstHit, FirstCover;
    var exact, base := clk * PWM_PERIOD_MAX, Mul32(clk, PWM_PERIOD_MAX);
    HitIsCover(clk, period, l, h);
    if exact < TWO_32 {
      assert base == exact;
      PredecessorsFail(base, period, l, h);
      TriedSettingFits(base, period, l, h);
      LongestPeriod(clk, l, h);
      Tick32Wraps(clk, l, h);
    } else {
      FirstIsUndivided(base, period, l, h);
      if base >= period {
        UndividedTick(clk);
        UndividedHit(clk, period);
      } else if FirstHit(clk, period, l, h) {
        FirstIsUndivided(exact, period, l, h);
      }
    }
  }

  lemma UndividedHit(clk: nat, period: nat)
    requires clk * PWM_PERIOD_MAX >= period
    ensures FirstHit(clk, period, 0, 0)
  {
    assert Tick(clk, 0, 0) == clk;
  }

  /**
    Soundness, seen from the setting asked for: it is the first that passes the
    driver's test if and only if `clk * 255` stays within 32 bits or, cut to 32
    bits, reaches the period all the same.
   */
  lemma SearchSoundExactly(clk: nat, period: nat, l: nat, h: nat)
    requires 1 <= clk < TWO_32 && period <= NSEC_PER_SEC && FirstHit(clk, period, l, h)
    ensures FirstPass(clk, period, l, h) <==> Sound(clk, period)
  {
    hide Tick, Tick32, FirstHit, FirstCover;
    var exact, base := clk * PWM_PERIOD_MAX, Mul32(clk, PWM_PERIOD_MAX);
    HitIsCover(clk, period, l, h);
    if exact < TWO_32 {
      assert base == exact;
      CoverIsPass(clk, period, l, h);
    } else {
      FirstIsUndivided(exact, period, l, h);
      UndividedTick(clk);
      assert Passes(clk, period, 0, 0) <==> base >= period;
    }
  }

  lemma NarrowSearch(clk: nat, period: nat, l: nat, h: nat)
    requires clk >= 1 && clk * PWM_PERIOD_MAX < TWO_32 && period <= NSEC_PER_SEC
    requires FirstCover(Mul32(clk, PWM_PERIOD_MAX), period, l, h)
    ensures l <= 119
    ensures forall l', h' | h' <= 0xf && (Before(l', h', l, h) || (l' == l && h' == h)) :: Fits(clk, l', h')
  {
    hide Tick, FirstHit, FirstCover, Before, Fits;
    var base := clk * PWM_PERIOD_MAX;
    HitIsCover(clk, period, l, h);
    NoWrapExactly(clk, period, l, h);
    PredecessorsFail(base, period, l, h);
    if l >= 1 {
      SlowestFails(base, period, l - 1, 255, 119);
    }
  }

  lemma TriedBefore(clk: nat, period: nat, l: nat, h: nat)
    requires period <= NSEC_PER_SEC && FirstHit(clk, period, l, h) && Fits(clk, l, h)
    ensures forall l', h' | h' <= 0xf && (Before(l', h', l, h) || (l' == l && h' == h)) :: Fits(clk, l', h')
  {
  }

  /**
    The width condition is exact: the search of every accepted period stays
    within 32 bits if and only if the undivided clock's longest period does.
   */
  lemma NoWrapExactly(clk: nat, period: nat, l: nat, h: nat)
    requires period <= NSEC_PER_SEC && FirstHit(clk, period, l, h)
    ensures (forall l', h' | h' <= 0xf && (Before(l', h', l, h) || (l' == l && h' == h)) :: Fits(clk, l', h'))
            <==> clk * PWM_PERIOD_MAX < TWO_32
  {
    assert Tick(clk, 0, 0) == clk;
    if clk * PWM_PERIOD_MAX < TWO_32 {
      HitIsCover(clk, period, l, h);
      PredecessorsFail(clk * PWM_PERIOD_MAX, period, l, h);
      TriedSettingFits(clk * PWM_PERIOD_MAX, period, l, h);
      LongestPeriod(clk, l, h);
      TriedBefore(clk, period, l, h);
    } else {
      assert !Fits(clk, 0, 0);
      assert Before(0, 0, l, h) || (l == 0 && h == 0);
    }
  }

  /** With a clock above 1 GHz the tick rounds to 0 and no setting ever reaches a period. */
  lemma ZeroTickNeverReaches(period: nat, l: nat, h: nat)
    requires period >= 1
    ensures !Passes(0, period, l, h)
    ensures !FirstHit(0, period, l, h)
  {
    assert Tick(0, l, h) == 0;
  }

  /** Where the condition fails, the search passes over the setting asked for. */
  lemma WrapPassesOverSetting()
    ensures var clk, period := 16843010, 255;
            && clk * PWM_PERIOD_MAX >= TWO_32
            && FirstHit(clk, period, 0, 0) && !Passes(clk, period, 0, 0)
  {
    assert Bit(0) == 1;
    assert Tick(16843010, 0, 0) == 16843010;
  }

  // ------------------------------------------------------------------ resolution

  /** Past the first divider step only the slowest setting can be the first hit. */
  lemma DividedHitIsSlowest(clk: nat, period: nat, l: nat, h: nat)
    requires FirstHit(clk, period, l, h) && l >= 1
    ensures h == 15
  {
    if h < 15 {
      assert Before(l - 1, 15, l, h);
      NextSlowest(clk, l);
      TickGrowsInH(clk, l, h, 14);
    }
  }

  /** Unless the clock is undivided, half the chosen tick does not reach the period. */
  lemma HalfTickFallsShort(clk: nat, period: nat, l: nat, h: nat)
    requires FirstHit(clk, period, l, h) && !(l == 0 && h == 0)
    ensures Tick(clk, l, h) * PWM_PERIOD_MAX < 2 * period
  {
    if l == 0 {
      assert Before(0, h - 1, 0, h);
      TickDoubles(clk, 0, h - 1);
    } else {
      DividedHitIsSlowest(clk, period, l, h);
      assert Before(l - 1, 15, l, h);
      NextSlowest(clk, l);
    }
  }

  /**
    Resolution: the chosen tick is less than twice any tick in the whole divider
    space that reaches the period.
   */
  lemma LessThanTwiceBest(clk: nat, period: nat, l: nat, h: nat, l': nat, h': nat)
    requires clk >= 1 && FirstHit(clk, period, l, h)
    requires l' <= 0xff && h' <= 0xf && Reaches(clk, period, l', h')
    ensures Tick(clk, l, h) < 2 * Tick(clk, l', h')
  {
    if l == 0 && h == 0 {
      TickGrowsInH(clk, 0, 0, h');
      TickGrowsInL(clk, 0, l', h');
      assert Tick(clk, 0, 0) == clk;
    } else {
      HalfTickFallsShort(clk, period, l, h);
    }
  }

  /** How many whole ticks fit into `ns`; the driver never divides by a zero tick. */
  function Ticks(ns: nat, tick: nat): (q: nat)
    requires tick >= 1
    ensures q * tick <= ns < q * tick + tick
  {
    ns / tick
  }

  lemma TicksAtMost(ns: nat, tick: nat, k: nat)
    requires tick >= 1 && ns <= k * tick
    ensures Ticks(ns, tick) <= k
  {
    hide Ticks;
    if k + 1 <= Ticks(ns, tick) {
      MulMonotone(k + 1, Ticks(ns, tick), tick);
    }
  }

  lemma TicksAtLeast(ns: nat, tick: nat, k: nat)
    requires tick >= 1 && k * tick <= ns
    ensures k <= Ticks(ns, tick)
  {
    hide Ticks;
    if Ticks(ns, tick) + 1 <= k {
      MulMonotone(Ticks(ns, tick) + 1, k, tick);
    }
  }

  /**
    The period count fits its 8-bit field, so the driver's second range check
    never fires, and it keeps at least 127 of the 255 steps unless the clock is
    undivided.
   */
  lemma PeriodValueRange(clk: nat, period: nat, l: nat, h: nat)
    requires clk >= 1 && FirstHit(clk, period, l, h)
    ensures Tick(clk, l, h) >= 1
    ensures Ticks(period, Tick(clk, l, h)) <= PWM_PERIOD_MAX
    ensures !(l == 0 && h == 0) ==> Ticks(period, Tick(clk, l, h)) >= 127
  {
    TickGrowsInH(clk, l, 0, h);
    TickGrowsInL(clk, 0, l, 0);
    assert Tick(clk, 0, 0) == clk;
    var tick := Tick(clk, l, h);
    TicksAtMost(period, tick, PWM_PERIOD_MAX);
    if !(l == 0 && h == 0) {
      HalfTickFallsShort(clk, period, l, h);
      TicksAtLeast(period, tick, 127);
    }
  }

  /** Whatever wraps: with a tick that passes the test the period count fits its field, so the second range check never fires. */
  lemma PeriodCountFits(period: nat, tick: nat)
    requires tick >= 1 && Mul32(tick, PWM_PERIOD_MAX) >= period
    ensures Ticks(period, tick) <= PWM_PERIOD_MAX
  {
    assert Mul32(tick, PWM_PERIOD_MAX) <= tick * PWM_PERIOD_MAX;
    TicksAtMost(period, tick, PWM_PERIOD_MAX);
  }

  /**
    `aspeed_pwm_probe` derives a tick the search can work with exactly from
    clocks of up to 1 GHz, and one with which nothing wraps exactly from 60 Hz
    on.
   */
  lemma ProbedTickUsableExactly(clkFreq: nat)
    requires clkFreq >= 1
    ensures var clk := Ticks(NSEC_PER_SEC, clkFreq);
            && (1 <= clk <= NSEC_PER_SEC <==> clkFreq <= NSEC_PER_SEC)
            && (1 <= clk && clk * PWM_PERIOD_MAX < TWO_32 <==> 60 <= clkFreq <= NSEC_PER_SEC)
  {
    hide Ticks;
    var clk := Ticks(NSEC_PER_SEC, clkFreq);
    TicksAtMost(NSEC_PER_SEC, clkFreq, NSEC_PER_SEC);
    if clkFreq <= NSEC_PER_SEC {
      TicksAtLeast(NSEC_PER_SEC, clkFreq, 1);
    }
    if clkFreq >= 60 {
      MulMonotone(60, clkFreq, clk);
      assert clkFreq * clk == clk * clkFreq;
    } else {
      MulMonotone(clkFreq, 59, clk + 1);
      assert clkFreq * (clk + 1) == clk * clkFreq + clkFreq;
    }
    if clkFreq > NSEC_PER_SEC && clk >= 1 {
      MulMonotone(1, clk, clkFreq);
    }
  }

  // ------------------------------------------------------------------ registers

  const PWM_PERIOD_MASK: bv32 := 0xFF00_0000
  const PWM_RISING_POINT_MASK: bv32 := 0x0000_FF00
  const PWM_FALLING_POINT_MASK: bv32 := 0x0000_00FF
  const PWM_CLK_DIV_H_MASK: bv32 := 0x0000_0F00
  const PWM_CLK_DIV_L_MASK: bv32 := 0x0000_00FF

  /** FIELD_PREP of the five fields. */
  function DutyFields(period: bv8, rising: bv8, falling: bv8): bv32 {
    (((period as bv32) << 24) & PWM_PERIOD_MASK)
    | (((rising as bv32) << 8) & PWM_RISING_POINT_MASK)
    | ((falling as bv32) & PWM_FALLING_POINT_MASK)
  }

  function CtrlFields(divH: bv8, divL: bv8): bv32 {
    (((divH as bv32) << 8) & PWM_CLK_DIV_H_MASK) | ((divL as bv32) & PWM_CLK_DIV_L_MASK)
  }

  /** clrsetbits_le32 */
  function ClearSet(word: bv32, clear: bv32, bits: bv32): bv32 {
    (word & !clear) | bits
  }

  function DutyWord(word: bv32, period: bv8, rising: bv8): bv32 {
    ClearSet(word, PWM_PERIOD_MASK | PWM_RISING_POINT_MASK | PWM_FALLING_POINT_MASK, DutyFields(period, rising, 0))
  }

  function CtrlWord(word: bv32, divH: bv8, divL: bv8): bv32 {
    ClearSet(word, PWM_CLK_DIV_H_MASK | PWM_CLK_DIV_L_MASK, CtrlFields(divH, divL))
  }

  /** The duty register: each field reads back, and the watchdog field in bits 23..16 is kept. */
  lemma DutyWordReadsBack(word: bv32, period: bv8, rising: bv8)
    ensures var w := DutyWord(word, period, rising);
            && w >> 24 == period as bv32
            && (w >> 8) & 0xFF == rising as bv32
            && w & 0xFF == 0
            && w & 0x00FF_0000 == word & 0x00FF_0000
  {
  }

  /** The control register: the divider reads back when `divH` fits its four bits, and no enable bit moves. */
  lemma CtrlWordReadsBack(word: bv32, divH: bv8, divL: bv8)
    ensures var w := CtrlWord(word, divH, divL);
            && ((w >> 8) & 0xF == divH as bv32 <==> divH <= 0xF)
            && w & 0xFF == divL as bv32
            && w & 0xFFFF_F000 == word & 0xFFFF_F000
  {
  }

  /** What is left of a number in a u8. */
  function Low8(v: nat): nat { v % 0x100 }

  /** A u8 assignment. */
  function ToU8(v: nat): bv8 { Low8(v) as bv8 }

  /** Period in bits 31..24, rising point in 15..8, falling point 0 in 7..0, and the old watchdog field in 23..16. */
  predicate HoldsCounts(word: bv32, was: bv32, period: nat, duty: nat) {
    && word >> 24 == (period % 0x100) as bv8 as bv32
    && (word >> 8) & 0xFF == (duty % 0x100) as bv8 as bv32
    && word & 0xFF == 0
    && word & 0x00FF_0000 == was & 0x00FF_0000
  }

  /** The divider's `h` in bits 11..8 and `l` in 7..0, and the old bits 31..12. */
  predicate HoldsDivider(word: bv32, was: bv32, h: nat, l: nat) {
    && (word >> 8) & 0xF == (h % 0x100) as bv8 as bv32
    && word & 0xFF == (l % 0x100) as bv8 as bv32
    && word & 0xFFFF_F000 == was & 0xFFFF_F000
  }

  lemma DutyWordHolds(word: bv32, period: nat, duty: nat)
    ensures HoldsCounts(DutyWord(word, ToU8(period), ToU8(duty)), word, period, duty)
  {
    hide DutyWord;
    DutyWordReadsBack(word, ToU8(period), ToU8(duty));
  }

  lemma SmallByte(h: nat)
    requires h <= 0xF
    ensures ToU8(h) <= 0xF
  {
  }

  lemma CtrlWordHolds(word: bv32, h: nat, l: nat)
    requires h <= 0xF
    ensures HoldsDivider(CtrlWord(word, ToU8(h), ToU8(l)), word, h, l)
  {
    hide CtrlWord;
    SmallByte(h);
    CtrlWordReadsBack(word, ToU8(h), ToU8(l));
  }

  const PWM_CHANNELS := 16

  /** Word indices of a channel's registers, `channel * 0x10` bytes into the block. */
  function CtrlIndex(channel: nat): nat { channel * 4 }

  function DutyIndex(channel: nat): nat { channel * 4 + 1 }

  /** A divider setting with the two edges counted in its ticks. */
  datatype Setting = Setting(l: nat, h: nat, periodTicks: nat, dutyTicks: nat) {
    predicate CountedIn(tick: nat, period: nat, duty: nat) {
      && tick >= 1
      && periodTicks == Ticks(period, tick) <= PWM_PERIOD_MAX
      && dutyTicks == Ticks(duty, tick)
    }

    ghost predicate For(clk: nat, period: nat, duty: nat) {
      FirstPass(clk, period, l, h) && CountedIn(Tick32(clk, l, h), period, duty)
    }
  }

  /** The channel's two registers hold the setting, and no other register has changed. */
  ghost predicate Programmed(now: seq<bv32>, was: seq<bv32>, channel: nat, cfg: Setting)
    requires |now| == |was| == 4 * PWM_CHANNELS && channel < PWM_CHANNELS
  {
    var d, c := DutyIndex(channel), CtrlIndex(channel);
    && now[d] == DutyWord(was[d], ToU8(cfg.periodTicks), ToU8(cfg.dutyTicks))
    && now[c] == CtrlWord(was[c], ToU8(cfg.h), ToU8(cfg.l))
    && forall i | 0 <= i < |now| && i != d && i != c :: now[i] == was[i]
  }

  /** The same by position: the two words of the channel's sixteen bytes, and what they hold. */
  predicate InPlace(now: seq<bv32>, was: seq<bv32>, channel: nat, cfg: Setting)
    requires |now| == |was| == 64 && channel < 16
  {
    var d, c := (channel * 0x10 + 4) / 4, channel * 0x10 / 4;
    && HoldsCounts(now[d], was[d], cfg.periodTicks, cfg.dutyTicks)
    && HoldsDivider(now[c], was[c], cfg.h, cfg.l)
    && forall i | 0 <= i < 64 && i != d && i != c :: now[i] == was[i]
  }

  lemma ProgrammedInPlace(now: seq<bv32>, was: seq<bv32>, channel: nat, cfg: Setting)
    requires |now| == |was| == 64 && channel < 16
    requires Programmed(now, was, channel, cfg) && cfg.h <= 0xF
    ensures InPlace(now, was, channel, cfg)
  {
    hide DutyWord, CtrlWord, HoldsCounts, HoldsDivider, ToU8;
    DutyWordHolds(was[DutyIndex(channel)], cfg.periodTicks, cfg.dutyTicks);
    CtrlWordHolds(was[CtrlIndex(channel)], cfg.h, cfg.l);
  }

  /** A duty within the period is set to no more ticks than the period, and so survives the 8-bit field. */
  lemma DutyWithinPeriod(cfg: Setting, tick: nat, period: nat, duty: nat)
    requires cfg.CountedIn(tick, period, duty) && duty <= period
    ensures cfg.dutyTicks <= cfg.periodTicks <= PWM_PERIOD_MAX
  {
    TicksAtLeast(period, tick, cfg.dutyTicks);
  }

  /** The register holds the duty count exactly for duties of less than 256 ticks. */
  lemma DutyHeldExactly(cfg: Setting, tick: nat, period: nat, duty: nat)
    requires cfg.CountedIn(tick, period, duty)
    ensures Low8(cfg.dutyTicks) == cfg.dutyTicks <==> duty < 0x100 * tick
  {
    hide Ticks;
    var d := cfg.dutyTicks;
    if d <= 0xff {
      MulMonotone(d + 1, 0x100, tick);
    } else {
      MulMonotone(0x100, d, tick);
    }
  }

  /**
    The duty ratio of the two edge counts is the requested one to within a
    single tick either way.
   */
  lemma DutyRatio(cfg: Setting, tick: nat, period: nat, duty: nat)
    requires cfg.CountedIn(tick, period, duty)
    ensures cfg.dutyTicks * period <= duty * (cfg.periodTicks + 1)
    ensures duty * cfg.periodTicks <= (cfg.dutyTicks + 1) * period
  {
    hide Ticks;
    var p, d := cfg.periodTicks, cfg.dutyTicks;
    CrossRatio(d, tick, p + 1, period, duty);
    CrossRatio(p, tick, d + 1, duty, period);
  }

  lemma CrossRatio(m: nat, tick: nat, n: nat, x: nat, y: nat)
    requires m * tick <= y && x <= n * tick
    ensures m * x <= y * n
  {
    var nt, mt := n * tick, m * tick;
    MulMonotone(x, nt, m);
    MulMonotone(mt, y, n);
    assert nt * m == mt * n by {
      assert n * tick * m == n * (tick * m);
      assert m * tick * n == n * (m * tick);
      assert tick * m == m * tick;
    }
    assert m * x == x * m;
  }

  class AspeedPwm {
    const clkTickNs: nat
    const regs: array<bv32>

    ghost predicate Valid() {
      1 <= clkTickNs <= NSEC_PER_SEC && regs.Length == 4 * PWM_CHANNELS
    }

    /**
      `aspeed_pwm_set_config`. On success the channel's two registers carry the
      divider setting the search stops at and the two edge counts in ticks of
      that setting; every other register keeps its value. The setting is the
      first that reaches the period exactly under the search's condition.
     */
    method SetConfig(channel: nat, period: nat, duty: nat) returns (rc: int, ghost cfg: Setting)
      requires Valid() && channel < 16
      modifies regs
      ensures rc == if period > 1_000_000_000 then -34 else 0
      ensures rc != 0 ==> regs[..] == old(regs[..])
      ensures rc == 0 ==> cfg.For(clkTickNs, period, duty) && Programmed(regs[..], old(regs[..]), channel, cfg)
      ensures rc == 0 ==>
                cfg.periodTicks <= 0xFF && cfg.h <= 0xF && cfg.l <= 0xFF && InPlace(regs[..], old(regs[..]), channel, cfg)
      ensures rc == 0 ==>
                (FirstHit(clkTickNs, period, cfg.l, cfg.h) && Tick32(clkTickNs, cfg.l, cfg.h) == Tick(clkTickNs, cfg.l, cfg.h)
                 <==> Sound(clkTickNs, period))
    {
      cfg := Setting(0, 0, 0, 0);
      if period > NSEC_PER_SEC {
        return -ERANGE, cfg;
      }
      var divL, divH, tickNs := SearchDivider(clkTickNs, period);
      PeriodCountFits(period, tickNs);
      hide Tick, Tick32, FirstHit, FirstPass, FirstCover, Sound, Ticks, DutyFields, CtrlFields, ClearSet, ToU8;
      rc := if Ticks(period, tickNs) > PWM_PERIOD_MAX then -ERANGE else 0;
      if rc == 0 {
        var ctrl := CtrlFields(ToU8(divH), ToU8(divL));
        var periodValue := ToU8(Ticks(period, tickNs));
        var fallingPoint: bv8 := 0;
        var risingPoint := ToU8(Ticks(duty, tickNs));
        var value := DutyFields(periodValue, risingPoint, fallingPoint);
        var d, c := DutyIndex(channel), CtrlIndex(channel);
        regs[d] := ClearSet(regs[d], PWM_PERIOD_MASK | PWM_RISING_POINT_MASK | PWM_FALLING_POINT_MASK, value);
        regs[c] := ClearSet(regs[c], PWM_CLK_DIV_H_MASK | PWM_CLK_DIV_L_MASK, ctrl);
        cfg := Setting(divL, divH, Ticks(period, tickNs), Ticks(duty, tickNs));
        hide InPlace;
        ProgrammedInPlace(regs[..], old(regs[..]), channel, cfg);
      }
    }
  }
}
