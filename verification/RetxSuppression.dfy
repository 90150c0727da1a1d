/** Retransmission suppression with exponential back-off (RetxSuppressionExponential). */
module RetxSuppressions {
  import opened Basics
  import opened PitEntries

  /** RetxSuppressionExponential; intervals are in milliseconds. */
  datatype Suppression = Suppression(initial: int, max: int, multiplier: real)

  /** What the constructor demands of its arguments. */
  predicate Accepted(s: Suppression) {
    s.initial > 0 && s.max >= s.initial && s.multiplier >= 1.0
  }

  function Times(a: real, m: real): (r: real) {
    a * m
  }

  function Grow(s: Suppression, interval: int): (r: int) {
    var next := Times(interval as real, s.multiplier).Floor;
    if next < s.max then next else s.max
  }

  lemma TimesGrows(a: real, m: real)
    requires a >= 0.0 && m >= 1.0
    ensures Times(a, m) >= a
  {
    assert a * (m - 1.0) >= 0.0;
  }

  lemma TimesMonotone(a: real, b: real, m: real)
    requires a <= b && m >= 0.0
    ensures Times(a, m) <= Times(b, m)
  {
    assert (b - a) * m >= 0.0;
  }

  lemma TimesIsSum(a: real, m: real)
    ensures Times(a, m) == a + Times(a, m - 1.0)
  {
  }

  /** Growing never shrinks an interval within bounds, and never leaves them. */
  lemma GrowStaysInBounds(s: Suppression, interval: int)
    requires Accepted(s) && 0 < interval <= s.max
    ensures interval <= Grow(s, interval) <= s.max
  {
    hide Times;
    TimesGrows(interval as real, s.multiplier);
  }

  /** The interval after `i` forwarded retransmissions. */
  function IntervalAfter(s: Suppression, i: nat): (r: int) {
    if i == 0 then s.initial else Grow(s, IntervalAfter(s, i - 1))
  }

  lemma {:induction false} IntervalInBounds(s: Suppression, i: nat)
    requires Accepted(s)
    ensures s.initial <= IntervalAfter(s, i) <= s.max
  {
    if i > 0 {
      IntervalInBounds(s, i - 1);
      GrowStaysInBounds(s, IntervalAfter(s, i - 1));
    }
  }

  /** The constructor demands exactly what keeps every interval between the initial and the
      largest one. */
  lemma AcceptedIffInBounds(s: Suppression)
    ensures Accepted(s) <==> s.initial > 0 && forall i: nat :: s.initial <= IntervalAfter(s, i) <= s.max
  {
    if Accepted(s) {
      forall i: nat
        ensures s.initial <= IntervalAfter(s, i) <= s.max
      {
        IntervalInBounds(s, i);
      }
    } else if s.initial > 0 {
      assert IntervalAfter(s, 0) == s.initial;
      if s.initial <= s.max {
        FirstGrowthShrinks(s);
        assert !(s.initial <= IntervalAfter(s, 1) <= s.max);
      } else {
        assert !(s.initial <= IntervalAfter(s, 0) <= s.max);
      }
    }
  }

  lemma TimesShrinks(a: real, m: real)
    requires a > 0.0 && m < 1.0
    ensures Times(a, m) < a
  {
    var d := 1.0 - m;
    assert a * d > 0.0;
    assert a * m == a - a * d;
  }

  lemma FirstGrowthShrinks(s: Suppression)
    requires 0 < s.initial <= s.max && s.multiplier < 1.0
    ensures IntervalAfter(s, 1) < s.initial
  {
    var a := s.initial as real;
    TimesShrinks(a, s.multiplier);
    hide Times;
    assert IntervalAfter(s, 1) == Grow(s, IntervalAfter(s, 0));
  }

  /** The documented growth: initial * multiplier^i. */
  function Exponential(s: Suppression, i: nat): (r: real) {
    if i == 0 then s.initial as real else Times(Exponential(s, i - 1), s.multiplier)
  }

  /** For every multiplier the interval grows at most as documented, and its growth is the
      documented one, exponential up to the maximum, as long as no rounding has happened. */
  lemma {:induction false} GrowthIsExponential(s: Suppression, i: nat)
    requires Accepted(s)
    ensures IntervalAfter(s, i) as real <= Exponential(s, i)
    ensures (forall j :: 0 <= j <= i ==> IsWhole(Exponential(s, j))) ==>
      IntervalAfter(s, i) as real == if Exponential(s, i) < s.max as real then Exponential(s, i) else s.max as real
    ensures Exponential(s, i) >= 0.0
  {
    hide Times, Grow, IsWhole;
    if i > 0 {
      GrowthIsExponential(s, i - 1);
      IntervalInBounds(s, i - 1);
      GrowOnce(s, IntervalAfter(s, i - 1), Exponential(s, i - 1));
    }
  }

  /** A whole multiplier, such as the default 2, never rounds. */
  lemma {:induction false} WholeMultiplierIsExact(s: Suppression, m: nat, i: nat)
    requires s.multiplier == m as real
    ensures IsWhole(Exponential(s, i))
  {
    if i > 0 {
      WholeMultiplierIsExact(s, m, i - 1);
      RealProduct(Exponential(s, i - 1).Floor, m);
    }
  }

  lemma {:induction false} RealProduct(a: int, m: nat)
    ensures Times(a as real, m as real) == (a * m) as real
  {
    if m > 0 {
      RealProduct(a, m - 1);
      assert a * m == a * (m - 1) + a;
      TimesIsSum(a as real, m as real);
    }
  }

  predicate IsWhole(x: real) {
    x.Floor as real == x
  }

  lemma GrowOnce(s: Suppression, x: int, e: real)
    requires Accepted(s) && 0 < x <= s.max && x as real <= e
    ensures var e' := Times(e, s.multiplier);
      && Grow(s, x) as real <= e' && e' >= e
      && (x as real == (if e < s.max as real then e else s.max as real) && IsWhole(e') ==>
            Grow(s, x) as real == if e' < s.max as real then e' else s.max as real)
  {
    hide Times;
    TimesMonotone(x as real, e, s.multiplier);
    TimesGrows(e, s.multiplier);
    TimesGrows(x as real, s.multiplier);
  }

  // ---------------------------------------------------------------- does it back off at all

  /** What the first step adds before rounding. */
  function FirstGain(s: Suppression): (g: real) {
    Times(s.initial as real, s.multiplier - 1.0)
  }

  /** Growth by less than one millisecond is rounded away, at the first step and for ever. */
  lemma {:induction false} SlowGrowthIsNone(s: Suppression, i: nat)
    requires Accepted(s) && FirstGain(s) < 1.0
    ensures IntervalAfter(s, i) == s.initial
  {
    hide Times;
    if i > 0 {
      SlowGrowthIsNone(s, i - 1);
      TimesIsSum(s.initial as real, s.multiplier);
      TimesGrows(s.initial as real, s.multiplier);
    }
  }

  /** Otherwise each retransmission adds at least one millisecond until the maximum is reached. */
  lemma {:induction false} FastGrowthGoesOn(s: Suppression, i: nat)
    requires Accepted(s) && FirstGain(s) >= 1.0
    ensures IntervalAfter(s, i) == s.max || IntervalAfter(s, i) >= s.initial + i
  {
    hide Times;
    if i > 0 {
      FastGrowthGoesOn(s, i - 1);
      IntervalInBounds(s, i - 1);
      var x := IntervalAfter(s, i - 1) as real;
      TimesMonotone(s.initial as real, x, s.multiplier - 1.0);
      TimesIsSum(x, s.multiplier);
    }
  }

  /** The interval ever reaches its maximum if and only if it starts there or the first step
      adds at least a whole millisecond. */
  lemma ReachesMaximumIff(s: Suppression)
    requires Accepted(s)
    ensures (exists i :: IntervalAfter(s, i) == s.max) <==>
      s.initial == s.max || s.initial as real * (s.multiplier - 1.0) >= 1.0
  {
    assert FirstGain(s) == s.initial as real * (s.multiplier - 1.0);
    hide Times, Grow;
    if s.initial == s.max {
      assert IntervalAfter(s, 0) == s.max;
    } else if FirstGain(s) >= 1.0 {
      FastGrowthGoesOn(s, s.max - s.initial);
      IntervalInBounds(s, s.max - s.initial);
      assert IntervalAfter(s, s.max - s.initial) == s.max;
    } else {
      forall i: nat
        ensures IntervalAfter(s, i) != s.max
      {
        SlowGrowthIsNone(s, i);
      }
    }
  }

  /** An accepted configuration that never backs off: 1 ms, growing by half. */
  lemma OneMillisecondNeverGrows(i: nat)
    ensures Accepted(Suppression(1, 250, 1.5)) && IntervalAfter(Suppression(1, 250, 1.5), i) == 1
  {
    SlowGrowthIsNone(Suppression(1, 250, 1.5), i);
  }

  // ---------------------------------------------------------------- the decision

  datatype Decision = New | Forward | Suppress

  ghost predicate IsLastOutgoing(e: Entry, t: int) {
    && (exists g :: g in e.outRecords && e.outRecords[g].renewed == t)
    && (forall g :: g in e.outRecords ==> e.outRecords[g].renewed <= t)
  }

  /** max_element over the out-records. */
  method GetLastOutgoing(e: Entry) returns (t: int)
    requires e.outRecords != map[]
    ensures IsLastOutgoing(e, t)
  {
    var todo := e.outRecords.Keys;
    assert exists g :: g in e.outRecords;
    var first :| first in todo;
    t := e.outRecords[first].renewed;
    todo := todo - {first};
    while todo != {}
      invariant todo <= e.outRecords.Keys
      invariant exists g :: g in e.outRecords && e.outRecords[g].renewed == t
      invariant forall g :: g in e.outRecords && g !in todo ==> e.outRecords[g].renewed <= t
    {
      var g :| g in todo;
      todo := todo - {g};
      if t < e.outRecords[g].renewed {
        t := e.outRecords[g].renewed;
      }
    }
  }

  predicate DecidesSince(s: Suppression, was: Option<int>, since: int, d: Decision, r: Option<int>) {
    var interval := if was.Some? then was.value else s.initial;
    if since < interval then d == Suppress && r == Some(interval) else d == Forward && r == Some(Grow(s, interval))
  }

  /** decidePerPitEntry: `was` is the interval kept on the entry, `r` the one kept afterwards. */
  ghost predicate Decides(s: Suppression, e: Entry, was: Option<int>, now: int, d: Decision, r: Option<int>) {
    if HasPendingOut(e, now)
    then exists last :: IsLastOutgoing(e, last) && DecidesSince(s, was, now - last, d, r)
    else d == New && r == was
  }

  method DecidePerPitEntry(s: Suppression, e: Entry, was: Option<int>, now: int) returns (d: Decision, r: Option<int>)
    ensures Decides(s, e, was, now, d, r)
    ensures r.None? ==> was.None?
  {
    var pending := HasPendingOutRecords(e, now);
    if !pending {
      return New, was;
    }
    var last := GetLastOutgoing(e);
    var interval := if was.Some? then was.value else s.initial;
    if now - last < interval {
      return Suppress, Some(interval);
    }
    return Forward, Some(Grow(s, interval));
  }
}
