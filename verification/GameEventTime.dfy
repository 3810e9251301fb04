/** The calendar arithmetic of game events: when an event is on, and how long until it may change. */
module GameEventTime {
  import opened Bytes

  const DAY: int := 86400
  const MINUTE: int := 60
  const MAX_CHECK_DELAY: nat := 86400

  type u32 = x: int | 0 <= x < TWO_32

  /** A row of `game_event`: times in seconds, `occurence` and `length` in minutes. */
  datatype EventData = EventData(
    start: int, end: int, occurence: u32, length: u32, leapDays: nat, hardcoded: bool, disabled: bool)
  {
    /** `isValid`. */
    predicate Valid() { length > 0 }

    /** `occurence * MINUTE` and `length * MINUTE`, in 32-bit unsigned arithmetic. */
    function Period(): (p: u32) { occurence * MINUTE % TWO_32 }

    function Span(): (l: u32) { length * MINUTE % TWO_32 }

    function Elapsed(t: int): (r: int) { t - start - leapDays * DAY }

    /** What the loader leaves behind: a period to divide by wherever it is divided by, and leap
        days only on events that last some time. */
    predicate Sane() { (start <= end ==> Period() > 0) && (Span() == 0 ==> leapDays == 0) }
  }

  /** The remainder of C++: it takes the sign of the dividend. */
  function Rem(a: int, b: int): (r: int)
    requires b > 0
    ensures -b < r < b
  {
    if a >= 0 then a % b else -((-a) % b)
  }

  /** `CheckOneGameEvent`. */
  predicate CheckOne(e: EventData, t: int)
    requires e.Sane()
  {
    e.start <= t < e.end && Rem(e.Elapsed(t), e.Period()) < e.Span()
  }

  /** `NextCheck`: seconds until the next look at the event. */
  function NextCheck(e: EventData, now: int): (d: nat)
    requires e.Sane()
    ensures d < TWO_32
  {
    if now > e.end then MAX_CHECK_DELAY
    else if e.start > now then (e.start - now) % TWO_32
    else
      var rem := Rem(e.Elapsed(now), e.Period());
      var delay := (if rem < e.Span() then e.Span() - rem else e.Period() - rem) % TWO_32;
      if e.end < now + delay then (e.end - now) % TWO_32 else delay
  }

  // ----------------------------------------------------------------- remainders

  lemma ModBelow(x: int, p: int)
    requires x >= 0 && p > 0
    ensures x % p <= x
  {
    if x >= p {
      assert x % p < p;
    } else {
      assert x / p == 0;
    }
  }

  lemma ModShift(a: int, d: int, p: int)
    requires p > 0 && a >= 0 && d >= 0
    ensures (a + d) % p == (a % p + d) % p
  {
    var q, r := a / p, a % p;
    assert a + d == q * p + (r + d);
    ModMultiple(r + d, q, p);
  }

  lemma ModMultiple(x: int, q: int, p: int)
    requires p > 0
    ensures (q * p + x) % p == x % p
  {
    var a, b := x / p, x % p;
    assert q * p + x == (q + a) * p + b;
    DivModUnique(q * p + x, p, q + a, b);
  }

  /** Inside a window the event stays on until the announced end. */
  lemma OnUntilEnd(a: int, d: int, p: int, l: int)
    requires p > 0 && l >= 0 && d >= 0 && Rem(a, p) < l && d < l - Rem(a, p)
    ensures Rem(a + d, p) < l
  {
    if a >= 0 {
      ModShift(a, d, p);
      ModBelow(a % p + d, p);
    } else if a + d >= 0 {
      ModBelow(-a, p);
      ModBelow(a + d, p);
      assert a + d < l;
    } else if l == 0 {
      var m := (-a) % p;
      assert 0 <= d < m;
      DivModUnique(-a - d, p, (-a) / p, m - d);
    }
  }

  /** Outside a window the event stays off until the announced next start. */
  lemma OffUntilStart(a: int, d: int, p: int, l: int)
    requires p > 0 && l >= 0 && a >= 0 && d >= 0 && Rem(a, p) >= l && d < p - Rem(a, p)
    ensures Rem(a + d, p) >= l
  {
    DivModUnique(a + d, p, a / p, a % p + d);
  }

  // ----------------------------------------------------------- what the calendar says

  /** Second `t` lies in occurrence `k`, each `l` seconds long and the first at `base`, one every `p`. */
  ghost predicate InOccurrence(t: int, base: int, p: int, l: int, k: nat) {
    base + p * k <= t < base + p * k + l
  }

  /** Second `t` lies a whole number of periods before `base`. */
  ghost predicate PeriodsBefore(t: int, base: int, p: int, k: nat) {
    t == base - p * k
  }

  /** The calendar: between start and end, an event is on in its occurrences, which begin at the start
      moved by the leap days and come at every period, both lengths in minutes and their seconds
      wrapped to 32 bits. Before the moved start the remainder is not positive and it is on at once,
      unless its length is 0 and the remainder too. */
  lemma OnExactly(e: EventData, t: int)
    requires e.Sane()
    ensures var p, l := 60 * e.occurence % 4_294_967_296, 60 * e.length % 4_294_967_296;
            var base := e.start + 86_400 * e.leapDays;
            CheckOne(e, t) <==>
            e.start <= t < e.end && (if t >= base then exists k :: InOccurrence(t, base, p, l, k)
                                     else l > 0 || !exists k :: PeriodsBefore(t, base, p, k))
  {
    if e.start <= t < e.end {
      hide Rem, CheckOne, InOccurrence, PeriodsBefore;
      CheckOneRem(e, t);
      var base := e.start + 86_400 * e.leapDays;
      if t >= base {
        OccurrenceOf(t, base, e.Period(), e.Span());
      } else {
        RemainderBefore(t, base, e.Period());
      }
    }
  }

  lemma CheckOneRem(e: EventData, t: int)
    requires e.Sane() && e.start <= t < e.end
    ensures e.Period() == 60 * e.occurence % 4_294_967_296 && e.Span() == 60 * e.length % 4_294_967_296
    ensures CheckOne(e, t) <==> Rem(t - (e.start + 86_400 * e.leapDays), e.Period()) < e.Span()
  {
    hide Rem;
    assert e.Elapsed(t) == t - (e.start + 86_400 * e.leapDays);
  }

  /** A length short of a shift, as remainder, reaches the length only without shift and below the
      period. */
  lemma RemOfShift(l: int, d: int, p: int)
    requires l > 0 && d >= 0 && p > 0
    ensures Rem(l - d, p) >= l <==> d == 0 && l < p
  {
    var a := l - d;
    if a >= 0 {
      ModBelow(a, p);
      if a < p {
        DivModUnique(a, p, 0, a);
      }
    }
  }

  lemma OccurrenceOf(t: int, base: int, p: int, l: int)
    requires p > 0 && t >= base
    ensures Rem(t - base, p) < l <==> exists k :: InOccurrence(t, base, p, l, k)
  {
    var a := t - base;
    assert a == p * (a / p) + a % p;
    if a % p < l {
      assert InOccurrence(t, base, p, l, a / p);
    }
    if k: nat :| InOccurrence(t, base, p, l, k) {
      assert a - p * k >= 0;
      ModMultiple(a - p * k, k, p);
      assert k * p + (a - p * k) == a;
      ModBelow(a - p * k, p);
    }
  }

  lemma RemainderBefore(t: int, base: int, p: int)
    requires p > 0 && t < base
    ensures Rem(t - base, p) <= 0
    ensures Rem(t - base, p) == 0 <==> exists k :: PeriodsBefore(t, base, p, k)
  {
    var b := base - t;
    assert t - base == -b;
    assert b == p * (b / p) + b % p;
    if b % p == 0 {
      assert PeriodsBefore(t, base, p, b / p);
    }
    if k: nat :| PeriodsBefore(t, base, p, k) {
      ModMultiple(0, k, p);
      assert k * p + 0 == b;
    }
  }

  // ------------------------------------------------------------------- theorems

  /** Polling after `NextCheck` seconds misses nothing: until then the event keeps its present
      state. Wrapped 32-bit delays are only shorter. */
  lemma NextCheckNeverSkips(e: EventData, now: int, t: int)
    requires e.Sane() && now <= t < now + NextCheck(e, now)
    ensures CheckOne(e, t) == CheckOne(e, now)
  {
    if now > e.end {
    } else if e.start > now {
      ModBelow(e.start - now, TWO_32);
    } else {
      var p, l, a := e.Period(), e.Span(), e.Elapsed(now);
      var rem := Rem(a, p);
      var full := if rem < l then l - rem else p - rem;
      ModBelow(full, TWO_32);
      ModBelow(e.end - now, TWO_32);
      var d := t - now;
      assert e.Elapsed(t) == a + d;
      assert d < full;
      if rem < l {
        OnUntilEnd(a, d, p, l);
      } else {
        assert a >= 0;
        OffUntilStart(a, d, p, l);
      }
    }
  }

  /** Exactly when the poll finds a change: the event has started, the poll falls before its end and
      its delay fits 32 bits; then the state flips if and only if the window is shorter than the
      period and the leap-day correction does not reach back a whole period. */
  lemma NextCheckIsTight(e: EventData, now: int)
    requires e.Sane() && e.start <= now < e.end && e.Span() > 0
    requires e.Span() - Rem(e.Elapsed(now), e.Period()) < TWO_32
    requires now + NextCheck(e, now) < e.end
    ensures var p, l := 60 * e.occurence % 4_294_967_296, 60 * e.length % 4_294_967_296;
            CheckOne(e, now + NextCheck(e, now)) != CheckOne(e, now)
            <==> l < p && now > e.start + 86_400 * e.leapDays - p
  {
    hide Rem;
    var p, l, a := e.Period() as int, e.Span() as int, e.Elapsed(now);
    var full := ToBoundary(a, p, l);
    SmallMod(full);
    assert NextCheck(e, now) == full;
    assert e.Elapsed(now + full) == a + full;
    BoundaryFlips(a, p, l);
  }

  /** Where the poll is planned otherwise: a day on after the end, at the start before it, and never
      past the end. */
  lemma NextCheckElsewhere(e: EventData, now: int)
    requires e.Sane()
    ensures now > e.end ==> NextCheck(e, now) == 86_400
    ensures now < e.start <= e.end && e.start - now < 4_294_967_296 ==> now + NextCheck(e, now) == e.start
    ensures e.start <= now <= e.end ==> now + NextCheck(e, now) <= e.end
  {
    if e.start <= now <= e.end {
      ModBelow(e.end - now, TWO_32);
    }
  }

  lemma SmallMod(x: int)
    requires 0 <= x < TWO_32
    ensures x % TWO_32 == x
  {
  }

  /** Seconds to the end of the window, or to the next start. */
  function ToBoundary(a: int, p: int, l: int): (d: int)
    requires p > 0 && l >= 0
    ensures d > 0 && (d <= p || d == l - Rem(a, p))
  {
    if Rem(a, p) < l then l - Rem(a, p) else p - Rem(a, p)
  }

  lemma BoundaryFlips(a: int, p: int, l: int)
    requires p > 0 && l > 0
    ensures (Rem(a + ToBoundary(a, p, l), p) < l) != (Rem(a, p) < l) <==> l < p && a > -p
  {
    var full := ToBoundary(a, p, l);
    if l >= p {
    } else if a >= 0 {
      if Rem(a, p) < l {
        DivModUnique(a + full, p, a / p, l);
      } else {
        DivModUnique(a + full, p, a / p + 1, 0);
      }
    } else if a > -p {
      DivModUnique(-a, p, 0, -a);
      DivModUnique(l, p, 0, l);
    } else {
      var q, m := (-a) / p, (-a) % p;
      assert -a == q * p + m;
      assert q >= 1;
      MulAtLeast(q, p);
    }
  }
}
