/** The circuit breaker shared by a check/observe node pair: its state is a function of its event history. */
module Breaker {
  import opened Numbers
  import opened Wrappers

  type Instant = int

  const NANOS := 1_000_000_000
  const U32_MAX := 0xFFFF_FFFF
  const U64_MAX := 0xFFFF_FFFF_FFFF_FFFF

  type U32 = n: int | 0 <= n <= U32_MAX
  type U64 = n: int | 0 <= n <= U64_MAX

  function Increment(n: U32): U32 { if n == U32_MAX then n else n + 1 }

  function SaturatingMul(a: U64, b: U64): U64 { if a * b > U64_MAX then U64_MAX else a * b }

  function Pow2(n: nat): (p: nat)
    ensures p >= 1
  {
    if n == 0 then 1 else 2 * Pow2(n - 1)
  }

  lemma {:induction false} Pow2Grows(n: nat, m: nat)
    requires n <= m
    ensures Pow2(n) <= Pow2(m)
    decreases m
  {
    if n < m {
      Pow2Grows(n, m - 1);
    }
  }

  lemma Pow2Sixteen()
    ensures Pow2(16) == 65536
  {
    assert Pow2(4) == 16 && Pow2(8) == 16 * Pow2(4) && Pow2(12) == 16 * Pow2(8) && Pow2(16) == 16 * Pow2(12);
  }

  /** The seconds that the code opens for on the trip with this round counter, in 64-bit saturating arithmetic. */
  function Backoff(base: U64, maxSec: U64, round: U32): U64 {
    Pow2Sixteen();
    Pow2Grows(Min(round, 16), 16);
    Min(SaturatingMul(base, Pow2(Min(round, 16))), Max(maxSec, base))
  }

  // ---- The object ----

  datatype State = State(unhealthyCount: U32, healthyCount: U32, tripRound: U32, openUntil: Option<Instant>)

  const CLOSED := State(0, 0, 0, None)

  function Allowed(s: State, now: Instant): bool {
    s.openUntil.None? || now >= s.openUntil.value
  }

  function AfterCheck(s: State, now: Instant): State {
    if Allowed(s, now) then s.(openUntil := None) else s
  }

  function AfterHealthy(s: State, threshold: U32): State {
    var n := Increment(s.healthyCount);
    if n >= threshold then s.(unhealthyCount := 0, healthyCount := 0, tripRound := 0)
    else s.(unhealthyCount := 0, healthyCount := n)
  }

  function AfterUnhealthy(s: State, threshold: U32, base: U64, maxSec: U64, now: Instant): State {
    var n := Increment(s.unhealthyCount);
    if n >= threshold then
      State(0, 0, Increment(s.tripRound), Some(now + Backoff(base, maxSec, s.tripRound) * NANOS))
    else s.(healthyCount := 0, unhealthyCount := n)
  }

  class BreakerState {
    var unhealthyCount: U32
    var healthyCount: U32
    var tripRound: U32
    var openUntil: Option<Instant>

    ghost function Value(): State
      reads this
    {
      State(unhealthyCount, healthyCount, tripRound, openUntil)
    }

    constructor ()
      ensures Value() == CLOSED
    {
      unhealthyCount, healthyCount, tripRound, openUntil := 0, 0, 0, None;
    }

    /** Whether a request may pass now; an elapsed deadline is forgotten. */
    method Allow(now: Instant) returns (ok: bool)
      modifies this
      ensures ok == Allowed(old(Value()), now) && Value() == AfterCheck(old(Value()), now)
    {
      match openUntil {
        case Some(until) =>
          if now < until {
            return false;
          }
          openUntil := None;
          ok := true;
        case None => ok := true;
      }
    }

    method RecordHealthy(threshold: U32)
      modifies this
      ensures Value() == AfterHealthy(old(Value()), threshold)
    {
      unhealthyCount := 0;
      healthyCount := Increment(healthyCount);
      if healthyCount >= threshold {
        healthyCount := 0;
        tripRound := 0;
      }
    }

    method RecordUnhealthy(threshold: U32, base: U64, maxSec: U64, now: Instant)
      modifies this
      ensures Value() == AfterUnhealthy(old(Value()), threshold, base, maxSec, now)
    {
      healthyCount := 0;
      unhealthyCount := Increment(unhealthyCount);
      if unhealthyCount >= threshold {
        unhealthyCount := 0;
        var backoff := Backoff(base, maxSec, tripRound);
        openUntil := Some(now + backoff * NANOS);
        tripRound := Increment(tripRound);
      }
    }
  }

  // ---- Histories ----

  datatype Event = Check(at: Instant) | Healthy(at: Instant) | Unhealthy(at: Instant)

  /** Thresholds and cooldown settings, fixed for a run. A threshold of 0 acts as 1. */
  datatype Settings = Settings(healthy: U32, unhealthy: U32, base: U64, maxSec: U64) {
    function HealthyLen(): int { Max(healthy, 1) }

    function UnhealthyLen(): int { Max(unhealthy, 1) }
  }

  /** The state after a history, oldest event first. */
  function StateAfter(cfg: Settings, h: seq<Event>): State {
    if h == [] then CLOSED
    else
      var s := StateAfter(cfg, h[..|h| - 1]);
      match h[|h| - 1]
      case Check(now) => AfterCheck(s, now)
      case Healthy(_) => AfterHealthy(s, cfg.healthy)
      case Unhealthy(now) => AfterUnhealthy(s, cfg.unhealthy, cfg.base, cfg.maxSec, now)
  }

  ghost predicate Ordered(h: seq<Event>) {
    forall i, j | 0 <= i < j < |h| :: h[i].at <= h[j].at
  }

  /** Unhealthy responses since the last healthy one. */
  function UnhealthyRun(h: seq<Event>): nat {
    if h == [] then 0
    else match h[|h| - 1]
      case Check(_) => UnhealthyRun(h[..|h| - 1])
      case Healthy(_) => 0
      case Unhealthy(_) => UnhealthyRun(h[..|h| - 1]) + 1
  }

  /** Healthy responses since the last unhealthy one. */
  function HealthyRun(h: seq<Event>): nat {
    if h == [] then 0
    else match h[|h| - 1]
      case Check(_) => HealthyRun(h[..|h| - 1])
      case Healthy(_) => HealthyRun(h[..|h| - 1]) + 1
      case Unhealthy(_) => 0
  }

  /** What is left of a run after whole streaks of `len` are taken off. */
  function Remainder(run: nat, len: int): (r: nat)
    requires len >= 1
    ensures r < len
  {
    if run < len then run else Remainder(run - len, len)
  }

  lemma {:induction false} RemainderNext(run: nat, len: int)
    requires len >= 1
    ensures Remainder(run + 1, len) == if Remainder(run, len) + 1 == len then 0 else Remainder(run, len) + 1
  {
    if run >= len {
      RemainderNext(run - len, len);
    }
  }

  /** The last event completes a streak of `unhealthy` bad responses. */
  predicate Trips(cfg: Settings, h: seq<Event>) {
    h != [] && h[|h| - 1].Unhealthy? && Remainder(UnhealthyRun(h), cfg.UnhealthyLen()) == 0
  }

  /** The last event completes a streak of `healthy` good responses: the unhealthy spell is over. */
  predicate Recovers(cfg: Settings, h: seq<Event>) {
    h != [] && h[|h| - 1].Healthy? && Remainder(HealthyRun(h), cfg.HealthyLen()) == 0
  }

  /** Trips since the last recovery. */
  function TripsInSpell(cfg: Settings, h: seq<Event>): nat {
    if h == [] || Recovers(cfg, h) then 0
    else TripsInSpell(cfg, h[..|h| - 1]) + if Trips(cfg, h) then 1 else 0
  }

  /** The cooldown of trip number `n` of a spell, in exact arithmetic. */
  function Cooldown(cfg: Settings, n: nat): int {
    Min(cfg.base * Pow2(Min(n, 16)), Max(cfg.maxSec, cfg.base))
  }

  /** When the last trip's cooldown ends. */
  function Deadline(cfg: Settings, h: seq<Event>): Option<Instant> {
    if h == [] then None
    else if Trips(cfg, h) then Some(h[|h| - 1].at + Cooldown(cfg, TripsInSpell(cfg, h[..|h| - 1])) * NANOS)
    else Deadline(cfg, h[..|h| - 1])
  }

  // ---- The state is that function of the history ----

  /** Saturation never shows: the code's backoff is the exact cooldown. */
  lemma BackoffIsCooldown(cfg: Settings, n: nat)
    ensures Backoff(cfg.base, cfg.maxSec, Min(n, U32_MAX)) == Cooldown(cfg, n)
  {
    assert Min(Min(n, U32_MAX), 16) == Min(n, 16);
  }

  ghost predicate CountersMatch(cfg: Settings, h: seq<Event>) {
    var s := StateAfter(cfg, h);
    && s.unhealthyCount == Remainder(UnhealthyRun(h), cfg.UnhealthyLen())
    && s.healthyCount == Remainder(HealthyRun(h), cfg.HealthyLen())
    && s.tripRound == Min(TripsInSpell(cfg, h), U32_MAX)
  }

  /** Every counter is its streak, less the streaks already completed, hence below its threshold; the round
      counter is the number of trips of the spell. */
  lemma {:induction false} CountersAreStreaks(cfg: Settings, h: seq<Event>)
    ensures CountersMatch(cfg, h)
  {
    if h != [] {
      var h0 := h[..|h| - 1];
      CountersAreStreaks(cfg, h0);
      match h[|h| - 1]
      case Check(_) =>
      case Healthy(_) => CountersAfterHealthy(cfg, h);
      case Unhealthy(_) => CountersAfterUnhealthy(cfg, h);
    }
  }

  lemma CountersAfterHealthy(cfg: Settings, h: seq<Event>)
    requires h != [] && h[|h| - 1].Healthy? && CountersMatch(cfg, h[..|h| - 1])
    ensures CountersMatch(cfg, h)
  {
    RemainderNext(HealthyRun(h[..|h| - 1]), cfg.HealthyLen());
  }

  lemma CountersAfterUnhealthy(cfg: Settings, h: seq<Event>)
    requires h != [] && h[|h| - 1].Unhealthy? && CountersMatch(cfg, h[..|h| - 1])
    ensures CountersMatch(cfg, h)
    ensures Trips(cfg, h) <==>
      Increment(StateAfter(cfg, h[..|h| - 1]).unhealthyCount) >= cfg.unhealthy
  {
    RemainderNext(UnhealthyRun(h[..|h| - 1]), cfg.UnhealthyLen());
  }

  ghost predicate DeadlineMatches(cfg: Settings, h: seq<Event>) {
    var s, d := StateAfter(cfg, h), Deadline(cfg, h);
    s.openUntil == d || (s.openUntil.None? && h != [] && d.value <= h[|h| - 1].at)
  }

  lemma DeadlineAfterUnhealthy(cfg: Settings, h: seq<Event>)
    requires h != [] && h[|h| - 1].Unhealthy?
    ensures if Trips(cfg, h) then StateAfter(cfg, h).openUntil == Deadline(cfg, h)
            else StateAfter(cfg, h).openUntil == StateAfter(cfg, h[..|h| - 1]).openUntil
  {
    CountersAreStreaks(cfg, h[..|h| - 1]);
    CountersAfterUnhealthy(cfg, h);
    BackoffIsCooldown(cfg, TripsInSpell(cfg, h[..|h| - 1]));
  }

  /** The stored deadline is that of the last trip, or it has passed and was forgotten by a check. */
  lemma {:induction false} OpenUntilIsDeadline(cfg: Settings, h: seq<Event>)
    requires Ordered(h)
    ensures DeadlineMatches(cfg, h)
  {
    if h != [] {
      var h0 := h[..|h| - 1];
      OpenUntilIsDeadline(cfg, h0);
      if h0 != [] {
        assert h0[|h0| - 1].at <= h[|h| - 1].at;
      }
      if h[|h| - 1].Unhealthy? {
        DeadlineAfterUnhealthy(cfg, h);
      }
    }
  }

  /** Over every history: a check is rejected exactly when it comes before the deadline of the last trip. From
      the deadline on every request passes, not just one, until the next trip. */
  lemma CheckRejectedIffBeforeDeadline(cfg: Settings, h: seq<Event>, now: Instant)
    requires Ordered(h + [Check(now)])
    ensures !Allowed(StateAfter(cfg, h), now) <==> Deadline(cfg, h).Some? && now < Deadline(cfg, h).value
  {
    var h1 := h + [Check(now)];
    assert forall i | 0 <= i < |h| :: h1[i] == h[i];
    if h != [] {
      assert h1[|h| - 1].at <= h1[|h|].at;
    }
    OpenUntilIsDeadline(cfg, h);
  }

  lemma CooldownsNeverShrink(cfg: Settings, n: nat, m: nat)
    requires n <= m
    ensures Cooldown(cfg, n) <= Cooldown(cfg, m)
  {
    var a, b := Min(n, 16), Min(m, 16);
    Pow2Grows(a, b);
    MulGrows(cfg.base, Pow2(a), Pow2(b));
  }

  lemma WordSizes()
    ensures U32_MAX == 4294967295 && U64_MAX == 18446744073709551615 && NANOS == 1000000000
  {
  }

  lemma TimesPow2(base: nat, k: nat)
    ensures base * Pow2(0) == base && base * Pow2(k + 1) == 2 * (base * Pow2(k)) && base * Pow2(k) >= base
  {
    var p := Pow2(k);
    assert base * (2 * p) == 2 * (base * p);
    MulGrows(base, 1, p);
  }

  /** The first cooldown is `base`, each further one twice the one before, up to the greater of `base` and `maxSec`;
      after sixteen doublings it stays. */
  lemma CooldownDoubles(cfg: Settings, n: nat)
    ensures Cooldown(cfg, 0) == cfg.base
    ensures var top, twice := if cfg.maxSec > cfg.base then cfg.maxSec else cfg.base, 2 * Cooldown(cfg, n);
            Cooldown(cfg, n + 1) == if n >= 16 then Cooldown(cfg, n) else if twice < top then twice else top
  {
    TimesPow2(cfg.base, if n < 16 then n else 16);
  }

  /** A trip opens the breaker for the cooldown in seconds, on a clock in nanoseconds. */
  lemma TripOpensFor(cfg: Settings, h: seq<Event>, now: Instant)
    requires Trips(cfg, h + [Unhealthy(now)])
    ensures StateAfter(cfg, h + [Unhealthy(now)]).openUntil
         == Some(now + Cooldown(cfg, TripsInSpell(cfg, h)) * 1_000_000_000)
  {
    var h1 := h + [Unhealthy(now)];
    assert h1[..|h1| - 1] == h;
    DeadlineAfterUnhealthy(cfg, h1);
  }

  lemma MulGrows(c: nat, a: nat, b: nat)
    requires a <= b
    ensures c * a <= c * b
  {
  }

  lemma {:induction false} DeadlineOfSpell(cfg: Settings, h: seq<Event>)
    requires Ordered(h) && TripsInSpell(cfg, h) > 0
    ensures Deadline(cfg, h).Some? && h != []
    ensures Deadline(cfg, h).value <= h[|h| - 1].at + Cooldown(cfg, TripsInSpell(cfg, h) - 1) * NANOS
  {
    var h0 := h[..|h| - 1];
    if !Trips(cfg, h) {
      DeadlineOfSpell(cfg, h0);
      assert h0[|h0| - 1].at <= h[|h| - 1].at;
    }
  }

  /** Within a spell the deadline only moves later: cooldowns grow and time does not go back. */
  lemma DeadlineNeverEarlier(cfg: Settings, h: seq<Event>, e: Event)
    requires Ordered(h + [e]) && TripsInSpell(cfg, h) > 0
    ensures Deadline(cfg, h).Some? && Deadline(cfg, h + [e]).Some?
    ensures Deadline(cfg, h).value <= Deadline(cfg, h + [e]).value
  {
    var h1 := h + [e];
    assert h1[..|h1| - 1] == h && forall i | 0 <= i < |h| :: h1[i] == h[i];
    DeadlineOfSpell(cfg, h);
    if Trips(cfg, h1) {
      assert h1[|h| - 1].at <= h1[|h|].at;
      CooldownsNeverShrink(cfg, TripsInSpell(cfg, h) - 1, TripsInSpell(cfg, h));
    }
  }

  /** Exact: an event moves an open deadline earlier iff it is the first trip of a new spell and its cooldown ends
      before the old deadline. */
  lemma DeadlineEarlierIff(cfg: Settings, h: seq<Event>, e: Event)
    requires Ordered(h + [e]) && Deadline(cfg, h).Some?
    ensures Deadline(cfg, h + [e]).Some?
    ensures Deadline(cfg, h + [e]).value < Deadline(cfg, h).value <==>
            && Trips(cfg, h + [e]) && TripsInSpell(cfg, h) == 0
            && e.at + Cooldown(cfg, 0) * NANOS < Deadline(cfg, h).value
  {
    var h1 := h + [e];
    assert h1[..|h1| - 1] == h;
    if TripsInSpell(cfg, h) > 0 {
      DeadlineNeverEarlier(cfg, h, e);
    }
  }

  // ---- Which settings let it happen ----

  /** `n` more events like `e`. */
  function Repeated(h: seq<Event>, e: Event, n: nat): (r: seq<Event>)
    ensures |r| == |h| + n
  {
    if n == 0 then h else Repeated(h, e, n - 1) + [e]
  }

  lemma RepeatedNext(h: seq<Event>, e: Event, n: nat)
    ensures var r := Repeated(h, e, n + 1);
            r == Repeated(h, e, n) + [e] && r[..|r| - 1] == Repeated(h, e, n) && r[|r| - 1] == e
  {
  }

  predicate AllAtOnce(h: seq<Event>) {
    forall i | 0 <= i < |h| :: h[i].at == 0
  }

  lemma {:induction false} RepeatedAtOnce(h: seq<Event>, e: Event, n: nat)
    requires AllAtOnce(h) && e.at == 0
    ensures AllAtOnce(Repeated(h, e, n))
  {
    if n > 0 {
      RepeatedAtOnce(h, e, n - 1);
    }
  }

  /** Where `n` bad responses lead from a point with none pending: no trip before the threshold, one trip at it. */
  ghost predicate BurstLeads(cfg: Settings, h: seq<Event>, n: nat, r: seq<Event>) {
    var trip := n == cfg.UnhealthyLen();
    && Remainder(UnhealthyRun(r), cfg.UnhealthyLen()) == (if trip then 0 else n)
    && (n > 0 ==> HealthyRun(r) == 0)
    && TripsInSpell(cfg, r) == TripsInSpell(cfg, h) + (if trip then 1 else 0)
    && Deadline(cfg, r) == if trip then Some(Cooldown(cfg, TripsInSpell(cfg, h)) * NANOS) else Deadline(cfg, h)
  }

  lemma OneUnhealthy(cfg: Settings, h: seq<Event>, r: seq<Event>)
    requires r == h + [Unhealthy(0)]
    ensures HealthyRun(r) == 0 && UnhealthyRun(r) == UnhealthyRun(h) + 1
    ensures var pending := Remainder(UnhealthyRun(h), cfg.UnhealthyLen());
            var trip := pending + 1 == cfg.UnhealthyLen();
            && Remainder(UnhealthyRun(r), cfg.UnhealthyLen()) == (if trip then 0 else pending + 1)
            && TripsInSpell(cfg, r) == TripsInSpell(cfg, h) + (if trip then 1 else 0)
            && (if trip then Deadline(cfg, r) == Some(Cooldown(cfg, TripsInSpell(cfg, h)) * NANOS)
                else Deadline(cfg, r) == Deadline(cfg, h))
  {
    assert r[..|r| - 1] == h && r[|r| - 1] == Unhealthy(0);
    RemainderNext(UnhealthyRun(h), cfg.UnhealthyLen());
    assert Trips(cfg, r) <==> Remainder(UnhealthyRun(r), cfg.UnhealthyLen()) == 0;
  }

  lemma BurstNext(cfg: Settings, h: seq<Event>, n: nat, r: seq<Event>, next: seq<Event>)
    requires n < cfg.UnhealthyLen() && BurstLeads(cfg, h, n, r) && next == r + [Unhealthy(0)]
    ensures BurstLeads(cfg, h, n + 1, next)
  {
    OneUnhealthy(cfg, r, next);
  }

  lemma {:induction false} UnhealthyBurst(cfg: Settings, h: seq<Event>, n: nat)
    requires Remainder(UnhealthyRun(h), cfg.UnhealthyLen()) == 0 && n <= cfg.UnhealthyLen()
    ensures BurstLeads(cfg, h, n, Repeated(h, Unhealthy(0), n))
  {
    if n > 0 {
      UnhealthyBurst(cfg, h, n - 1);
      RepeatedNext(h, Unhealthy(0), n - 1);
      BurstNext(cfg, h, n - 1, Repeated(h, Unhealthy(0), n - 1), Repeated(h, Unhealthy(0), n));
    }
  }

  lemma OneHealthy(cfg: Settings, h: seq<Event>)
    ensures var r := h + [Healthy(0)];
            && HealthyRun(r) == HealthyRun(h) + 1 && UnhealthyRun(r) == 0 && Deadline(cfg, r) == Deadline(cfg, h)
            && (HealthyRun(r) == cfg.HealthyLen() ==> TripsInSpell(cfg, r) == 0)
  {
    var r := h + [Healthy(0)];
    assert r[..|r| - 1] == h;
    assert Remainder(cfg.HealthyLen(), cfg.HealthyLen()) == Remainder(0, cfg.HealthyLen());
  }

  /** Good responses: they clear what is pending, leave the deadline, and at the threshold end the spell. */
  lemma {:induction false} HealthyBurst(cfg: Settings, h: seq<Event>, n: nat)
    requires HealthyRun(h) == 0 && 0 < n <= cfg.HealthyLen()
    ensures var r := Repeated(h, Healthy(0), n);
            && HealthyRun(r) == n && UnhealthyRun(r) == 0 && Deadline(cfg, r) == Deadline(cfg, h)
            && (n == cfg.HealthyLen() ==> TripsInSpell(cfg, r) == 0)
  {
    RepeatedNext(h, Healthy(0), n - 1);
    OneHealthy(cfg, Repeated(h, Healthy(0), n - 1));
    if n > 1 {
      HealthyBurst(cfg, h, n - 1);
    }
  }

  /** Two trips and a recovery, at one time. */
  function TwoTripsAndRecovery(cfg: Settings): seq<Event> {
    var twice := Repeated(Repeated([], Unhealthy(0), cfg.UnhealthyLen()), Unhealthy(0), cfg.UnhealthyLen());
    Repeated(twice, Healthy(0), cfg.HealthyLen())
  }

  lemma AfterTwoTripsAndRecovery(cfg: Settings)
    ensures var h := TwoTripsAndRecovery(cfg);
            && AllAtOnce(h) && UnhealthyRun(h) == 0 && TripsInSpell(cfg, h) == 0
            && Deadline(cfg, h) == Some(Cooldown(cfg, 1) * NANOS)
  {
    var once := Repeated([], Unhealthy(0), cfg.UnhealthyLen());
    var twice := Repeated(once, Unhealthy(0), cfg.UnhealthyLen());
    UnhealthyBurst(cfg, [], cfg.UnhealthyLen());
    UnhealthyBurst(cfg, once, cfg.UnhealthyLen());
    HealthyBurst(cfg, twice, cfg.HealthyLen());
    RepeatedAtOnce([], Unhealthy(0), cfg.UnhealthyLen());
    RepeatedAtOnce(once, Unhealthy(0), cfg.UnhealthyLen());
    RepeatedAtOnce(twice, Healthy(0), cfg.HealthyLen());
  }

  /** ... and all but the last bad response of the next trip. */
  function BeforeNextTrip(cfg: Settings): seq<Event> {
    Repeated(TwoTripsAndRecovery(cfg), Unhealthy(0), cfg.UnhealthyLen() - 1)
  }

  /** The last bad response of the first trip of a spell: the deadline is then that trip's, the shortest. */
  lemma NextTrip(cfg: Settings, well: seq<Event>, n: nat, h: seq<Event>)
    requires AllAtOnce(well) && UnhealthyRun(well) == 0 && TripsInSpell(cfg, well) == 0
    requires n + 1 == cfg.UnhealthyLen() && h == Repeated(well, Unhealthy(0), n)
    ensures AllAtOnce(h + [Unhealthy(0)])
    ensures Deadline(cfg, h) == Deadline(cfg, well)
    ensures Deadline(cfg, h + [Unhealthy(0)]) == Some(Cooldown(cfg, 0) * NANOS)
  {
    UnhealthyBurst(cfg, well, n);
    UnhealthyBurst(cfg, well, n + 1);
    RepeatedNext(well, Unhealthy(0), n);
    RepeatedAtOnce(well, Unhealthy(0), n + 1);
  }

  lemma AllAtOnceIsOrdered(h: seq<Event>)
    requires AllAtOnce(h)
    ensures Ordered(h)
  {
  }

  /** After a recovery the deadline can move earlier, even while the breaker is open: for any settings whose
      cooldowns grow, the next trip starts a new spell with the shortest one. */
  lemma RecoveryCanShortenDeadline(cfg: Settings)
    requires 0 < cfg.base < cfg.maxSec
    ensures var h := BeforeNextTrip(cfg);
            && Ordered(h + [Unhealthy(0)])
            && Deadline(cfg, h) == Some(Cooldown(cfg, 1) * NANOS)
            && Deadline(cfg, h + [Unhealthy(0)]) == Some(cfg.base * NANOS)
            && cfg.base < Cooldown(cfg, 1)
  {
    AfterTwoTripsAndRecovery(cfg);
    NextTrip(cfg, TwoTripsAndRecovery(cfg), cfg.UnhealthyLen() - 1, BeforeNextTrip(cfg));
    AllAtOnceIsOrdered(BeforeNextTrip(cfg) + [Unhealthy(0)]);
    FirstCooldowns(cfg);
  }

  lemma FirstCooldowns(cfg: Settings)
    requires 0 < cfg.base < cfg.maxSec
    ensures Cooldown(cfg, 0) == cfg.base < Cooldown(cfg, 1)
  {
    assert Pow2(1) == 2 * Pow2(0);
  }

  lemma CooldownIsBase(cfg: Settings, n: nat)
    requires cfg.base == 0 || cfg.maxSec <= cfg.base
    ensures Cooldown(cfg, n) == cfg.base
  {
    MulGrows(cfg.base, 1, Pow2(Min(n, 16)));
  }

  lemma {:induction false} DeadlineByBase(cfg: Settings, h: seq<Event>)
    requires (cfg.base == 0 || cfg.maxSec <= cfg.base) && Ordered(h) && Deadline(cfg, h).Some?
    ensures h != [] && Deadline(cfg, h).value <= h[|h| - 1].at + cfg.base * NANOS
  {
    var h0 := h[..|h| - 1];
    if Trips(cfg, h) {
      CooldownIsBase(cfg, TripsInSpell(cfg, h0));
    } else {
      DeadlineByBase(cfg, h0);
      assert h0[|h0| - 1].at <= h[|h| - 1].at;
    }
  }

  /** No event of any history moves an open deadline earlier. */
  ghost predicate DeadlinesOnlyGrow(cfg: Settings) {
    forall h, e | Ordered(h + [e]) && Deadline(cfg, h).Some? ::
      Deadline(cfg, h + [e]).Some? && Deadline(cfg, h).value <= Deadline(cfg, h + [e]).value
  }

  /** Exact, from the settings alone: deadlines only move later iff the cooldown cannot grow. */
  lemma DeadlinesOnlyGrowIff(cfg: Settings)
    ensures DeadlinesOnlyGrow(cfg) <==> cfg.base == 0 || cfg.maxSec <= cfg.base
  {
    if cfg.base == 0 || cfg.maxSec <= cfg.base {
      forall h, e | Ordered(h + [e]) && Deadline(cfg, h).Some?
        ensures Deadline(cfg, h + [e]).Some? && Deadline(cfg, h).value <= Deadline(cfg, h + [e]).value
      {
        DeadlineByBaseGrows(cfg, h, e);
      }
    } else {
      RecoveryCanShortenDeadline(cfg);
      var h := BeforeNextTrip(cfg);
      assert Deadline(cfg, h + [Unhealthy(0)]).value < Deadline(cfg, h).value;
    }
  }

  lemma DeadlineByBaseGrows(cfg: Settings, h: seq<Event>, e: Event)
    requires (cfg.base == 0 || cfg.maxSec <= cfg.base) && Ordered(h + [e]) && Deadline(cfg, h).Some?
    ensures Deadline(cfg, h + [e]).Some? && Deadline(cfg, h).value <= Deadline(cfg, h + [e]).value
  {
    var h1 := h + [e];
    assert forall i | 0 <= i < |h| :: h1[i] == h[i];
    DeadlineByBase(cfg, h);
    assert h1[|h| - 1].at <= h1[|h|].at;
    CooldownIsBase(cfg, 0);
    DeadlineEarlierIff(cfg, h, e);
  }
}
