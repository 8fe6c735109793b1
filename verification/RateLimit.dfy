/** The in-memory fixed-window counter store, and what it admits over whole runs. */
module RateLimit {
  import opened Numbers
  import opened Wrappers

  type Instant = int

  datatype Window = Window(start: Instant, count: nat)

  datatype WindowResult = WindowResult(allowed: bool, remaining: nat, reset: nat, limit: nat)

  function SaturatingSub(a: int, b: int): (r: nat)
    ensures r >= a - b && (r == 0 || r == a - b)
  {
    if a <= b then 0 else a - b
  }

  /** The window that a request at `now` is counted in, before it is counted. */
  function Current(entry: Option<Window>, length: nat, now: Instant): Window {
    match entry
    case Some(w) => if SaturatingSub(now, w.start) >= length then Window(now, 0) else w
    case None => Window(now, 0)
  }

  /** One request against a key's window. */
  function Count(entry: Option<Window>, limit: nat, length: nat, now: Instant): (Window, WindowResult) {
    var w := Current(entry, length, now);
    var allowed := w.count < limit;
    var count := if allowed then w.count + 1 else w.count;
    (Window(w.start, count),
     WindowResult(allowed, SaturatingSub(limit, count), SaturatingSub(length, SaturatingSub(now, w.start)), limit))
  }

  function Entry(windows: map<string, Window>, key: string): Option<Window> {
    if key in windows then Some(windows[key]) else None
  }

  class LocalCounterStore {
    var windows: map<string, Window>

    constructor ()
      ensures windows == map[]
    {
      windows := map[];
    }

    /** Counts one request for `key`; every other key keeps its window. */
    method IncrFixedWindow(key: string, limit: nat, length: nat, now: Instant) returns (r: WindowResult)
      modifies this
      ensures r == Count(Entry(old(windows), key), limit, length, now).1 && r.limit == limit
      ensures windows == old(windows)[key := Count(Entry(old(windows), key), limit, length, now).0]
    {
      if key !in windows {
        windows := windows[key := Window(now, 0)];
      }
      var start, count := windows[key].start, windows[key].count;
      if SaturatingSub(now, start) >= length {
        start, count := now, 0;
      }
      var allowed := count < limit;
      var newCount := if allowed then count + 1 else count;
      windows := windows[key := Window(start, newCount)];
      var elapsed := SaturatingSub(now, start);
      r := WindowResult(allowed, SaturatingSub(limit, newCount), SaturatingSub(length, elapsed), limit);
    }
  }

  // ---- Whole runs ----

  datatype Call = Call(key: string, now: Instant)

  /** Each key has its own fixed limit and window length. */
  datatype Quota = Quota(limit: nat, length: nat)

  ghost predicate TimeMovesForward(calls: seq<Call>, now: Instant) {
    && (calls != [] ==> now <= calls[0].now)
    && forall i, j | 0 <= i < j < |calls| :: calls[i].now <= calls[j].now
  }

  /** The store after one call. */
  function After(windows: map<string, Window>, quota: string -> Quota, c: Call): map<string, Window> {
    var q := quota(c.key);
    windows[c.key := Count(Entry(windows, c.key), q.limit, q.length, c.now).0]
  }

  predicate Allows(windows: map<string, Window>, quota: string -> Quota, c: Call) {
    var q := quota(c.key);
    Count(Entry(windows, c.key), q.limit, q.length, c.now).1.allowed
  }

  /** How many calls for `key` are allowed at times in `[from, to)`. */
  function Admitted(
    windows: map<string, Window>, quota: string -> Quota, calls: seq<Call>, key: string, from: Instant, to: Instant)
    : nat
    decreases calls
  {
    if calls == [] then 0
    else
      var c := calls[0];
      (if c.key == key && from <= c.now < to && Allows(windows, quota, c) then 1 else 0)
      + Admitted(After(windows, quota, c), quota, calls[1..], key, from, to)
  }

  /** The most that any interval of one window length can hold. */
  function Most(q: Quota): nat {
    if q.limit == 0 || q.length == 0 then 0 else if q.length == 1 then q.limit else 2 * q.limit - 1
  }

  /** What a key's entry still admits into an interval of one window length that starts at `from`: the rest of
      a window that began inside it, or the rest of an earlier window and one more. */
  function Headroom(entry: Option<Window>, q: Quota, now: Instant, from: Instant): int {
    match entry
    case None => Most(q)
    case Some(w) =>
      if w.start >= from then q.limit - w.count
      else if now < from then Most(q)
      else if now < w.start + q.length then 2 * q.limit - w.count
      else q.limit
  }

  /** A key's entry never counts above the limit, and has counted its opening call. */
  predicate EntryOk(entry: Option<Window>, q: Quota, now: Instant) {
    entry.Some? ==> entry.value.start <= now && entry.value.count <= q.limit && (q.limit > 0 ==> entry.value.count > 0)
  }

  lemma OneCall(windows: map<string, Window>, quota: string -> Quota, c: Call, key: string, now: Instant, from: Instant)
    requires now <= c.now && EntryOk(Entry(windows, key), quota(key), now)
    ensures var q, windows' := quota(key), After(windows, quota, c);
            var inside := c.key == key && from <= c.now < from + q.length && Allows(windows, quota, c);
            && EntryOk(Entry(windows', key), q, c.now)
            && (c.now < from + q.length ==>
                (if inside then 1 else 0) + Headroom(Entry(windows', key), q, c.now, from)
                <= Headroom(Entry(windows, key), q, now, from))
            && 0 <= Headroom(Entry(windows', key), q, c.now, from)
  {
  }

  lemma {:induction false} NothingLate(
    windows: map<string, Window>, quota: string -> Quota, calls: seq<Call>, key: string, from: Instant, to: Instant)
    requires TimeMovesForward(calls, to)
    ensures Admitted(windows, quota, calls, key, from, to) == 0
    decreases calls
  {
    if calls != [] {
      NothingLate(After(windows, quota, calls[0]), quota, calls[1..], key, from, to);
    }
  }

  lemma {:induction false} AdmittedWithinHeadroom(
    windows: map<string, Window>, quota: string -> Quota, calls: seq<Call>, key: string, now: Instant, from: Instant)
    requires TimeMovesForward(calls, now) && EntryOk(Entry(windows, key), quota(key), now)
    ensures Admitted(windows, quota, calls, key, from, from + quota(key).length)
         <= if Headroom(Entry(windows, key), quota(key), now, from) < 0 then 0
            else Headroom(Entry(windows, key), quota(key), now, from)
    decreases calls
  {
    if calls != [] {
      var c := calls[0];
      if c.now >= from + quota(key).length {
        NothingLate(windows, quota, calls, key, from, from + quota(key).length);
      } else {
        OneCall(windows, quota, c, key, now, from);
        AdmittedWithinHeadroom(After(windows, quota, c), quota, calls[1..], key, c.now, from);
      }
    }
  }

  /** When a run begins. */
  function Begin(calls: seq<Call>): Instant { if calls == [] then 0 else calls[0].now }

  /** In every run from an empty store, whatever other keys do: any half-open interval of one window length
      holds at most `Most` allowed calls of a key, which is `2 * limit - 1` for windows of two or more ticks. */
  lemma SlidingBound(quota: string -> Quota, calls: seq<Call>, key: string, from: Instant)
    requires TimeMovesForward(calls, Begin(calls))
    ensures Admitted(map[], quota, calls, key, from, from + quota(key).length) <= Most(quota(key))
  {
    AdmittedWithinHeadroom(map[], quota, calls, key, Begin(calls), from);
  }

  /** Each internal window: from the call that opens it, at most `limit` calls of the key are allowed. */
  lemma WindowBound(windows: map<string, Window>, quota: string -> Quota, c: Call, rest: seq<Call>)
    requires TimeMovesForward([c] + rest, c.now)
    requires Current(Entry(windows, c.key), quota(c.key).length, c.now) == Window(c.now, 0)
    ensures Admitted(windows, quota, [c] + rest, c.key, c.now, c.now + quota(c.key).length) <= quota(c.key).limit
  {
    var q, windows' := quota(c.key), After(windows, quota, c);
    assert ([c] + rest)[1..] == rest;
    assert forall i | 0 <= i < |rest| :: rest[i] == ([c] + rest)[i + 1];
    AdmittedWithinHeadroom(windows', quota, rest, c.key, c.now, c.now);
  }

  // ---- The bound is met ----

  /** `n` calls at one time. */
  function Burst(key: string, now: Instant, n: nat): seq<Call> {
    seq(n, _ => Call(key, now))
  }

  lemma BurstFirst(key: string, now: Instant, n: nat, rest: seq<Call>)
    requires n > 0
    ensures var calls := Burst(key, now, n) + rest;
            calls[0] == Call(key, now) && calls[1..] == Burst(key, now, n - 1) + rest
  {
  }

  /** A call that fits into the key's open window. */
  lemma CallInWindow(
    windows: map<string, Window>, quota: string -> Quota, key: string, w: Window, now: Instant, calls: seq<Call>,
    from: Instant, to: Instant)
    requires Entry(windows, key) == Some(w) && w.start <= now < w.start + quota(key).length
    requires calls != [] && calls[0] == Call(key, now) && w.count < quota(key).limit && from <= now < to
    ensures Admitted(windows, quota, calls, key, from, to)
         == 1 + Admitted(windows[key := Window(w.start, w.count + 1)], quota, calls[1..], key, from, to)
  {
    assert After(windows, quota, Call(key, now)) == windows[key := Window(w.start, w.count + 1)];
  }

  lemma StoredTwice(windows: map<string, Window>, key: string, w: Window, w': Window)
    ensures windows[key := w][key := w'] == windows[key := w']
  {
  }

  lemma NoBurst(key: string, now: Instant, rest: seq<Call>)
    ensures Burst(key, now, 0) + rest == rest
  {
  }

  lemma StoredAgain(windows: map<string, Window>, key: string, w: Window)
    requires Entry(windows, key) == Some(w)
    ensures windows[key := w] == windows
  {
  }

  /** A burst that fits into the key's open window is allowed in full. */
  lemma {:induction false} BurstFits(
    windows: map<string, Window>, quota: string -> Quota, key: string, w: Window, now: Instant, n: nat,
    rest: seq<Call>, from: Instant, to: Instant, calls: seq<Call>, w1: Window)
    requires Entry(windows, key) == Some(w) && w.start <= now < w.start + quota(key).length
    requires w1 == Window(w.start, w.count + n) && w1.count <= quota(key).limit && from <= now < to
    requires calls == Burst(key, now, n) + rest
    ensures Admitted(windows, quota, calls, key, from, to)
         == n + Admitted(windows[key := w1], quota, rest, key, from, to)
    decreases n
  {
    if n == 0 {
      NoBurst(key, now, rest);
      StoredAgain(windows, key, w);
    } else {
      var w' := Window(w.start, w.count + 1);
      BurstFirst(key, now, n, rest);
      CallInWindow(windows, quota, key, w, now, calls, from, to);
      BurstFits(windows[key := w'], quota, key, w', now, n - 1, rest, from, to, calls[1..], w1);
      StoredTwice(windows, key, w', w1);
    }
  }

  lemma BurstInWindow(
    windows: map<string, Window>, quota: string -> Quota, key: string, w: Window, now: Instant, n: nat,
    rest: seq<Call>, from: Instant, to: Instant)
    requires Entry(windows, key) == Some(w) && w.start <= now < w.start + quota(key).length
    requires w.count + n <= quota(key).limit && from <= now < to
    ensures Admitted(windows, quota, Burst(key, now, n) + rest, key, from, to)
         == n + Admitted(windows[key := Window(w.start, w.count + n)], quota, rest, key, from, to)
  {
    BurstFits(windows, quota, key, w, now, n, rest, from, to, Burst(key, now, n) + rest,
              Window(w.start, w.count + n));
  }

  /** A burst at the end of a window opens a fresh one. */
  lemma BurstAfterWindow(
    windows: map<string, Window>, quota: string -> Quota, key: string, w: Window, now: Instant, n: nat,
    rest: seq<Call>, from: Instant, to: Instant)
    requires Entry(windows, key) == Some(w) && w.start + quota(key).length <= now
    requires 0 < n <= quota(key).limit && quota(key).length > 0 && from <= now < to
    ensures Admitted(windows, quota, Burst(key, now, n) + rest, key, from, to)
         == n + Admitted(windows[key := Window(now, n)], quota, rest, key, from, to)
  {
    var w' := Window(now, 1);
    BurstFirst(key, now, n, rest);
    assert After(windows, quota, Call(key, now)) == windows[key := w'];
    BurstInWindow(windows[key := w'], quota, key, w', now, n - 1, rest, from, to);
    assert windows[key := w'][key := Window(now, n)] == windows[key := Window(now, n)];
  }

  /** One call opens a window, the rest of the limit comes at its end, and a whole limit right after it. A window
      of one tick has no later end: all calls come at once. */
  function WorstCase(key: string, q: Quota): seq<Call> {
    if Most(q) == 0 then []
    else if q.length == 1 then [Call(key, 0)] + (Burst(key, 0, q.limit - 1) + [])
    else [Call(key, 0)] + (Burst(key, q.length - 1, q.limit - 1) + (Burst(key, q.length, q.limit) + []))
  }

  function WorstFrom(q: Quota): Instant { if q.length <= 1 then 0 else q.length - 1 }

  /** The two bursts, after the call that opened the first window. */
  lemma BurstsMeetBound(
    windows: map<string, Window>, quota: string -> Quota, key: string, q: Quota, from: Instant, to: Instant)
    requires q == quota(key) && q.limit > 0 && q.length > 1 && Entry(windows, key) == Some(Window(0, 1))
    requires from == q.length - 1 && to == 2 * q.length - 1
    ensures Admitted(windows, quota, Burst(key, from, q.limit - 1) + (Burst(key, q.length, q.limit) + []), key, from,
                     to)
         == 2 * q.limit - 1
  {
    BurstInWindow(windows, quota, key, Window(0, 1), from, q.limit - 1, Burst(key, q.length, q.limit) + [], from, to);
    var full := Window(0, q.limit);
    BurstAfterWindow(windows[key := full], quota, key, full, q.length, q.limit, [], from, to);
  }

  lemma BurstInOrder(key: string, now: Instant, n: nat, rest: seq<Call>)
    requires TimeMovesForward(rest, now)
    ensures TimeMovesForward(Burst(key, now, n) + rest, now)
  {
  }

  lemma LaterInOrder(key: string, now: Instant, later: Instant, rest: seq<Call>)
    requires now <= later && TimeMovesForward(rest, later)
    ensures TimeMovesForward([Call(key, now)] + rest, now)
  {
  }

  lemma TwoBurstsInOrder(key: string, now: Instant, n: nat, later: Instant, m: nat)
    requires 0 <= now <= later
    ensures TimeMovesForward([Call(key, 0)] + (Burst(key, now, n) + (Burst(key, later, m) + [])), 0)
  {
    var second := Burst(key, later, m) + [];
    BurstInOrder(key, later, m, []);
    EarlierInOrder(second, now, later);
    BurstInOrder(key, now, n, second);
    LaterInOrder(key, 0, now, Burst(key, now, n) + second);
  }

  lemma OneBurstInOrder(key: string, n: nat)
    ensures TimeMovesForward([Call(key, 0)] + (Burst(key, 0, n) + []), 0)
  {
    BurstInOrder(key, 0, n, []);
    LaterInOrder(key, 0, 0, Burst(key, 0, n) + []);
  }

  lemma BeginInOrder(calls: seq<Call>, now: Instant)
    requires TimeMovesForward(calls, now)
    ensures TimeMovesForward(calls, Begin(calls))
  {
  }

  lemma WorstCaseInOrder(key: string, q: Quota)
    ensures TimeMovesForward(WorstCase(key, q), 0) && TimeMovesForward(WorstCase(key, q), Begin(WorstCase(key, q)))
  {
    if Most(q) > 0 {
      if q.length == 1 {
        OneBurstInOrder(key, q.limit - 1);
      } else {
        TwoBurstsInOrder(key, q.length - 1, q.limit - 1, q.length, q.limit);
      }
    }
    BeginInOrder(WorstCase(key, q), 0);
  }

  lemma EarlierInOrder(calls: seq<Call>, now: Instant, later: Instant)
    requires now <= later && TimeMovesForward(calls, later)
    ensures TimeMovesForward(calls, now)
  {
  }

  lemma OneTickMeetsBound(quota: string -> Quota, key: string, q: Quota)
    requires q == quota(key) && q.limit > 0 && q.length == 1
    ensures Admitted(map[], quota, WorstCase(key, q), key, 0, 1) == q.limit
  {
    var calls, begun := WorstCase(key, q), map[key := Window(0, 1)];
    assert calls[0] == Call(key, 0) && calls[1..] == Burst(key, 0, q.limit - 1) + [];
    assert After(map[], quota, Call(key, 0)) == begun;
    BurstInWindow(begun, quota, key, Window(0, 1), 0, q.limit - 1, [], 0, 1);
  }

  lemma LongWindowMeetsBound(quota: string -> Quota, key: string, q: Quota)
    requires q == quota(key) && q.limit > 0 && q.length > 1
    ensures Admitted(map[], quota, WorstCase(key, q), key, q.length - 1, 2 * q.length - 1) == 2 * q.limit - 1
  {
    var calls, begun := WorstCase(key, q), map[key := Window(0, 1)];
    assert calls[0] == Call(key, 0);
    assert calls[1..] == Burst(key, q.length - 1, q.limit - 1) + (Burst(key, q.length, q.limit) + []);
    assert After(map[], quota, Call(key, 0)) == begun;
    BurstsMeetBound(begun, quota, key, q, q.length - 1, 2 * q.length - 1);
  }

  /** The bound of `SlidingBound` is met, for every limit and window length. */
  lemma BoundIsMet(quota: string -> Quota, key: string)
    ensures var q := quota(key);
            && TimeMovesForward(WorstCase(key, q), 0)
            && Admitted(map[], quota, WorstCase(key, q), key, WorstFrom(q), WorstFrom(q) + q.length) == Most(q)
  {
    var q := quota(key);
    WorstCaseInOrder(key, q);
    if Most(q) > 0 {
      if q.length == 1 {
        OneTickMeetsBound(quota, key, q);
      } else {
        LongWindowMeetsBound(quota, key, q);
      }
    }
  }

  /** How many calls for `key` come at times in `[from, to)`. */
  function CallsWithin(calls: seq<Call>, key: string, from: Instant, to: Instant): nat {
    if calls == [] then 0
    else (if calls[0].key == key && from <= calls[0].now < to then 1 else 0) + CallsWithin(calls[1..], key, from, to)
  }

  /** A window of length 0 is over at once: with any limit but 0 every call is allowed. */
  lemma {:induction false} ZeroWindowAdmitsAll(
    windows: map<string, Window>, quota: string -> Quota, calls: seq<Call>, key: string, from: Instant, to: Instant)
    requires quota(key).length == 0 && quota(key).limit > 0
    ensures Admitted(windows, quota, calls, key, from, to) == CallsWithin(calls, key, from, to)
    decreases calls
  {
    if calls != [] {
      ZeroWindowAdmitsAll(After(windows, quota, calls[0]), quota, calls[1..], key, from, to);
    }
  }

  lemma {:induction false} ZeroLimitAdmitsNone(
    windows: map<string, Window>, quota: string -> Quota, calls: seq<Call>, key: string, from: Instant, to: Instant)
    requires quota(key).limit == 0
    ensures Admitted(windows, quota, calls, key, from, to) == 0
    decreases calls
  {
    if calls != [] {
      ZeroLimitAdmitsNone(After(windows, quota, calls[0]), quota, calls[1..], key, from, to);
    }
  }

  lemma {:induction false} BurstWithin(key: string, now: Instant, n: nat, from: Instant, to: Instant)
    requires from <= now < to
    ensures CallsWithin(Burst(key, now, n), key, from, to) == n
  {
    if n > 0 {
      assert Burst(key, now, n)[1..] == Burst(key, now, n - 1);
      BurstWithin(key, now, n - 1, from, to);
    }
  }

  /** The interval has the length of a window, and at least one tick. */
  ghost predicate KeepsToLimit(quota: string -> Quota, key: string, calls: seq<Call>, from: Instant) {
    Admitted(map[], quota, calls, key, from, from + Max(quota(key).length, 1)) <= quota(key).limit
  }

  /** No run admits more than `limit` calls of the key within one window length, or one tick. */
  ghost predicate NeverOverLimit(quota: string -> Quota, key: string) {
    forall calls, from | TimeMovesForward(calls, Begin(calls)) :: KeepsToLimit(quota, key, calls, from)
  }

  lemma ZeroWindowGoesOver(quota: string -> Quota, key: string, calls: seq<Call>)
    requires quota(key).length == 0 && quota(key).limit > 0 && calls == Burst(key, 0, quota(key).limit + 1)
    ensures TimeMovesForward(calls, Begin(calls)) && !KeepsToLimit(quota, key, calls, 0)
  {
    ZeroWindowAdmitsAll(map[], quota, calls, key, 0, 1);
    BurstWithin(key, 0, quota(key).limit + 1, 0, 1);
  }

  lemma LongWindowGoesOver(quota: string -> Quota, key: string)
    requires quota(key).length > 1 && quota(key).limit > 1
    ensures var calls := WorstCase(key, quota(key));
            TimeMovesForward(calls, Begin(calls)) && !KeepsToLimit(quota, key, calls, WorstFrom(quota(key)))
  {
    WorstCaseInOrder(key, quota(key));
    BoundIsMet(quota, key);
  }

  lemma KeepsTo(quota: string -> Quota, key: string, calls: seq<Call>, from: Instant)
    requires TimeMovesForward(calls, Begin(calls))
    requires quota(key).limit == 0 || quota(key).length == 1 || (quota(key).limit == 1 && quota(key).length > 0)
    ensures KeepsToLimit(quota, key, calls, from)
  {
    if quota(key).limit == 0 {
      ZeroLimitAdmitsNone(map[], quota, calls, key, from, from + Max(quota(key).length, 1));
    } else {
      SlidingBound(quota, calls, key, from);
    }
  }

  /** Exact: fixed windows keep to the limit over every sliding one iff nothing is allowed at all, windows are of
      one tick, or one call is allowed per window of any length but 0. */
  lemma NeverOverLimitIff(quota: string -> Quota, key: string)
    ensures NeverOverLimit(quota, key) <==>
            var q := quota(key);
            q.limit == 0 || q.length == 1 || (q.limit == 1 && q.length > 0)
  {
    var q := quota(key);
    if q.limit == 0 || q.length == 1 || (q.limit == 1 && q.length > 0) {
      forall calls, from | TimeMovesForward(calls, Begin(calls)) ensures KeepsToLimit(quota, key, calls, from) {
        KeepsTo(quota, key, calls, from);
      }
    } else if q.length == 0 {
      ZeroWindowGoesOver(quota, key, Burst(key, 0, q.limit + 1));
    } else {
      LongWindowGoesOver(quota, key);
    }
  }

  // ---- Windows and what is reported of them ----

  function CallsOf(calls: seq<Call>, key: string): nat {
    if calls == [] then 0 else (if calls[0].key == key then 1 else 0) + CallsOf(calls[1..], key)
  }

  /** Calls within a key's open window are allowed until the limit is reached. */
  lemma {:induction false} OpenWindowAdmits(
    windows: map<string, Window>, quota: string -> Quota, key: string, w: Window, calls: seq<Call>, from: Instant,
    to: Instant)
    requires Entry(windows, key) == Some(w) && w.count <= quota(key).limit
    requires forall b | b in calls && b.key == key ::
               w.start <= b.now < w.start + quota(key).length && from <= b.now < to
    ensures Admitted(windows, quota, calls, key, from, to) == Min(CallsOf(calls, key), quota(key).limit - w.count)
    decreases calls
  {
    if calls != [] {
      var c, rest := calls[0], calls[1..];
      assert c in calls && forall b :: b in rest ==> b in calls;
      var w' := if c.key == key && w.count < quota(key).limit then Window(w.start, w.count + 1) else w;
      assert Entry(After(windows, quota, c), key) == Some(w');
      OpenWindowAdmits(After(windows, quota, c), quota, key, w', rest, from, to);
    }
  }

  /** The reported `remaining` is exact: of the key's calls up to the reported reset, that many are allowed. */
  lemma RemainingIsExact(windows: map<string, Window>, quota: string -> Quota, c: Call, between: seq<Call>)
    requires quota(c.key).length > 0 && EntryOk(Entry(windows, c.key), quota(c.key), c.now)
    requires var q := quota(c.key);
             var reset := Count(Entry(windows, c.key), q.limit, q.length, c.now).1.reset;
             forall b | b in between && b.key == c.key :: c.now <= b.now < c.now + reset
    ensures var q := quota(c.key);
            var (w, r) := Count(Entry(windows, c.key), q.limit, q.length, c.now);
            Admitted(After(windows, quota, c), quota, between, c.key, c.now, c.now + r.reset)
            == Min(CallsOf(between, c.key), r.remaining)
  {
    var q := quota(c.key);
    var (w, r) := Count(Entry(windows, c.key), q.limit, q.length, c.now);
    ResetEndsWindow(Entry(windows, c.key), q, c.now);
    OpenWindowAdmits(After(windows, quota, c), quota, c.key, w, between, c.now, c.now + r.reset);
  }

  /** The store after a list of calls. */
  function Folded(windows: map<string, Window>, quota: string -> Quota, calls: seq<Call>): map<string, Window>
    decreases calls
  {
    if calls == [] then windows else Folded(After(windows, quota, calls[0]), quota, calls[1..])
  }

  /** What later calls are granted depends on the earlier ones only through the store they left. */
  lemma {:induction false} AdmittedInTurn(
    windows: map<string, Window>, quota: string -> Quota, calls: seq<Call>, more: seq<Call>, key: string,
    from: Instant, to: Instant)
    ensures Admitted(windows, quota, calls + more, key, from, to)
         == Admitted(windows, quota, calls, key, from, to)
            + Admitted(Folded(windows, quota, calls), quota, more, key, from, to)
    decreases calls
  {
    if calls == [] {
      assert calls + more == more;
    } else {
      assert (calls + more)[1..] == calls[1..] + more;
      AdmittedInTurn(After(windows, quota, calls[0]), quota, calls[1..], more, key, from, to);
    }
  }

  lemma {:induction false} SameWindowBetween(
    windows: map<string, Window>, quota: string -> Quota, key: string, start: Instant, calls: seq<Call>)
    requires key in windows && windows[key].start == start
    requires forall b | b in calls && b.key == key :: start <= b.now < start + quota(key).length
    ensures var end := Folded(windows, quota, calls); key in end && end[key].start == start
    decreases calls
  {
    if calls != [] {
      assert calls[0] in calls && forall b :: b in calls[1..] ==> b in calls;
      SameWindowBetween(After(windows, quota, calls[0]), quota, key, start, calls[1..]);
    }
  }

  /** The reported `reset` ends with the window that the call was counted in. */
  lemma ResetEndsWindow(entry: Option<Window>, q: Quota, now: Instant)
    requires q.length > 0 && EntryOk(entry, q, now)
    ensures var (w, r) := Count(entry, q.limit, q.length, now);
            w.start <= now && w.start + q.length == now + r.reset && 0 < r.reset <= q.length
  {
  }

  /** The reported `reset` is exact: whatever calls come in between, a later call of the key is still counted in
      the same window before that time, and opens a fresh window from it on. */
  lemma ResetIsExact(
    windows: map<string, Window>, quota: string -> Quota, c: Call, between: seq<Call>, later: Instant)
    requires quota(c.key).length > 0 && EntryOk(Entry(windows, c.key), quota(c.key), c.now) && c.now <= later
    requires var q := quota(c.key);
             var reset := Count(Entry(windows, c.key), q.limit, q.length, c.now).1.reset;
             forall b | b in between && b.key == c.key :: c.now <= b.now < c.now + reset
    ensures var q := quota(c.key);
            var (w, r) := Count(Entry(windows, c.key), q.limit, q.length, c.now);
            var entry := Entry(Folded(After(windows, quota, c), quota, between), c.key);
            if later < c.now + r.reset then Current(entry, q.length, later).start == w.start
            else Current(entry, q.length, later) == Window(later, 0)
  {
    var q := quota(c.key);
    var start := After(windows, quota, c)[c.key].start;
    ResetEndsWindow(Entry(windows, c.key), q, c.now);
    SameWindowBetween(After(windows, quota, c), quota, c.key, start, between);
  }
}
