/** The batching sink of logger plugins: a bounded channel, a flush loop with size, inactivity and age
    triggers, and retries that resend only what was not claimed as delivered. */
module Batch {
  import opened Wrappers

  type Instant = int

  datatype Config = Config(
    batchMaxSize: nat,
    inactiveTimeout: nat,
    bufferDuration: nat,
    maxRetryCount: nat,
    maxPending: nat)
  {
    function BatchMax(): (n: nat)
      ensures n >= 1 && n >= batchMaxSize && (n == 1 || n == batchMaxSize)
    {
      if batchMaxSize > 1 then batchMaxSize else 1
    }

    function Capacity(): (n: nat)
      ensures n >= 1 && n >= maxPending && (n == 1 || n == maxPending)
    {
      if maxPending > 1 then maxPending else 1
    }
  }

  /** A flush attempt succeeds, or fails with perhaps the index of the first entry that failed. */
  datatype Reply = FlushOk | FlushFailed(firstFail: Option<nat>)

  /** An arbitrary flusher: its answer may depend on how many attempts it has seen. */
  type Flusher<!E> = (nat, seq<E>) -> Reply

  datatype Ending = DeliveredTail | DroppedTail | NothingLeft

  /** What became of one batch: the heads that failed attempts claimed as delivered, the last tail, how it
      ended, and what each attempt was given. */
  datatype Settlement<E> = Settlement(heads: seq<seq<E>>, tail: seq<E>, ending: Ending, attempts: seq<seq<E>>)

  function Flat<E>(parts: seq<seq<E>>): seq<E> {
    if parts == [] then [] else parts[0] + Flat(parts[1..])
  }

  lemma FlatCons<E>(part: seq<E>, parts: seq<seq<E>>)
    ensures Flat([part] + parts) == part + Flat(parts)
  {
    assert ([part] + parts)[1..] == parts;
  }

  function BatchOf<E>(s: Settlement<E>): seq<E> { Flat(s.heads) + s.tail }

  /** How many entries a failed attempt claims as delivered. */
  function Claimed<E>(firstFail: Option<nat>, entries: seq<E>): (n: nat)
    ensures n <= |entries|
  {
    match firstFail
    case None => 0
    case Some(k) => if k < |entries| then k else |entries|
  }

  /** The retry loop from the attempt numbered `no`, after `failures` failed attempts. */
  function Settle<E>(cfg: Config, flusher: Flusher<E>, no: nat, entries: seq<E>, failures: nat): Settlement<E>
    requires failures <= cfg.maxRetryCount
    decreases cfg.maxRetryCount - failures
  {
    match flusher(no, entries)
    case FlushOk => Settlement([], entries, DeliveredTail, [entries])
    case FlushFailed(firstFail) =>
      var n := Claimed(firstFail, entries);
      var head, rest := entries[..n], entries[n..];
      if rest == [] then Settlement([head], [], NothingLeft, [entries])
      else if failures + 1 > cfg.maxRetryCount then Settlement([head], rest, DroppedTail, [entries])
      else
        var s := Settle(cfg, flusher, no + 1, rest, failures + 1);
        s.(heads := [head] + s.heads, attempts := [entries] + s.attempts)
  }

  /** A settlement after earlier heads and attempts. */
  function Behind<E>(heads: seq<seq<E>>, attempts: seq<seq<E>>, s: Settlement<E>): Settlement<E> {
    s.(heads := heads + s.heads, attempts := attempts + s.attempts)
  }

  lemma BehindNothing<E>(s: Settlement<E>)
    ensures Behind([], [], s) == s
  {
  }

  lemma AfterMore<E>(heads: seq<seq<E>>, attempts: seq<seq<E>>, head: seq<E>, entries: seq<E>, s: Settlement<E>)
    ensures Behind(heads, attempts, s.(heads := [head] + s.heads, attempts := [entries] + s.attempts))
         == Behind(heads + [head], attempts + [entries], s)
  {
    assert heads + ([head] + s.heads) == (heads + [head]) + s.heads;
    assert attempts + ([entries] + s.attempts) == (attempts + [entries]) + s.attempts;
  }

  /** The loop as it stands after some heads and attempts. */
  function SettleFrom<E>(
    cfg: Config, flusher: Flusher<E>, no: nat, entries: seq<E>, failures: nat, heads: seq<seq<E>>,
    attempts: seq<seq<E>>): Settlement<E>
    requires failures <= cfg.maxRetryCount
    decreases cfg.maxRetryCount - failures
  {
    var tried := attempts + [entries];
    match flusher(no, entries)
    case FlushOk => Settlement(heads, entries, DeliveredTail, tried)
    case FlushFailed(firstFail) =>
      var n := Claimed(firstFail, entries);
      var claimed, rest := heads + [entries[..n]], entries[n..];
      if rest == [] then Settlement(claimed, [], NothingLeft, tried)
      else if failures + 1 > cfg.maxRetryCount then Settlement(claimed, rest, DroppedTail, tried)
      else SettleFrom(cfg, flusher, no + 1, rest, failures + 1, claimed, tried)
  }

  lemma {:induction false} SettleFromIsBehind<E>(
    cfg: Config, flusher: Flusher<E>, no: nat, entries: seq<E>, failures: nat, heads: seq<seq<E>>,
    attempts: seq<seq<E>>)
    requires failures <= cfg.maxRetryCount
    ensures SettleFrom(cfg, flusher, no, entries, failures, heads, attempts)
         == Behind(heads, attempts, Settle(cfg, flusher, no, entries, failures))
    decreases cfg.maxRetryCount - failures
  {
    match flusher(no, entries)
    case FlushOk => assert heads + [] == heads;
    case FlushFailed(firstFail) =>
      var n := Claimed(firstFail, entries);
      var head, rest := entries[..n], entries[n..];
      if rest != [] && failures < cfg.maxRetryCount {
        SettleFromIsBehind(cfg, flusher, no + 1, rest, failures + 1, heads + [head], attempts + [entries]);
        AfterMore(heads, attempts, head, entries, Settle(cfg, flusher, no + 1, rest, failures + 1));
      }
  }

  method FlushWithRetry<E>(cfg: Config, flusher: Flusher<E>, no: nat, batch: seq<E>) returns (s: Settlement<E>)
    ensures s == Settle(cfg, flusher, no, batch, 0)
  {
    var entries, failures := batch, 0;
    var heads: seq<seq<E>>, attempts: seq<seq<E>> := [], [];
    ghost var k := no;
    SettleFromIsBehind(cfg, flusher, no, batch, 0, [], []);
    BehindNothing(Settle(cfg, flusher, no, batch, 0));
    while true
      invariant failures <= cfg.maxRetryCount && k == no + failures
      invariant SettleFrom(cfg, flusher, k, entries, failures, heads, attempts) == Settle(cfg, flusher, no, batch, 0)
      decreases cfg.maxRetryCount - failures
    {
      match flusher(no + failures, entries) {
        case FlushOk => return Settlement(heads, entries, DeliveredTail, attempts + [entries]);
        case FlushFailed(firstFail) =>
          var n := 0;
          if firstFail.Some? {
            n := if firstFail.value < |entries| then firstFail.value else |entries|;
          }
          var head, rest := entries[..n], entries[n..];
          if rest == [] {
            return Settlement(heads + [head], [], NothingLeft, attempts + [entries]);
          }
          if failures + 1 > cfg.maxRetryCount {
            return Settlement(heads + [head], rest, DroppedTail, attempts + [entries]);
          }
          heads, attempts, entries := heads + [head], attempts + [entries], rest;
          failures := failures + 1;
          k := k + 1;
      }
    }
  }

  /** Attempt `k` was given exactly what the earlier attempts had not claimed. */
  ghost predicate AttemptsShrink<E>(s: Settlement<E>) {
    && |s.attempts| <= |s.heads| + 1
    && forall k {:trigger s.attempts[k]} | 0 <= k < |s.attempts| :: s.attempts[k] == Flat(s.heads[k..]) + s.tail
  }

  /** Head `k` is what the `k`-th attempt, which failed, claimed. */
  ghost predicate HeadsAreClaims<E>(flusher: Flusher<E>, no: nat, s: Settlement<E>) {
    && |s.heads| <= |s.attempts|
    && forall k {:trigger s.heads[k]} | 0 <= k < |s.heads| ::
         var r := flusher(no + k, s.attempts[k]);
         r.FlushFailed? && |s.heads[k]| == Claimed(r.firstFail, s.attempts[k])
  }

  ghost predicate EndsWell<E>(flusher: Flusher<E>, no: nat, s: Settlement<E>, budget: nat) {
    && 1 <= |s.attempts| <= budget
    && |s.heads| == (if s.ending == DeliveredTail then |s.attempts| - 1 else |s.attempts|)
    && match s.ending
       case DeliveredTail => flusher(no + |s.attempts| - 1, s.tail) == FlushOk
       case DroppedTail => |s.attempts| == budget && s.tail != []
       case NothingLeft => s.tail == []
  }

  /** What a settlement promises: the batch is its claimed heads and one last tail, attempt by attempt; there
      are at most `budget` attempts; a delivered tail was accepted whole, and a tail is dropped only when the
      budget is used up. */
  ghost predicate Sound<E>(flusher: Flusher<E>, no: nat, batch: seq<E>, s: Settlement<E>, budget: nat) {
    BatchOf(s) == batch && AttemptsShrink(s) && HeadsAreClaims(flusher, no, s) && EndsWell(flusher, no, s, budget)
  }

  function AddAttempt<E>(head: seq<E>, entries: seq<E>, s: Settlement<E>): Settlement<E> {
    s.(heads := [head] + s.heads, attempts := [entries] + s.attempts)
  }

  lemma BatchCons<E>(head: seq<E>, entries: seq<E>, s: Settlement<E>)
    requires entries == head + BatchOf(s)
    ensures BatchOf(AddAttempt(head, entries, s)) == entries
  {
    FlatCons(head, s.heads);
    assert head + Flat(s.heads) + s.tail == head + (Flat(s.heads) + s.tail);
  }

  lemma ShrinkCons<E>(head: seq<E>, entries: seq<E>, s: Settlement<E>)
    requires AttemptsShrink(s) && entries == head + BatchOf(s)
    ensures AttemptsShrink(AddAttempt(head, entries, s))
  {
    var t := AddAttempt(head, entries, s);
    BatchCons(head, entries, s);
    assert t.heads[0..] == t.heads;
    forall k | 0 < k < |t.attempts| ensures t.attempts[k] == Flat(t.heads[k..]) + t.tail {
      assert t.heads[k..] == s.heads[k - 1..];
    }
  }

  lemma EndsCons<E>(flusher: Flusher<E>, no: nat, head: seq<E>, entries: seq<E>, s: Settlement<E>, budget: nat)
    requires EndsWell(flusher, no + 1, s, budget)
    ensures EndsWell(flusher, no, AddAttempt(head, entries, s), budget + 1)
  {
    var t := AddAttempt(head, entries, s);
    assert |t.attempts| == |s.attempts| + 1 && no + |t.attempts| - 1 == no + 1 + |s.attempts| - 1;
  }

  lemma ClaimsCons<E>(flusher: Flusher<E>, no: nat, head: seq<E>, entries: seq<E>, s: Settlement<E>)
    requires HeadsAreClaims(flusher, no + 1, s) && flusher(no, entries).FlushFailed?
    requires |head| == Claimed(flusher(no, entries).firstFail, entries)
    ensures HeadsAreClaims(flusher, no, AddAttempt(head, entries, s))
  {
    var t := AddAttempt(head, entries, s);
    forall k | 0 < k < |t.heads|
      ensures flusher(no + k, t.attempts[k]).FlushFailed?
      ensures |t.heads[k]| == Claimed(flusher(no + k, t.attempts[k]).firstFail, t.attempts[k])
    {
      assert t.heads[k] == s.heads[k - 1] && t.attempts[k] == s.attempts[k - 1] && no + k == no + 1 + (k - 1);
    }
  }

  lemma FlatOne<E>(part: seq<E>)
    ensures Flat([part]) == part
  {
    FlatCons(part, []);
    assert [part] + [] == [part] && part + [] == part;
  }

  lemma OneHead<E>(head: seq<E>, tail: seq<E>, ending: Ending, entries: seq<E>)
    requires entries == head + tail
    ensures var s := Settlement([head], tail, ending, [entries]);
            BatchOf(s) == entries && AttemptsShrink(s)
  {
    FlatOne(head);
    assert [head][0..] == [head];
  }

  /** A failed attempt claims the head of what it was given. */
  ghost predicate Claims<E>(flusher: Flusher<E>, no: nat, entries: seq<E>, head: seq<E>, rest: seq<E>) {
    && flusher(no, entries).FlushFailed?
    && |head| == Claimed(flusher(no, entries).firstFail, entries)
    && entries == head + rest
  }

  /** After a failed attempt: the last one, or one more in front of a settlement. */
  lemma SettleFailed<E>(cfg: Config, flusher: Flusher<E>, no: nat, entries: seq<E>, failures: nat)
    returns (head: seq<E>, rest: seq<E>)
    requires failures <= cfg.maxRetryCount && flusher(no, entries).FlushFailed?
    ensures Claims(flusher, no, entries, head, rest)
    ensures Settle(cfg, flusher, no, entries, failures)
         == if rest == [] || failures == cfg.maxRetryCount
            then Settlement([head], rest, if rest == [] then NothingLeft else DroppedTail, [entries])
            else AddAttempt(head, entries, Settle(cfg, flusher, no + 1, rest, failures + 1))
  {
    var n := Claimed(flusher(no, entries).firstFail, entries);
    head, rest := entries[..n], entries[n..];
  }

  lemma OnlyTail<E>(entries: seq<E>)
    ensures BatchOf(Settlement([], entries, DeliveredTail, [entries])) == entries
  {
  }

  lemma {:induction false} SettleKeepsBatch<E>(
    cfg: Config, flusher: Flusher<E>, no: nat, entries: seq<E>, failures: nat)
    requires failures <= cfg.maxRetryCount
    ensures BatchOf(Settle(cfg, flusher, no, entries, failures)) == entries
    decreases cfg.maxRetryCount - failures
  {
    if flusher(no, entries).FlushOk? {
      OnlyTail(entries);
    } else {
      var head, rest := SettleFailed(cfg, flusher, no, entries, failures);
      if rest == [] || failures == cfg.maxRetryCount {
        OneHead(head, rest, if rest == [] then NothingLeft else DroppedTail, entries);
      } else {
        SettleKeepsBatch(cfg, flusher, no + 1, rest, failures + 1);
        BatchCons(head, entries, Settle(cfg, flusher, no + 1, rest, failures + 1));
      }
    }
  }

  lemma {:induction false} SettleShrinks<E>(cfg: Config, flusher: Flusher<E>, no: nat, entries: seq<E>, failures: nat)
    requires failures <= cfg.maxRetryCount
    ensures AttemptsShrink(Settle(cfg, flusher, no, entries, failures))
    decreases cfg.maxRetryCount - failures
  {
    if flusher(no, entries).FlushFailed? {
      var head, rest := SettleFailed(cfg, flusher, no, entries, failures);
      if rest == [] || failures == cfg.maxRetryCount {
        OneHead(head, rest, if rest == [] then NothingLeft else DroppedTail, entries);
      } else {
        SettleShrinks(cfg, flusher, no + 1, rest, failures + 1);
        SettleKeepsBatch(cfg, flusher, no + 1, rest, failures + 1);
        ShrinkCons(head, entries, Settle(cfg, flusher, no + 1, rest, failures + 1));
      }
    }
  }

  lemma OneClaim<E>(flusher: Flusher<E>, no: nat, entries: seq<E>, head: seq<E>, rest: seq<E>, ending: Ending)
    requires Claims(flusher, no, entries, head, rest)
    ensures HeadsAreClaims(flusher, no, Settlement([head], rest, ending, [entries]))
  {
  }

  lemma {:induction false} SettleClaims<E>(cfg: Config, flusher: Flusher<E>, no: nat, entries: seq<E>, failures: nat)
    requires failures <= cfg.maxRetryCount
    ensures HeadsAreClaims(flusher, no, Settle(cfg, flusher, no, entries, failures))
    decreases cfg.maxRetryCount - failures
  {
    if flusher(no, entries).FlushFailed? {
      var head, rest := SettleFailed(cfg, flusher, no, entries, failures);
      if rest == [] || failures == cfg.maxRetryCount {
        OneClaim(flusher, no, entries, head, rest, if rest == [] then NothingLeft else DroppedTail);
      } else {
        var s := Settle(cfg, flusher, no + 1, rest, failures + 1);
        SettleClaims(cfg, flusher, no + 1, rest, failures + 1);
        ClaimsCons(flusher, no, head, entries, s);
      }
    }
  }

  lemma {:induction false} SettleEnds<E>(cfg: Config, flusher: Flusher<E>, no: nat, entries: seq<E>, failures: nat)
    requires failures <= cfg.maxRetryCount
    ensures EndsWell(flusher, no, Settle(cfg, flusher, no, entries, failures), cfg.maxRetryCount + 1 - failures)
    decreases cfg.maxRetryCount - failures
  {
    if flusher(no, entries).FlushFailed? {
      var head, rest := SettleFailed(cfg, flusher, no, entries, failures);
      if rest != [] && failures < cfg.maxRetryCount {
        SettleEnds(cfg, flusher, no + 1, rest, failures + 1);
        EndsCons(flusher, no, head, entries, Settle(cfg, flusher, no + 1, rest, failures + 1),
                 cfg.maxRetryCount - failures);
      }
    }
  }

  lemma SettleIsSound<E>(cfg: Config, flusher: Flusher<E>, no: nat, entries: seq<E>, failures: nat)
    requires failures <= cfg.maxRetryCount
    ensures Sound(flusher, no, entries, Settle(cfg, flusher, no, entries, failures), cfg.maxRetryCount + 1 - failures)
  {
    SettleKeepsBatch(cfg, flusher, no, entries, failures);
    SettleShrinks(cfg, flusher, no, entries, failures);
    SettleClaims(cfg, flusher, no, entries, failures);
    SettleEnds(cfg, flusher, no, entries, failures);
  }

  // ---- The loop ----

  /** The sink's handle side and its task. `accepted` lists the entries that found room in the channel, in
      order, `arrivals` when each buffered entry was received, `settled` what became of each batch. */
  datatype State<E> = State(
    channel: seq<E>,
    open: bool,
    buffer: seq<E>,
    firstEntryAt: Instant,
    lastEntryAt: Instant,
    exited: bool,
    attempts: nat,
    accepted: seq<E>,
    arrivals: seq<Instant>,
    settled: seq<Settlement<E>>)

  function Start<E>(): State<E> {
    State([], true, [], 0, 0, false, 0, [], [], [])
  }

  /** A producer pushes or the last handle is dropped; the task receives, or its timer fires. */
  datatype Event<E> = Push(entry: E) | CloseSink | Receive(now: Instant) | Timer(now: Instant)

  function Flush<E>(cfg: Config, flusher: Flusher<E>, s: State<E>): State<E> {
    var settlement := Settle(cfg, flusher, s.attempts, s.buffer, 0);
    s.(buffer := [], arrivals := [], settled := s.settled + [settlement],
       attempts := s.attempts + |settlement.attempts|)
  }

  function SizeTrigger<E>(cfg: Config, flusher: Flusher<E>, s: State<E>): State<E> {
    if |s.buffer| >= cfg.BatchMax() then Flush(cfg, flusher, s) else s
  }

  function DeadlineOf<E>(cfg: Config, s: State<E>): Instant {
    var byAge, byQuiet := s.firstEntryAt + cfg.bufferDuration, s.lastEntryAt + cfg.inactiveTimeout;
    if byAge <= byQuiet then byAge else byQuiet
  }

  function Buffer<E>(s: State<E>, now: Instant): State<E>
    requires s.channel != []
  {
    s.(channel := s.channel[1..],
       firstEntryAt := if s.buffer == [] then now else s.firstEntryAt,
       lastEntryAt := now,
       buffer := s.buffer + [s.channel[0]],
       arrivals := s.arrivals + [now])
  }

  /** Events that cannot happen in a state (a push without a handle, a timer before its deadline, ...) leave it
      as it is. */
  function Next<E>(cfg: Config, flusher: Flusher<E>, s: State<E>, e: Event<E>): State<E> {
    match e
    case Push(entry) =>
      if s.open && |s.channel| < cfg.Capacity() then
        s.(channel := s.channel + [entry], accepted := s.accepted + [entry])
      else s
    case CloseSink => s.(open := false)
    case Receive(now) =>
      if s.exited then s
      else if s.channel != [] then SizeTrigger(cfg, flusher, Buffer(s, now))
      else if s.open then s
      else (if s.buffer == [] then s else Flush(cfg, flusher, s)).(exited := true)
    case Timer(now) =>
      if !s.exited && s.buffer != [] && now >= DeadlineOf(cfg, s) then Flush(cfg, flusher, s) else s
  }

  function After<E>(cfg: Config, flusher: Flusher<E>, events: seq<Event<E>>): State<E> {
    if events == [] then Start()
    else Next(cfg, flusher, After(cfg, flusher, events[..|events| - 1]), events[|events| - 1])
  }

  class BatchTask<E> {
    const cfg: Config
    const flusher: Flusher<E>
    var channel: seq<E>
    var open: bool
    var buffer: seq<E>
    var firstEntryAt: Instant
    var lastEntryAt: Instant
    var exited: bool
    var attempts: nat
    ghost var accepted: seq<E>
    ghost var arrivals: seq<Instant>
    ghost var settled: seq<Settlement<E>>

    ghost function Value(): State<E>
      reads this
    {
      State(channel, open, buffer, firstEntryAt, lastEntryAt, exited, attempts, accepted, arrivals, settled)
    }

    constructor (cfg: Config, flusher: Flusher<E>)
      ensures this.cfg == cfg && this.flusher == flusher && Value() == Start()
    {
      this.cfg, this.flusher := cfg, flusher;
      channel, open, buffer, firstEntryAt, lastEntryAt, exited, attempts := [], true, [], 0, 0, false, 0;
      accepted, arrivals, settled := [], [], [];
    }

    /** Never blocks: without room the entry is dropped. There is room for `maxPending` entries, or for one. */
    method PushEntry(entry: E) returns (queued: bool)
      modifies this
      ensures Value() == Next(cfg, flusher, old(Value()), Push(entry))
      ensures queued == (old(open) && (|old(channel)| < cfg.maxPending || old(channel) == []))
      ensures channel == old(channel) + (if queued then [entry] else [])
      ensures accepted == old(accepted) + (if queued then [entry] else [])
      ensures buffer == old(buffer) && settled == old(settled) && open == old(open) && exited == old(exited)
    {
      queued := open && |channel| < (if cfg.maxPending > 1 then cfg.maxPending else 1);
      if queued {
        channel := channel + [entry];
        accepted := accepted + [entry];
      }
    }

    method DropHandles()
      modifies this
      ensures Value() == Next(cfg, flusher, old(Value()), CloseSink)
    {
      open := false;
    }

    method FlushBuffer()
      modifies this
      ensures Value() == Flush(cfg, flusher, old(Value()))
    {
      var settlement := FlushWithRetry(cfg, flusher, attempts, buffer);
      attempts := attempts + |settlement.attempts|;
      buffer, arrivals, settled := [], [], settled + [settlement];
    }

    /** The receiving arm of the loop, followed by the size trigger. */
    method OnReceive(now: Instant)
      modifies this
      ensures Value() == Next(cfg, flusher, old(Value()), Receive(now))
    {
      if exited || (channel == [] && open) {
        return;
      }
      if channel == [] {
        if buffer != [] {
          FlushBuffer();
        }
        exited := true;
        return;
      }
      var entry := channel[0];
      channel := channel[1..];
      if buffer == [] {
        firstEntryAt := now;
      }
      lastEntryAt := now;
      buffer, arrivals := buffer + [entry], arrivals + [now];
      if |buffer| >= (if cfg.batchMaxSize > 1 then cfg.batchMaxSize else 1) {
        FlushBuffer();
      }
    }

    /** The timer arm of the loop. */
    method OnTimer(now: Instant)
      modifies this
      ensures Value() == Next(cfg, flusher, old(Value()), Timer(now))
    {
      if !exited && buffer != [] {
        var byAge, byQuiet := firstEntryAt + cfg.bufferDuration, lastEntryAt + cfg.inactiveTimeout;
        if now >= (if byAge <= byQuiet then byAge else byQuiet) {
          FlushBuffer();
        }
      }
    }
  }

  // ---- Room in the channel and the size trigger, in the configuration's own fields ----

  /** There is room for `maxPending` entries, and always for one. */
  ghost predicate HasRoom<E>(cfg: Config, s: State<E>) {
    s.open && (|s.channel| < cfg.maxPending || s.channel == [])
  }

  lemma PushQueuesIff<E>(cfg: Config, flusher: Flusher<E>, s: State<E>, entry: E)
    ensures Next(cfg, flusher, s, Push(entry))
         == if s.open && (|s.channel| < cfg.maxPending || s.channel == [])
            then s.(channel := s.channel + [entry], accepted := s.accepted + [entry])
            else s
  {
  }

  /** The entries that a run's producers pushed. */
  ghost function Pushed<E>(events: seq<Event<E>>): seq<E> {
    if events == [] then []
    else
      var last := events[|events| - 1];
      Pushed(events[..|events| - 1]) + if last.Push? then [last.entry] else []
  }

  /** Every push found an open sink with fewer than `maxPending` entries queued (or none). */
  ghost predicate PushesHaveRoom<E>(cfg: Config, flusher: Flusher<E>, events: seq<Event<E>>) {
    forall k | 0 <= k < |events| && events[k].Push? :: HasRoom(cfg, After(cfg, flusher, events[..k]))
  }

  lemma PushesHaveRoomNext<E>(cfg: Config, flusher: Flusher<E>, events: seq<Event<E>>)
    requires events != []
    ensures var before, last := events[..|events| - 1], events[|events| - 1];
            PushesHaveRoom(cfg, flusher, events) <==>
              PushesHaveRoom(cfg, flusher, before) && (last.Push? ==> HasRoom(cfg, After(cfg, flusher, before)))
  {
    var before, n := events[..|events| - 1], |events| - 1;
    assert forall k | 0 <= k < n :: before[..k] == events[..k] && before[k] == events[k];
    if PushesHaveRoom(cfg, flusher, events) {
      forall k | 0 <= k < n && before[k].Push? ensures HasRoom(cfg, After(cfg, flusher, before[..k])) {
        assert events[k].Push?;
      }
    } else if PushesHaveRoom(cfg, flusher, before) {
      var k :| 0 <= k < |events| && events[k].Push? && !HasRoom(cfg, After(cfg, flusher, events[..k]));
      assert k == n;
    }
  }

  lemma AcceptedNext<E>(cfg: Config, flusher: Flusher<E>, s: State<E>, e: Event<E>)
    ensures Next(cfg, flusher, s, e).accepted == s.accepted + if e.Push? && HasRoom(cfg, s) then [e.entry] else []
  {
  }

  /** Exact: a run loses no pushed entry at the channel iff every push finds an open sink with fewer than
      `maxPending` entries queued, or none queued. */
  lemma {:induction false} NothingIsDroppedIff<E>(cfg: Config, flusher: Flusher<E>, events: seq<Event<E>>)
    ensures |After(cfg, flusher, events).accepted| <= |Pushed(events)|
    ensures After(cfg, flusher, events).accepted == Pushed(events) <==> PushesHaveRoom(cfg, flusher, events)
    ensures After(cfg, flusher, events).accepted != Pushed(events) ==>
              |After(cfg, flusher, events).accepted| < |Pushed(events)|
  {
    if events != [] {
      var before, last := events[..|events| - 1], events[|events| - 1];
      NothingIsDroppedIff(cfg, flusher, before);
      PushesHaveRoomNext(cfg, flusher, events);
      AcceptedNext(cfg, flusher, After(cfg, flusher, before), last);
    }
  }

  /** The size trigger: a received entry stays in the buffer while that holds fewer than `batchMaxSize` entries,
      and makes the whole buffer a batch as soon as it does not. */
  lemma ReceiveFlushesAtSize<E>(cfg: Config, flusher: Flusher<E>, s: State<E>, now: Instant)
    requires !s.exited && s.channel != []
    ensures var t, buffered := Next(cfg, flusher, s, Receive(now)), s.buffer + [s.channel[0]];
            && t.channel == s.channel[1..] && t.accepted == s.accepted && t.open == s.open && !t.exited
            && if |buffered| < cfg.batchMaxSize then t.buffer == buffered && t.settled == s.settled
               else
                 && t.buffer == [] && |t.settled| == |s.settled| + 1
                 && t.settled[..|s.settled|] == s.settled && BatchOf(t.settled[|s.settled|]) == buffered
  {
    if |s.buffer| + 1 >= cfg.batchMaxSize {
      SettleKeepsBatch(cfg, flusher, s.attempts, s.buffer + [s.channel[0]], 0);
    }
  }

  // ---- Conservation over every run ----

  function SettledEntries<E>(settled: seq<Settlement<E>>): seq<E> {
    if settled == [] then [] else SettledEntries(settled[..|settled| - 1]) + BatchOf(settled[|settled| - 1])
  }

  /** How many attempts these batches took. */
  function TotalAttempts<E>(settled: seq<Settlement<E>>): nat {
    if settled == [] then 0 else TotalAttempts(settled[..|settled| - 1]) + |settled[|settled| - 1].attempts|
  }

  /** Every settled batch has 1 to `batch_max` entries and was settled soundly, by the attempts after those of
      the batches before it. */
  ghost predicate BatchesOk<E>(cfg: Config, flusher: Flusher<E>, settled: seq<Settlement<E>>) {
    settled == [] ||
    (var before, last := settled[..|settled| - 1], settled[|settled| - 1];
     && BatchesOk(cfg, flusher, before)
     && 1 <= |BatchOf(last)| <= cfg.BatchMax()
     && Sound(flusher, TotalAttempts(before), BatchOf(last), last, cfg.maxRetryCount + 1))
  }

  /** Nothing is lost or reordered: accepted entries are the settled batches, then the buffer, then the channel. */
  ghost predicate Conserved<E>(s: State<E>) {
    s.accepted == SettledEntries(s.settled) + s.buffer + s.channel
  }

  ghost predicate TimesOk<E>(s: State<E>) {
    && |s.arrivals| == |s.buffer|
    && (s.buffer != [] ==> s.firstEntryAt == s.arrivals[0] && s.lastEntryAt == s.arrivals[|s.arrivals| - 1])
  }

  ghost predicate Invariant<E>(cfg: Config, flusher: Flusher<E>, s: State<E>) {
    && Conserved(s) && TimesOk(s) && BatchesOk(cfg, flusher, s.settled) && s.attempts == TotalAttempts(s.settled)
    && |s.buffer| < cfg.BatchMax() && |s.channel| <= cfg.Capacity()
    && (s.exited ==> !s.open && s.buffer == [] && s.channel == [])
  }

  lemma FlushConserves<E>(cfg: Config, flusher: Flusher<E>, s: State<E>)
    requires Conserved(s)
    ensures Conserved(Flush(cfg, flusher, s)) && TimesOk(Flush(cfg, flusher, s))
  {
    var t, settlement := Flush(cfg, flusher, s), Settle(cfg, flusher, s.attempts, s.buffer, 0);
    SettleIsSound(cfg, flusher, s.attempts, s.buffer, 0);
    assert t.settled == s.settled + [settlement] && t.settled[..|s.settled|] == s.settled;
    assert SettledEntries(t.settled) == SettledEntries(s.settled) + s.buffer;
    assert SettledEntries(t.settled) + [] == SettledEntries(t.settled);
  }

  lemma FlushSettlesSoundly<E>(cfg: Config, flusher: Flusher<E>, s: State<E>)
    requires 1 <= |s.buffer| <= cfg.BatchMax() && BatchesOk(cfg, flusher, s.settled)
    requires s.attempts == TotalAttempts(s.settled)
    ensures var t := Flush(cfg, flusher, s);
            BatchesOk(cfg, flusher, t.settled) && t.attempts == TotalAttempts(t.settled)
  {
    var t := Flush(cfg, flusher, s);
    SettleIsSound(cfg, flusher, s.attempts, s.buffer, 0);
    assert t.settled[..|s.settled|] == s.settled;
  }

  lemma FlushKeeps<E>(cfg: Config, flusher: Flusher<E>, s: State<E>)
    requires 1 <= |s.buffer| <= cfg.BatchMax() && Conserved(s) && BatchesOk(cfg, flusher, s.settled)
    requires |s.channel| <= cfg.Capacity() && !s.exited && s.attempts == TotalAttempts(s.settled)
    ensures Invariant(cfg, flusher, Flush(cfg, flusher, s))
  {
    FlushConserves(cfg, flusher, s);
    FlushSettlesSoundly(cfg, flusher, s);
  }

  lemma BufferConserves<E>(s: State<E>, now: Instant)
    requires s.channel != [] && Conserved(s) && TimesOk(s)
    ensures Conserved(Buffer(s, now)) && TimesOk(Buffer(s, now))
  {
    var done := SettledEntries(s.settled);
    assert s.channel == [s.channel[0]] + s.channel[1..];
    assert done + s.buffer + s.channel == done + (s.buffer + [s.channel[0]]) + s.channel[1..];
  }

  lemma ReceiveKeeps<E>(cfg: Config, flusher: Flusher<E>, s: State<E>, now: Instant)
    requires Invariant(cfg, flusher, s)
    ensures Invariant(cfg, flusher, Next(cfg, flusher, s, Receive(now)))
  {
    if s.exited {
    } else if s.channel != [] {
      BufferConserves(s, now);
      if |s.buffer| + 1 >= cfg.BatchMax() {
        FlushKeeps(cfg, flusher, Buffer(s, now));
      }
    } else if !s.open && s.buffer != [] {
      FlushKeeps(cfg, flusher, s);
    }
  }

  lemma PushKeeps<E>(cfg: Config, flusher: Flusher<E>, s: State<E>, entry: E)
    requires Invariant(cfg, flusher, s)
    ensures Invariant(cfg, flusher, Next(cfg, flusher, s, Push(entry)))
  {
    var done := SettledEntries(s.settled) + s.buffer;
    assert done + (s.channel + [entry]) == done + s.channel + [entry];
  }

  lemma CloseKeeps<E>(cfg: Config, flusher: Flusher<E>, s: State<E>)
    requires Invariant(cfg, flusher, s)
    ensures Invariant(cfg, flusher, Next(cfg, flusher, s, CloseSink))
  {
  }

  lemma TimerKeeps<E>(cfg: Config, flusher: Flusher<E>, s: State<E>, now: Instant)
    requires Invariant(cfg, flusher, s)
    ensures Invariant(cfg, flusher, Next(cfg, flusher, s, Timer(now)))
  {
    if !s.exited && s.buffer != [] {
      FlushKeeps(cfg, flusher, s);
    }
  }

  lemma NextKeepsInvariant<E>(cfg: Config, flusher: Flusher<E>, s: State<E>, e: Event<E>)
    requires Invariant(cfg, flusher, s)
    ensures Invariant(cfg, flusher, Next(cfg, flusher, s, e))
  {
    match e
    case Push(entry) => PushKeeps(cfg, flusher, s, entry);
    case CloseSink => CloseKeeps(cfg, flusher, s);
    case Receive(now) => ReceiveKeeps(cfg, flusher, s, now);
    case Timer(now) => TimerKeeps(cfg, flusher, s, now);
  }

  /** Every run conserves the accepted entries in order, and settles only batches of 1 to `batch_max` entries,
      each soundly and within `max_retry_count + 1` attempts. */
  lemma {:induction false} RunKeepsInvariant<E>(cfg: Config, flusher: Flusher<E>, events: seq<Event<E>>)
    ensures Invariant(cfg, flusher, After(cfg, flusher, events))
  {
    if events != [] {
      RunKeepsInvariant(cfg, flusher, events[..|events| - 1]);
      NextKeepsInvariant(cfg, flusher, After(cfg, flusher, events[..|events| - 1]), events[|events| - 1]);
    }
  }

  /** The age and inactivity triggers: the timer flushes exactly when the oldest buffered entry has reached
      `buffer_duration` or the newest `inactive_timeout`. */
  lemma {:induction false} TimerFlushesIff<E>(cfg: Config, flusher: Flusher<E>, events: seq<Event<E>>, now: Instant)
    ensures TimesOk(After(cfg, flusher, events))
    ensures var s := After(cfg, flusher, events);
            var t := Next(cfg, flusher, s, Timer(now));
            if !s.exited && s.buffer != []
               && (|| now - s.arrivals[0] >= cfg.bufferDuration
                   || now - s.arrivals[|s.arrivals| - 1] >= cfg.inactiveTimeout)
            then t == Flush(cfg, flusher, s) && t.buffer == []
            else t == s
  {
    RunKeepsInvariant(cfg, flusher, events);
  }

  /** `n` rounds of receiving. */
  function ReceiveAll<E>(cfg: Config, flusher: Flusher<E>, s: State<E>, now: Instant, n: nat): State<E>
    decreases n
  {
    if n == 0 then s else ReceiveAll(cfg, flusher, Next(cfg, flusher, s, Receive(now)), now, n - 1)
  }

  lemma ReceiveAfterClose<E>(cfg: Config, flusher: Flusher<E>, s: State<E>, now: Instant)
    requires !s.open && !s.exited
    ensures var t := Next(cfg, flusher, s, Receive(now));
            && t.accepted == s.accepted && !t.open
            && (if s.channel == [] then t.exited else !t.exited && t.channel == s.channel[1..])
  {
  }

  lemma ExitedHasSettled<E>(cfg: Config, flusher: Flusher<E>, s: State<E>)
    requires Invariant(cfg, flusher, s) && s.exited
    ensures SettledEntries(s.settled) == s.accepted
  {
    assert SettledEntries(s.settled) + [] + [] == SettledEntries(s.settled);
  }

  /** Drain on drop: once the last handle is gone, receiving what is queued and then the close leaves nothing
      behind; every accepted entry has been settled, in order, and the task has exited. */
  lemma {:induction false} NothingRemainsAfterClose<E>(cfg: Config, flusher: Flusher<E>, s: State<E>, now: Instant)
    requires Invariant(cfg, flusher, s) && !s.open && !s.exited
    ensures var t := ReceiveAll(cfg, flusher, s, now, |s.channel| + 1);
            t.exited && t.buffer == [] && t.channel == [] && SettledEntries(t.settled) == s.accepted
    decreases |s.channel|
  {
    var t := Next(cfg, flusher, s, Receive(now));
    NextKeepsInvariant(cfg, flusher, s, Receive(now));
    ReceiveAfterClose(cfg, flusher, s, now);
    if s.channel != [] {
      NothingRemainsAfterClose(cfg, flusher, t, now);
    } else {
      ExitedHasSettled(cfg, flusher, t);
      assert ReceiveAll(cfg, flusher, t, now, 0) == t;
    }
  }
}
