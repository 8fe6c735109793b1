/** The shared load balancer: target selection, and in-flight counters owned by guards. */
module Balancer {
  import opened Wrappers

  datatype Target = Target(host: string, port: nat)

  datatype Strategy = RoundRobin | LeastConnections | IpHash

  /** `usize` arithmetic wraps. */
  const USIZE: nat := 0x1_0000_0000_0000_0000

  function Up(c: nat): nat { (c + 1) % USIZE }

  function Down(c: nat): nat { (c + USIZE - 1) % USIZE }

  /** The client's address without its port: everything before the last colon. */
  function ClientIp(addr: string): string {
    if addr == [] then []
    else if ':' !in addr then addr
    else if addr[|addr| - 1] == ':' then addr[..|addr| - 1]
    else ClientIp(addr[..|addr| - 1])
  }

  /** Clients on one host hash alike, whatever port they come from. */
  lemma {:induction false} PortDoesNotMatter(ip: string, port: string)
    requires ':' !in port
    ensures ClientIp(ip + ":" + port) == ip
    decreases |port|
  {
    var addr := ip + ":" + port;
    assert addr[|ip|] == ':';
    if port == [] {
      assert addr[..|addr| - 1] == ip;
    } else {
      var init := port[..|port| - 1];
      assert addr[..|addr| - 1] == ip + ":" + init;
      assert addr[|addr| - 1] == port[|port| - 1];
      PortDoesNotMatter(ip, init);
    }
  }

  lemma WordsWrap(c: nat)
    requires c < USIZE
    ensures Up(c) == if c == 0xFFFF_FFFF_FFFF_FFFF then 0 else c + 1
    ensures Down(c) == if c == 0 then 0xFFFF_FFFF_FFFF_FFFF else c - 1
  {
  }

  /** An address without a port is taken whole. */
  lemma NoPort(addr: string)
    requires ':' !in addr
    ensures ClientIp(addr) == addr
  {
  }

  /** The first position of the least value, as `min_by_key` picks. */
  predicate IsFirstMin(s: seq<nat>, i: nat) {
    && i < |s|
    && (forall j | 0 <= j < |s| :: s[i] <= s[j])
    && (forall j | 0 <= j < i :: s[i] < s[j])
  }

  /** A live `ConnGuard` or `OwnedConnGuard`. */
  class Guard {
    const idx: nat

    constructor (idx: nat)
      ensures this.idx == idx
    {
      this.idx := idx;
    }
  }

  /** The guards of a set that hold target `i`. */
  ghost function Holding(live: set<Guard>, i: nat): set<Guard> {
    set g | g in live && g.idx == i
  }

  class Pool {
    const targets: seq<Target>
    const strategy: Strategy
    const hash: string -> nat
    var counter: nat
    var inFlight: seq<nat>
    /** The guards that were handed out and not yet dropped. */
    ghost var live: set<Guard>

    ghost predicate Valid()
      reads this
    {
      && |targets| > 0 && |inFlight| == |targets| && counter < USIZE
      && (forall g | g in live :: g.idx < |targets|)
      && (forall i | 0 <= i < |inFlight| :: inFlight[i] == |Holding(live, i)| % USIZE)
    }

    constructor (targets: seq<Target>, strategy: Strategy, hash: string -> nat)
      requires targets != []
      ensures Valid() && live == {} && counter == 0 && inFlight == seq(|targets|, _ => 0)
      ensures this.targets == targets && this.strategy == strategy && this.hash == hash
    {
      this.targets, this.strategy, this.hash, counter := targets, strategy, hash, 0;
      inFlight := seq(|targets|, _ => 0);
      live := {};
    }

    /** `Balancer::new`: an empty pool is an error. */
    static method New(targets: seq<Target>, strategy: Strategy, hash: string -> nat) returns (r: Result<Pool, string>)
      ensures r.Err? <==> targets == []
      ensures r.Err? ==> r.error == "load balancer requires at least one target"
      ensures r.Ok? ==> fresh(r.value) && r.value.Valid() && r.value.live == {} && r.value.targets == targets
      ensures r.Ok? ==> r.value.strategy == strategy && r.value.hash == hash && r.value.counter == 0
    {
      if targets == [] {
        return Err("load balancer requires at least one target");
      }
      var pool := new Pool(targets, strategy, hash);
      r := Ok(pool);
    }

    /** Target `i` is the choice for a client when the counter was `was` and the loads were `loads`; only a turn
        of round robin moves the counter. */
    ghost predicate Chosen(remoteAddr: string, was: nat, loads: seq<nat>, i: nat)
      reads this`counter
    {
      && i < |targets|
      && match strategy
         case RoundRobin => i == was % |targets| && counter == (if was + 1 < USIZE then was + 1 else 0)
         case LeastConnections => IsFirstMin(loads, i) && counter == was
         case IpHash => i == hash(ClientIp(remoteAddr)) % |targets| && counter == was
    }

    method LeastLoaded() returns (i: nat)
      requires Valid()
      ensures IsFirstMin(inFlight, i)
    {
      i := 0;
      for j := 1 to |inFlight|
        invariant i < j && IsFirstMin(inFlight[..j], i)
      {
        if inFlight[j] < inFlight[i] {
          i := j;
        }
      }
      assert inFlight[..|inFlight|] == inFlight;
    }

    method Select(remoteAddr: string) returns (i: nat)
      requires Valid()
      modifies this`counter
      ensures Valid() && Chosen(remoteAddr, old(counter), inFlight, i)
    {
      match strategy {
        case RoundRobin =>
          i := counter % |targets|;
          counter := Up(counter);
        case LeastConnections =>
          i := LeastLoaded();
        case IpHash =>
          i := hash(ClientIp(remoteAddr)) % |targets|;
      }
    }

    method Acquire(idx: nat) returns (g: Guard)
      requires Valid() && idx < |targets|
      modifies this`inFlight, this`live
      ensures Valid() && fresh(g) && g.idx == idx && live == old(live) + {g}
      ensures inFlight == old(inFlight)[idx := Up(old(inFlight)[idx])]
    {
      g := new Guard(idx);
      AddGuard(live, g);
      inFlight := inFlight[idx := Up(inFlight[idx])];
      live := live + {g};
    }

    /** Select, then hold the choice, as every caller does. */
    method Open(remoteAddr: string) returns (g: Guard)
      requires Valid()
      modifies this`counter, this`inFlight, this`live
      ensures Valid() && fresh(g) && live == old(live) + {g}
      ensures Chosen(remoteAddr, old(counter), old(inFlight), g.idx)
      ensures inFlight == old(inFlight)[g.idx := Up(old(inFlight)[g.idx])]
      ensures forall k: nat | k + 1 < USIZE && strategy == LeastConnections && old(inFlight) == Loads(|targets|, k) ::
                inFlight == Loads(|targets|, k + 1)
    {
      var i := Select(remoteAddr);
      g := Acquire(i);
      forall k: nat | k + 1 < USIZE && strategy == LeastConnections && old(inFlight) == Loads(|targets|, k)
        ensures inFlight == Loads(|targets|, k + 1)
      {
        OpenStep(|targets|, k, i);
      }
    }

    /** A guard goes out of scope. Ownership lets that happen once: it is live before and gone after. */
    method Drop(g: Guard)
      requires Valid() && g in live
      modifies this`inFlight, this`live
      ensures Valid() && live == old(live) - {g}
      ensures inFlight == old(inFlight)[g.idx := Down(old(inFlight)[g.idx])]
    {
      RemoveGuard(live, g);
      inFlight := inFlight[g.idx := Down(inFlight[g.idx])];
      live := live - {g};
    }
  }

  lemma AddGuard(live: set<Guard>, g: Guard)
    requires g !in live
    ensures forall i: nat :: |Holding(live + {g}, i)| == |Holding(live, i)| + if i == g.idx then 1 else 0
  {
    forall i: nat ensures |Holding(live + {g}, i)| == |Holding(live, i)| + if i == g.idx then 1 else 0 {
      assert Holding(live + {g}, i) == if i == g.idx then Holding(live, i) + {g} else Holding(live, i);
    }
  }

  lemma RemoveGuard(live: set<Guard>, g: Guard)
    requires g in live
    ensures forall i: nat :: |Holding(live - {g}, i)| == |Holding(live, i)| - if i == g.idx then 1 else 0
  {
    AddGuard(live - {g}, g);
    assert live - {g} + {g} == live;
  }

  /** Each counter is the number of its live guards, as long as that number fits a word; so a drop never takes
      a counter below zero. */
  lemma CountersAreLiveGuards(inFlight: seq<nat>, live: set<Guard>, i: nat)
    requires i < |inFlight| && inFlight[i] == |Holding(live, i)| % USIZE && |live| < USIZE
    ensures inFlight[i] == |Holding(live, i)|
    ensures forall g | g in live && g.idx == i :: inFlight[i] > 0 && Down(inFlight[i]) == inFlight[i] - 1
  {
    HoldingIsPart(live, i);
    forall g | g in live && g.idx == i ensures inFlight[i] > 0 && Down(inFlight[i]) == inFlight[i] - 1 {
      assert g in Holding(live, i);
    }
  }

  lemma HoldingIsPart(live: set<Guard>, i: nat)
    ensures |Holding(live, i)| <= |live|
  {
    assert live == Holding(live, i) + (live - Holding(live, i));
  }

  // ---- Round robin over whole runs ----

  function Cycle(n: nat): nat -> nat
    requires n > 0
  {
    (x: nat) => x % n
  }

  function PicksOf(pick: nat -> nat, c: nat, m: nat): (r: seq<nat>)
    ensures |r| == m
    decreases m
  {
    if m == 0 then [] else [pick(c)] + PicksOf(pick, Up(c), m - 1)
  }

  /** The targets of `m` picks in a row from counter `c`. */
  function Picks(c: nat, n: nat, m: nat): seq<nat>
    requires n > 0
  {
    PicksOf(Cycle(n), c, m)
  }

  /** How many numbers below `x` are `t` modulo `n`. */
  function Below(x: nat, n: nat, t: nat): nat
    requires t < n
  {
    (x + (n - 1 - t)) / n
  }

  lemma {:induction false} Gap(q: nat, p: nat, n: nat)
    ensures q < p ==> q * n + n <= p * n
    decreases p
  {
    if q < p {
      Gap(q, p - 1, n);
      assert p * n == (p - 1) * n + n;
    }
  }

  /** Quotient and remainder are unique. */
  lemma SameDivision(q: nat, r: nat, p: nat, s: nat, n: nat)
    requires r < n && s < n && q * n + r == p * n + s
    ensures q == p && r == s
  {
    Gap(q, p, n);
    Gap(p, q, n);
  }

  lemma Division(x: nat, n: nat) returns (q: nat, r: nat)
    requires n > 0
    ensures q == x / n && r == x % n && r < n && x == q * n + r
  {
    q, r := x / n, x % n;
  }

  lemma DivMod(x: nat, n: nat, q: nat, r: nat)
    requires n > 0 && r < n && x == q * n + r
    ensures x / n == q && x % n == r
  {
    SameDivision(x / n, x % n, q, r, n);
  }

  /** Counting one number further. */
  lemma BelowStep(x: nat, n: nat, t: nat)
    requires t < n
    ensures Below(x + 1, n, t) == Below(x, n, t) + if x % n == t then 1 else 0
  {
    var q, r := x / n, x % n;
    BelowValue(x, n, t, q, r);
    if r + 1 < n {
      BelowValue(x + 1, n, t, q, r + 1);
    } else {
      BelowValue(x + 1, n, t, q + 1, 0);
    }
  }

  lemma BelowValue(x: nat, n: nat, t: nat, q: nat, r: nat)
    requires t < n && r < n && x == q * n + r
    ensures Below(x, n, t) == if r > t then q + 1 else q
  {
    var y := x + (n - 1 - t);
    if r > t {
      DivMod(y, n, q + 1, r - 1 - t);
    } else {
      DivMod(y, n, q, r + n - 1 - t);
    }
  }

  function Occurrences(s: seq<nat>, t: nat): nat {
    if s == [] then 0 else (if s[0] == t then 1 else 0) + Occurrences(s[1..], t)
  }

  /** How many of `c`, `c + 1`, ... (`m` numbers) pick `t`. */
  function HitsOf(pick: nat -> nat, c: nat, m: nat, t: nat): nat
    decreases m
  {
    if m == 0 then 0 else (if pick(c) == t then 1 else 0) + HitsOf(pick, c + 1, m - 1, t)
  }

  lemma PicksTail(pick: nat -> nat, c: nat, m: nat)
    requires m > 0
    ensures PicksOf(pick, c, m)[0] == pick(c) && PicksOf(pick, c, m)[1..] == PicksOf(pick, Up(c), m - 1)
  {
  }

  lemma UpSmall(c: nat)
    requires c + 1 < USIZE
    ensures Up(c) == c + 1
  {
  }

  lemma {:induction false} PicksAreHits(pick: nat -> nat, c: nat, m: nat, t: nat)
    requires c + m <= USIZE
    ensures Occurrences(PicksOf(pick, c, m), t) == HitsOf(pick, c, m, t)
    decreases m
  {
    if m > 0 {
      PicksTail(pick, c, m);
      if m > 1 {
        UpSmall(c);
        PicksAreHits(pick, c + 1, m - 1, t);
      }
    }
  }

  lemma {:induction false} HitsAreBelow(c: nat, n: nat, m: nat, t: nat, end: nat)
    requires t < n && end == c + m
    ensures HitsOf(Cycle(n), c, m, t) == Below(end, n, t) - Below(c, n, t)
    decreases m
  {
    if m > 0 {
      BelowStep(c, n, t);
      HitsAreBelow(c + 1, n, m - 1, t, end);
    }
  }

  lemma SumTimes(q: nat, p: nat, n: nat)
    ensures (q + p) * n == q * n + p * n && (q + p + 1) * n == q * n + p * n + n
  {
  }

  lemma BelowWindowAt(c: nat, n: nat, m: nat, t: nat, q: nat, r: nat, p: nat, s: nat)
    requires t < n && r < n && s < n && c == q * n + r && m == p * n + s
    ensures var d := Below(c + m, n, t) - Below(c, n, t);
            p <= d <= p + 1 && (s == 0 ==> d == p)
  {
    BelowValue(c, n, t, q, r);
    SumTimes(q, p, n);
    if r + s < n {
      BelowValue(c + m, n, t, q + p, r + s);
    } else {
      BelowValue(c + m, n, t, q + p + 1, r + s - n);
    }
  }

  lemma BelowWindow(c: nat, n: nat, m: nat, t: nat)
    requires t < n
    ensures var d := Below(c + m, n, t) - Below(c, n, t);
            m / n <= d <= m / n + 1 && (m % n == 0 ==> d == m / n)
  {
    var q, r := Division(c, n);
    var p, s := Division(m, n);
    BelowWindowAt(c, n, m, t, q, r, p, s);
  }

  lemma TargetCount(c: nat, n: nat, m: nat, t: nat)
    requires t < n && c + m <= USIZE
    ensures m / n <= Occurrences(Picks(c, n, m), t) <= m / n + 1
    ensures m % n == 0 ==> Occurrences(Picks(c, n, m), t) == m / n
  {
    PicksAreHits(Cycle(n), c, m, t);
    HitsAreBelow(c, n, m, t, c + m);
    BelowWindow(c, n, m, t);
  }

  lemma OneRound(n: nat)
    requires n > 0
    ensures n / n == 1 && n % n == 0
  {
    DivMod(n, n, 1, 0);
  }

  /** Any `m` round-robin picks in a row, the counter not wrapping, give every target `m / n` or one more; `n`
      picks are a permutation of the targets. */
  lemma RoundRobinIsFair(c: nat, n: nat, m: nat)
    requires n > 0 && c + m <= USIZE
    ensures forall t | 0 <= t < n :: m / n <= Occurrences(Picks(c, n, m), t) <= m / n + 1
    ensures m == n ==> forall t | 0 <= t < n :: Occurrences(Picks(c, n, m), t) == 1
  {
    forall t | 0 <= t < n
      ensures m / n <= Occurrences(Picks(c, n, m), t) <= m / n + 1
      ensures m == n ==> Occurrences(Picks(c, n, m), t) == 1
    {
      TargetCount(c, n, m, t);
      OneRound(n);
    }
  }

  // ---- Targets held in turn ----

  /** The `k`-th choice since the counter stood at `start` is `(start + k) % n`, on a counter that wraps. */
  ghost predicate InTurn(start: nat, n: nat, chosen: seq<nat>, counter: nat)
    requires n > 0
  {
    && counter == (start + |chosen|) % USIZE
    && forall k {:trigger chosen[k]} | 0 <= k < |chosen| :: chosen[k] == (start + k) % USIZE % n
  }

  lemma NextInTurn(start: nat, n: nat, chosen: seq<nat>, counter: nat, i: nat, counter': nat)
    requires n > 0 && InTurn(start, n, chosen, counter) && i == counter % n
    requires counter' == if counter + 1 < USIZE then counter + 1 else 0
    ensures InTurn(start, n, chosen + [i], counter')
  {
    assert (start + |chosen| + 1) % USIZE == counter';
    var more := chosen + [i];
    forall k | 0 <= k < |more| ensures more[k] == (start + k) % USIZE % n {
      assert k < |chosen| ==> more[k] == chosen[k];
    }
  }

  lemma PickAt(pick: nat -> nat, c: nat, m: nat, k: nat)
    requires k < m && c + m <= USIZE
    ensures PicksOf(pick, c, m)[k] == pick(c + k)
    decreases m
  {
    PicksTail(pick, c, m);
    if k > 0 {
      UpSmall(c);
      PickAt(pick, c + 1, m - 1, k - 1);
      assert PicksOf(pick, c, m)[k] == PicksOf(pick, c, m)[1..][k - 1];
    }
  }

  lemma StretchOf(pick: nat -> nat, c: nat, m: nat, s: seq<nat>, k: nat)
    requires c + m <= USIZE && k + m <= |s| && forall j | k <= j < |s| :: s[j] == pick(c + (j - k))
    ensures s[k..k + m] == PicksOf(pick, c, m)
  {
    var stretch := s[k..k + m];
    forall j | 0 <= j < m ensures stretch[j] == PicksOf(pick, c, m)[j] {
      PickAt(pick, c, m, j);
      assert stretch[j] == s[k + j];
    }
  }

  lemma ChoiceAt(start: nat, n: nat, chosen: seq<nat>, counter: nat, i: nat, c: nat, pick: nat -> nat)
    requires n > 0 && InTurn(start, n, chosen, counter) && i < |chosen| && c == start + i && c < USIZE
    requires pick == Cycle(n)
    ensures chosen[i] == pick(c)
  {
    assert chosen[i] == (start + i) % USIZE % n;
  }

  lemma ChoicesFrom(start: nat, n: nat, chosen: seq<nat>, counter: nat, k: nat, c: nat, pick: nat -> nat)
    requires n > 0 && InTurn(start, n, chosen, counter) && start + |chosen| <= USIZE && c == start + k
    requires pick == Cycle(n)
    ensures forall j | k <= j < |chosen| :: chosen[j] == pick(c + (j - k))
  {
    forall j | k <= j < |chosen| ensures chosen[j] == pick(c + (j - k)) {
      ChoiceAt(start, n, chosen, counter, j, c + (j - k), pick);
    }
  }

  /** A stretch of such choices, from the `k`-th on, is what round robin picks from counter `start + k`. */
  lemma StretchIsPicks(start: nat, n: nat, chosen: seq<nat>, counter: nat, k: nat, m: nat)
    requires n > 0 && InTurn(start, n, chosen, counter) && k + m <= |chosen| && start + |chosen| <= USIZE
    ensures chosen[k..k + m] == Picks(start + k, n, m)
  {
    ChoicesFrom(start, n, chosen, counter, k, start + k, Cycle(n));
    StretchOf(Cycle(n), start + k, m, chosen, k);
  }

  lemma AllBelow(start: nat, n: nat, chosen: seq<nat>, counter: nat)
    requires n > 0 && InTurn(start, n, chosen, counter)
    ensures forall k | 0 <= k < |chosen| :: chosen[k] < n
  {
  }

  lemma {:induction false} OneOccurrence(s: seq<nat>, i: nat, j: nat)
    requires i < j < |s| && Occurrences(s, s[i]) <= 1
    ensures s[i] != s[j]
  {
    if i > 0 {
      OneOccurrence(s[1..], i - 1, j - 1);
    } else {
      Occurs(s[1..], j - 1);
    }
  }

  lemma {:induction false} Occurs(s: seq<nat>, i: nat)
    requires i < |s|
    ensures Occurrences(s, s[i]) >= 1
  {
    if i > 0 {
      Occurs(s[1..], i - 1);
    }
  }

  // ---- Least connections over whole runs ----

  function FirstMin(s: seq<nat>): (i: nat)
    requires s != []
    ensures IsFirstMin(s, i)
  {
    if |s| == 1 then 0
    else
      var i := FirstMin(s[..|s| - 1]);
      if s[|s| - 1] < s[i] then |s| - 1 else i
  }

  /** The first least loaded target gets one more. */
  function OneMore(s: seq<nat>): (r: seq<nat>)
    requires s != []
    ensures |r| == |s|
  {
    s[FirstMin(s) := s[FirstMin(s)] + 1]
  }

  /** The loads after `k` rounds of select and acquire without a drop. */
  function Loads(n: nat, k: nat): (r: seq<nat>)
    requires n > 0
    ensures |r| == n
  {
    if k == 0 then seq(n, _ => 0)
    else
      OneMore(Loads(n, k - 1))
  }

  function Even(n: nat, k: nat): seq<nat>
    requires n > 0
  {
    seq(n, i requires 0 <= i < n => k / n + if i < k % n then 1 else 0)
  }

  lemma NextDiv(k: nat, n: nat)
    requires n > 0
    ensures if k % n + 1 < n then (k + 1) / n == k / n && (k + 1) % n == k % n + 1
            else (k + 1) / n == k / n + 1 && (k + 1) % n == 0
  {
    if k % n + 1 < n {
      DivMod(k + 1, n, k / n, k % n + 1);
    } else {
      DivMod(k + 1, n, k / n + 1, 0);
    }
  }

  lemma EvenStep(n: nat, k: nat)
    requires n > 0
    ensures FirstMin(Even(n, k)) == k % n
    ensures Even(n, k)[k % n := Even(n, k)[k % n] + 1] == Even(n, k + 1)
  {
    NextDiv(k, n);
    var s := Even(n, k);
    assert s[k % n] == k / n;
  }

  ghost predicate LoadsOneMore(loads: nat -> seq<nat>, k: nat) {
    loads(k) != [] && loads(k + 1) == OneMore(loads(k))
  }

  lemma {:induction false} LoadsAre(n: nat, loads: nat -> seq<nat>, k: nat)
    requires n > 0 && loads(0) == seq(n, _ => 0) && forall j: nat :: LoadsOneMore(loads, j)
    ensures Loads(n, k) == loads(k)
  {
    if k > 0 {
      LoadsAre(n, loads, k - 1);
      assert LoadsOneMore(loads, k - 1);
    }
  }

  lemma EvenZero(n: nat)
    requires n > 0
    ensures Even(n, 0) == seq(n, _ => 0)
  {
    DivMod(0, n, 0, 0);
  }

  /** Opened one after the other on an idle pool, connections spread evenly: after `k` of them every target has
      `k / n`, and the first `k % n` targets one more. */
  lemma LeastConnectionsIsEven(n: nat, k: nat)
    requires n > 0
    ensures Loads(n, k) == Even(n, k)
  {
    EvenZero(n);
    EvenSteps(n, EvenOf(n));
    LoadsAre(n, EvenOf(n), k);
  }

  function EvenOf(n: nat): nat -> seq<nat>
    requires n > 0
  {
    (k: nat) => Even(n, k)
  }

  lemma EvenSteps(n: nat, even: nat -> seq<nat>)
    requires n > 0 && even == EvenOf(n)
    ensures forall j: nat :: LoadsOneMore(even, j)
  {
    forall j: nat ensures LoadsOneMore(even, j) {
      OneMoreEven(n, j, Even(n, j), Even(n, j + 1));
    }
  }

  lemma OneMoreEven(n: nat, k: nat, s: seq<nat>, t: seq<nat>)
    requires n > 0 && s == Even(n, k) && t == Even(n, k + 1)
    ensures s != [] && t == OneMore(s)
  {
    EvenStep(n, k);
  }

  lemma FirstMinUnique(s: seq<nat>, i: nat)
    requires IsFirstMin(s, i)
    ensures i == FirstMin(s)
  {
    var j := FirstMin(s);
    assert s[i] <= s[j] <= s[i];
  }

  lemma {:induction false} LoadsBounded(n: nat, k: nat)
    requires n > 0
    ensures forall i | 0 <= i < n :: Loads(n, k)[i] <= k
  {
    if k > 0 {
      LoadsBounded(n, k - 1);
    }
  }

  lemma OpenStep(n: nat, k: nat, i: nat)
    requires n > 0 && k + 1 < USIZE && IsFirstMin(Loads(n, k), i)
    ensures Loads(n, k)[i := Up(Loads(n, k)[i])] == Loads(n, k + 1)
  {
    LoadsBounded(n, k);
    FirstMinUnique(Loads(n, k), i);
    assert Up(Loads(n, k)[i]) == Loads(n, k)[i] + 1;
  }
}
