/** The UDP stream proxy: one owner task holds a map of sessions, one reader task per session. A method is one
    step between two awaits; steps of the owner and of the readers come in any order. */
module Udp {
  import opened Wrappers
  import opened Balancer

  /** A client's session, shared by the owner's map and the session's reader. */
  class Session {
    const guard: Guard
    const idle: nat
    var lastSeen: nat
    var alive: bool
    /** When a datagram was forwarded, in either direction. */
    ghost var traffic: seq<nat>

    /** The activity clock shows the latest traffic. */
    ghost predicate Valid()
      reads this
    {
      (forall i | 0 <= i < |traffic| :: traffic[i] <= lastSeen) && (traffic != [] ==> lastSeen in traffic)
    }

    constructor (guard: Guard, idle: nat, created: nat)
      ensures Valid() && alive && traffic == [] && this.guard == guard && this.idle == idle
    {
      this.guard, this.idle, lastSeen, alive, traffic := guard, idle, created, true, [];
    }

    /** The owner forwards a datagram that it received at `now`. */
    method Forward(now: nat)
      modifies this`lastSeen, this`traffic
      ensures lastSeen == now && traffic == old(traffic) + [now]
      ensures old(Valid()) && (old(traffic) != [] ==> old(lastSeen) <= now) ==> Valid()
    {
      lastSeen := now;
      traffic := traffic + [now];
    }

    /** The reader got a reply at `now`; it stops when the client cannot be reached. */
    method Reply(now: nat, delivered: bool)
      requires alive
      modifies this
      ensures alive == delivered
      ensures delivered ==> lastSeen == now && traffic == old(traffic) + [now]
      ensures !delivered ==> lastSeen == old(lastSeen) && traffic == old(traffic)
      ensures old(Valid()) && old(lastSeen) <= now ==> Valid()
    {
      if !delivered {
        alive := false;
        return;
      }
      lastSeen := now;
      traffic := traffic + [now];
    }

    /** The reader's receive failed. */
    method UpstreamError()
      requires alive
      modifies this`alive
      ensures !alive
    {
      alive := false;
    }

    /** The reader waited for `idle` in vain. It gives up exactly when nothing was forwarded in either direction
        during the last `idle`; a quiet upstream alone does not end a session. */
    method ReceiveTimedOut(now: nat)
      requires alive
      modifies this`alive
      ensures !alive <==> idle == 0 || lastSeen + idle <= now
      ensures Valid() && traffic != [] && lastSeen <= now ==>
                (!alive <==> forall i | 0 <= i < |traffic| :: traffic[i] + idle <= now)
    {
      var quiet := if now >= lastSeen then now - lastSeen else 0;
      if quiet >= idle {
        alive := false;
      }
      assert Valid() && traffic != [] ==> exists i :: 0 <= i < |traffic| && traffic[i] == lastSeen;
    }
  }

  /** A session under creation: its target is chosen and held, its socket not yet connected. */
  datatype Pending = Pending(client: string, guard: Guard, received: nat)

  type Sessions = map<string, Session>

  function Guards(sessions: Sessions): set<Guard> {
    set c | c in sessions :: sessions[c].guard
  }

  function SessionGuard(sessions: Sessions, client: string): set<Guard> {
    if client in sessions then {sessions[client].guard} else {}
  }

  function PendingGuards(p: Option<Pending>): set<Guard> {
    match p case None => {} case Some(q) => {q.guard}
  }

  ghost predicate OwnGuards(sessions: Sessions) {
    forall c, d | c in sessions && d in sessions && c != d :: sessions[c].guard != sessions[d].guard
  }

  ghost predicate Tracks(s: Session, clock: nat)
    reads s
  {
    s.Valid() && s.traffic != [] && s.lastSeen <= clock
  }

  class Proxy {
    const pool: Pool
    const idle: nat
    var sessions: Sessions
    var pending: Option<Pending>
    /** The time that the last step read, and whether it has never gone back. */
    ghost var clock: nat
    ghost var steady: bool
    /** The pool's counter at first, and the target of every session begun since, whether it came about or not. */
    ghost const start: nat
    ghost var chosen: seq<nat>

    /** Every live guard belongs to one session in the map or to the one being created. */
    ghost predicate GuardsHeld()
      reads this, pool
    {
      && pool.Valid() && OwnGuards(sessions)
      && pool.live == Guards(sessions) + PendingGuards(pending)
      && (pending.Some? ==> pending.value.client !in sessions && pending.value.guard !in Guards(sessions))
    }

    /** On a clock that does not go back the activity clock of every session shows its latest traffic. */
    ghost predicate SessionsTracked()
      reads this, set c | c in sessions :: sessions[c]
    {
      && (forall c | c in sessions :: sessions[c].idle == idle)
      && (steady ==> forall c | c in sessions :: Tracks(sessions[c], clock))
      && (steady && pending.Some? ==> pending.value.received <= clock)
    }

    /** Under round robin the sessions take the targets in turn. */
    ghost predicate TurnsKept()
      reads this, pool
    {
      |pool.targets| > 0 && (pool.strategy == RoundRobin ==> InTurn(start, |pool.targets|, chosen, pool.counter))
    }

    ghost predicate Valid()
      reads this, pool, set c | c in sessions :: sessions[c]
    {
      GuardsHeld() && SessionsTracked() && TurnsKept()
    }

    /** The loads once a client's session, if it has one, is out of the map. */
    ghost function LoadsWithout(client: string): seq<nat>
      reads this, pool
    {
      if client in sessions then Released(pool.inFlight, sessions[client].guard) else pool.inFlight
    }

    constructor (pool: Pool, idle: nat)
      requires pool.Valid() && pool.live == {}
      ensures Valid() && sessions == map[] && pending == None && this.pool == pool && this.idle == idle && steady
      ensures start == pool.counter && chosen == []
    {
      this.pool, this.idle, sessions, pending, clock, steady := pool, idle, map[], None, 0, true;
      start, chosen := pool.counter, [];
    }

    /** A step reads the clock. */
    ghost method ReadClock(now: nat)
      requires Valid()
      modifies this`clock, this`steady
      ensures Valid() && clock == now && steady == (old(steady) && old(clock) <= now)
    {
      steady := steady && clock <= now;
      clock := now;
    }

    /** Takes a session out of the map, and with it its guard. */
    method Remove(client: string)
      requires Valid() && client in sessions
      modifies this`sessions, pool`inFlight, pool`live
      ensures Valid() && sessions == old(sessions) - {client}
      ensures pool.live == old(pool.live) - {old(sessions)[client].guard}
      ensures pool.inFlight == old(LoadsWithout(client))
    {
      RemoveSession(sessions, client);
      var g := sessions[client].guard;
      assert g in Guards(sessions);
      pool.Drop(g);
      sessions := sessions - {client};
    }

    /** `select`, then `owned_acquire`. */
    method HoldTarget(client: string) returns (g: Guard)
      requires GuardsHeld() && TurnsKept() && pending.None?
      modifies this`chosen, pool`counter, pool`inFlight, pool`live
      ensures pool.Valid() && fresh(g) && pool.live == old(pool.live) + {g} && g !in Guards(sessions)
      ensures TurnsKept() && chosen == old(chosen) + [g.idx]
      ensures pool.Chosen(client, old(pool.counter), old(pool.inFlight), g.idx)
    {
      assert forall h | h in Guards(sessions) :: h in pool.live;
      g := pool.Open(client);
      if pool.strategy == RoundRobin {
        NextInTurn(start, |pool.targets|, chosen, old(pool.counter), g.idx, pool.counter);
      }
      chosen := chosen + [g.idx];
    }

    /** The first half of `create_session`: choose a target and hold it. */
    method BeginSession(client: string, now: nat)
      requires Valid() && pending.None? && client !in sessions && (steady ==> now <= clock)
      modifies this`pending, this`chosen, pool`counter, pool`inFlight, pool`live
      ensures Valid() && pending.Some? && pending.value.client == client && pending.value.received == now
      ensures fresh(pending.value.guard) && pool.live == old(pool.live) + {pending.value.guard}
      ensures chosen == old(chosen) + [pending.value.guard.idx]
      ensures pool.Chosen(client, old(pool.counter), old(pool.inFlight), pending.value.guard.idx)
    {
      var g := HoldTarget(client);
      assert SessionsTracked();
      pending := Some(Pending(client, g, now));
      assert PendingGuards(pending) == {g};
    }

    /** A datagram arrives. A live session forwards it, on the target it has; otherwise a dead session is
        dropped and the creation of a new one begins. */
    method Receive(client: string, now: nat) returns (forwarded: Option<Session>)
      requires Valid() && pending.None?
      modifies this, pool, set c | c in sessions :: sessions[c]
      ensures Valid() && clock == now && steady == (old(steady) && old(clock) <= now)
      ensures client in old(sessions) && old(sessions[client].alive) ==>
                && forwarded == Some(old(sessions)[client]) && forwarded.value.lastSeen == now
                && forwarded.value.traffic == old(sessions[client].traffic) + [now] && forwarded.value.alive
                && sessions == old(sessions) && pending.None? && chosen == old(chosen)
                && pool.live == old(pool.live) && pool.counter == old(pool.counter)
      ensures !(client in old(sessions) && old(sessions[client].alive)) ==>
                && forwarded == None && sessions == old(sessions) - {client}
                && pending.Some? && pending.value.client == client && pending.value.received == now
                && fresh(pending.value.guard) && chosen == old(chosen) + [pending.value.guard.idx]
                && pool.live == old(pool.live) - SessionGuard(old(sessions), client) + {pending.value.guard}
                && pool.Chosen(client, old(pool.counter), old(LoadsWithout(client)), pending.value.guard.idx)
      ensures forall c | c in old(sessions) && c != client :: unchanged(old(sessions)[c])
    {
      if client in sessions && !sessions[client].alive {
        Remove(client);
      }
      ReadClock(now);
      if client !in sessions {
        assert old(sessions) - {client} == sessions;
        BeginSession(client, now);
        return None;
      }
      var session := sessions[client];
      session.Forward(now);
      forwarded := Some(session);
    }

    /** The session being created takes its place in the map, and its guard with it. */
    method Insert(session: Session)
      requires GuardsHeld() && pending.Some? && session.guard == pending.value.guard
      modifies this`sessions, this`pending
      ensures GuardsHeld() && pending.None? && sessions == old(sessions)[old(pending.value.client) := session]
    {
      AddSession(sessions, pending.value.client, session);
      sessions := sessions[pending.value.client := session];
      pending := None;
    }

    /** The new session's socket is connected: it enters the map and forwards the datagram. */
    method Created(created: nat) returns (session: Session)
      requires Valid() && pending.Some?
      modifies this`clock, this`steady, this`sessions, this`pending
      ensures Valid() && fresh(session) && pending.None? && pool.live == old(pool.live)
      ensures clock == created && steady == (old(steady) && old(clock) <= created)
      ensures sessions == old(sessions)[old(pending.value.client) := session] && chosen == old(chosen)
      ensures session.Valid() && session.alive && session.guard == old(pending.value.guard) && session.idle == idle
      ensures session.lastSeen == old(pending.value.received) && session.traffic == [session.lastSeen]
    {
      ReadClock(created);
      var p := pending.value;
      session := new Session(p.guard, idle, created);
      Insert(session);
      session.Forward(p.received);
      assert GuardsHeld() && TurnsKept();
    }

    /** Binding or connecting failed: the guard taken for the session is given back. */
    method CreateFailed()
      requires Valid() && pending.Some?
      modifies this`pending, pool`inFlight, pool`live
      ensures Valid() && pending.None? && pool.live == old(pool.live) - {old(pending.value.guard)}
    {
      var g := pending.value.guard;
      pool.Drop(g);
      pending := None;
    }

    /** The prune tick: exactly the dead sessions go. */
    method Prune()
      requires Valid() && pending.None?
      modifies this`sessions, pool`inFlight, pool`live
      ensures Valid()
      ensures forall c :: c in sessions <==> c in old(sessions) && old(sessions)[c].alive
      ensures forall c | c in sessions :: sessions[c] == old(sessions)[c]
    {
      var left := sessions.Keys;
      while left != {}
        invariant Valid() && left <= old(sessions).Keys && pending.None?
        invariant forall c :: c in sessions <==> c in old(sessions) && (c in left || old(sessions)[c].alive)
        invariant forall c | c in sessions :: sessions[c] == old(sessions)[c]
        decreases left
      {
        var c :| c in left;
        if !sessions[c].alive {
          Remove(c);
        }
        left := left - {c};
      }
    }

    // The arms of a session's reader, as steps between those of the owner.

    method ReaderReply(client: string, now: nat, delivered: bool)
      requires Valid() && client in sessions && sessions[client].alive
      modifies this`clock, this`steady, sessions[client]
      ensures Valid() && clock == now && steady == (old(steady) && old(clock) <= now)
      ensures var s := sessions[client];
              s.alive == delivered && s.traffic == old(s.traffic) + if delivered then [now] else []
    {
      ReadClock(now);
      sessions[client].Reply(now, delivered);
    }

    method ReaderFailed(client: string)
      requires Valid() && client in sessions && sessions[client].alive
      modifies sessions[client]
      ensures Valid() && !sessions[client].alive && sessions[client].traffic == old(sessions[client].traffic)
    {
      sessions[client].UpstreamError();
    }

    /** In every run on a clock that does not go back: a reader whose receive timed out gives up exactly when nothing
        was forwarded in either direction during the last `idle`. */
    method ReaderTimedOut(client: string, now: nat)
      requires Valid() && client in sessions && sessions[client].alive
      modifies this`clock, this`steady, sessions[client]
      ensures Valid() && clock == now && steady == (old(steady) && old(clock) <= now)
      ensures sessions[client].traffic == old(sessions[client].traffic)
      ensures var s := sessions[client];
              steady ==> (!s.alive <==> forall i | 0 <= i < |s.traffic| :: s.traffic[i] + idle <= now)
    {
      ReadClock(now);
      sessions[client].ReceiveTimedOut(now);
    }
  }

  /** The loads after a guard was dropped. */
  function Released(loads: seq<nat>, g: Guard): seq<nat> {
    if g.idx < |loads| then loads[g.idx := Down(loads[g.idx])] else loads
  }

  lemma RemoveSession(sessions: Sessions, client: string)
    requires OwnGuards(sessions) && client in sessions
    ensures OwnGuards(sessions - {client}) && Guards(sessions - {client}) == Guards(sessions) - {sessions[client].guard}
  {
    var rest := sessions - {client};
    forall g ensures g in Guards(rest) <==> g in Guards(sessions) && g != sessions[client].guard {
      if g in Guards(sessions) && g != sessions[client].guard {
        var c :| c in sessions && sessions[c].guard == g;
        assert c in rest;
      }
    }
  }

  lemma AddSession(sessions: Sessions, client: string, s: Session)
    requires OwnGuards(sessions) && client !in sessions && s.guard !in Guards(sessions)
    ensures OwnGuards(sessions[client := s]) && Guards(sessions[client := s]) == Guards(sessions) + {s.guard}
  {
    var more := sessions[client := s];
    forall g ensures g in Guards(more) <==> g in Guards(sessions) || g == s.guard {
      if g in Guards(sessions) {
        var c :| c in sessions && sessions[c].guard == g;
        assert c in more && more[c].guard == g;
      }
      assert client in more;
    }
  }

  /** The sessions of the map on one target. */
  ghost function On(sessions: Sessions, target: nat): set<string> {
    set c | c in sessions && sessions[c].guard.idx == target
  }

  lemma {:induction false} GuardsCountSessions(sessions: Sessions, target: nat)
    requires OwnGuards(sessions)
    ensures |Holding(Guards(sessions), target)| == |On(sessions, target)|
    decreases |sessions|
  {
    if sessions != map[] {
      var c :| c in sessions;
      RemoveSession(sessions, c);
      assert (sessions - {c}).Keys == sessions.Keys - {c};
      GuardsCountSessions(sessions - {c}, target);
      assert sessions[c].guard in Guards(sessions);
      RemoveGuard(Guards(sessions), sessions[c].guard);
      OneSessionLess(sessions, c, target);
    }
  }

  lemma OneSessionLess(sessions: Sessions, c: string, target: nat)
    requires c in sessions
    ensures |On(sessions, target)| == |On(sessions - {c}, target)| + if sessions[c].guard.idx == target then 1 else 0
  {
    var rest := On(sessions - {c}, target);
    assert On(sessions, target) == if sessions[c].guard.idx == target then rest + {c} else rest;
  }

  /** Conservation: the live guards of a target are its sessions in the map, and one more while a session for
      it is being created. */
  lemma TargetLoadIsSessions(sessions: Sessions, pending: Option<Pending>, live: set<Guard>, target: nat)
    requires OwnGuards(sessions) && live == Guards(sessions) + PendingGuards(pending)
    requires pending.Some? ==> pending.value.guard !in Guards(sessions)
    ensures |Holding(live, target)|
         == |On(sessions, target)| + if pending.Some? && pending.value.guard.idx == target then 1 else 0
  {
    GuardsCountSessions(sessions, target);
    if pending.Some? {
      AddGuard(Guards(sessions), pending.value.guard);
    } else {
      assert live == Guards(sessions);
    }
  }

  /** In every state of the proxy: a target's counter is the number of its sessions in the map, and one more while a
      session for it is being created. */
  lemma CounterIsSessions(p: Proxy, target: nat)
    requires p.Valid() && target < |p.pool.inFlight| && |p.pool.live| < USIZE
    ensures p.pool.inFlight[target]
         == |On(p.sessions, target)| + if p.pending.Some? && p.pending.value.guard.idx == target then 1 else 0
  {
    CountersAreLiveGuards(p.pool.inFlight, p.pool.live, target);
    TargetLoadIsSessions(p.sessions, p.pending, p.pool.live, target);
  }

  /** Round robin over every run of the proxy, the counter not wrapping: any `m` sessions begun in a row give
      every target `m / n` of them or one more, and `n` in a row are on `n` different targets. */
  lemma SessionsTakeTurns(p: Proxy, k: nat, m: nat)
    requires p.Valid() && p.pool.strategy == RoundRobin
    requires k + m <= |p.chosen| && p.start + |p.chosen| <= USIZE
    ensures var n, row := |p.pool.targets|, p.chosen[k..k + m];
            && n > 0
            && (forall t | 0 <= t < n :: m / n <= Occurrences(row, t) <= m / n + 1)
            && (m == n ==> forall i, j | 0 <= i < j < n :: row[i] != row[j])
  {
    var n, row := |p.pool.targets|, p.chosen[k..k + m];
    StretchIsPicks(p.start, n, p.chosen, p.pool.counter, k, m);
    RoundRobinIsFair(p.start + k, n, m);
    if m == n {
      AllBelow(p.start, n, p.chosen, p.pool.counter);
      forall i, j | 0 <= i < j < n ensures row[i] != row[j] {
        assert row[i] == p.chosen[k + i];
        OneOccurrence(row, i, j);
      }
    }
  }
}
