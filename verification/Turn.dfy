/** The TURN allocation table, internal/network/turn.go, with the clock and the random ids as inputs. */
module Turn {
  import opened Bytes

  const TTL := 300_000_000_000
  const CLEANUP_INTERVAL := 30_000_000_000

  datatype Allocation = Allocation(id: string, username: string, lastActive: int, peers: set<string>)

  type Table = map<string, Allocation>

  datatype State = State(allocations: Table, closed: bool)

  datatype Op =
    | Create(username: string, id: string)
    | Remove(id: string)
    | RegisterPeer(id: string, peer: string)
    | Traffic(id: string)
    | Cleanup
    | Start
    | Stop(closes: bool)

  /** `Start` stands for one that succeeds; `closes` says whether a stop could close the socket, without which it keeps the table. */
  datatype Event = Event(at: int, op: Op)

  ghost predicate Owns(t: Table, username: string, id: string) { id in t && t[id].username == username }

  predicate Stale(a: Allocation, now: int) { now - a.lastActive > TTL }

  function Touched(t: Table, id: string, now: int): Table
    requires id in t
  {
    t[id := t[id].(lastActive := now)]
  }

  function Surviving(t: Table, now: int): Table {
    map id | id in t && !Stale(t[id], now) :: t[id]
  }

  /** The allocation of a user, if there is one. */
  ghost function Find(t: Table, username: string): (own: Option<string>)
    ensures own.Some? ==> Owns(t, username, own.value)
    ensures own.None? ==> forall id :: !Owns(t, username, id)
  {
    if exists id :: Owns(t, username, id) then
      var id :| Owns(t, username, id);
      Some(id)
    else None
  }

  ghost function Step(s: State, e: Event): State {
    match e.op
    case Create(username, id) =>
      var own := Find(s.allocations, username);
      if s.closed then s
      else if own.Some? then s.(allocations := Touched(s.allocations, own.value, e.at))
      else s.(allocations := s.allocations[id := Allocation(id, username, e.at, {})])
    case Remove(id) => if s.closed then s else s.(allocations := s.allocations - {id})
    case RegisterPeer(id, peer) =>
      if id !in s.allocations then s
      else
        var a := s.allocations[id];
        s.(allocations := s.allocations[id := a.(lastActive := e.at, peers := a.peers + {peer})])
    case Traffic(id) => if id !in s.allocations then s else s.(allocations := Touched(s.allocations, id, e.at))
    case Cleanup => s.(allocations := Surviving(s.allocations, e.at))
    case Start => s.(closed := false)
    case Stop(closes) => if s.closed then s else State(if closes then map[] else s.allocations, true)
  }

  ghost function Run(es: seq<Event>, n: nat): State
    requires n <= |es|
  {
    if n == 0 then State(map[], false) else Step(Run(es, n - 1), es[n - 1])
  }

  /** Keys are ids, and a user owns at most one allocation. */
  ghost predicate Inv(t: Table) {
    && (forall id | id in t :: t[id].id == id)
    && forall id, other | id in t && other in t && t[id].username == t[other].username :: id == other
  }

  lemma StepKeepsInv(s: State, e: Event)
    requires Inv(s.allocations)
    ensures Inv(Step(s, e).allocations)
  {
    if e.op.Create? && Find(s.allocations, e.op.username).None? {
      assert forall id | id in s.allocations :: !Owns(s.allocations, e.op.username, id);
    }
  }

  /** In every run each key is its allocation's id and no user owns two, even when a random id repeats. */
  lemma {:induction false} RunKeepsInv(es: seq<Event>, n: nat)
    requires n <= |es|
    ensures Inv(Run(es, n).allocations)
  {
    if n > 0 {
      RunKeepsInv(es, n - 1);
      StepKeepsInv(Run(es, n - 1), es[n - 1]);
    }
  }

  // ---- Expiry ----

  /** Operations that use, replace or end allocation `id` of `username`. */
  predicate Disturbs(op: Op, id: string, username: string) {
    match op
    case Create(u, newID) => u == username || newID == id
    case Remove(x) => x == id
    case RegisterPeer(x, _) => x == id
    case Traffic(x) => x == id
    case Cleanup => false
    case Start => false
    case Stop(closes) => closes
  }

  ghost predicate Undisturbed(es: seq<Event>, i: nat, n: nat, id: string, username: string)
    requires i <= n <= |es|
  {
    forall j | i <= j < n :: !Disturbs(es[j].op, id, username)
  }

  /**
   * An allocation left alone is there, unchanged, exactly as long as no cleanup has run more than the TTL
   * after its last use: never removed early, and gone for good with the first late enough cleanup.
   */
  lemma {:induction false} IdleSurvivesIff(es: seq<Event>, i: nat, n: nat, id: string)
    requires i <= n <= |es| && id in Run(es, i).allocations
    requires Undisturbed(es, i, n, id, Run(es, i).allocations[id].username)
    ensures var a := Run(es, i).allocations[id];
            && (id in Run(es, n).allocations <==> forall c | i <= c < n && es[c].op.Cleanup? :: !Stale(a, es[c].at))
            && (id in Run(es, n).allocations ==> Run(es, n).allocations[id] == a)
    decreases n
  {
    if i < n {
      var m := n - 1;
      var a := Run(es, i).allocations[id];
      IdleSurvivesIff(es, i, m, id);
      var s, e := Run(es, m), es[m];
      assert !Disturbs(e.op, id, a.username);
      if e.op.Create? && id in s.allocations {
        var own := Find(s.allocations, e.op.username);
        assert own.Some? ==> own.value != id;
      }
      assert e.op.Cleanup? || (id in Step(s, e).allocations <==> id in s.allocations);
    }
  }

  ghost predicate InTimeOrder(es: seq<Event>) { forall i, j | 0 <= i <= j < |es| :: es[i].at <= es[j].at }

  /** Ideal ticks: from the start of the run on, every full cleanup interval that has passed contains a cleanup. */
  ghost predicate Ticking(es: seq<Event>, n: nat)
    requires 0 < n <= |es|
  {
    forall t: int :: es[0].at <= t && t + CLEANUP_INTERVAL <= es[n - 1].at ==> Ticked(es, n, t)
  }

  ghost predicate Ticked(es: seq<Event>, n: nat, t: int)
    requires n <= |es|
  {
    exists c: nat :: CleanupIn(es, n, c, t)
  }

  ghost predicate CleanupIn(es: seq<Event>, n: nat, c: nat, t: int)
    requires n <= |es|
  {
    c < n && es[c].op.Cleanup? && t < es[c].at <= t + CLEANUP_INTERVAL
  }

  /** With ideal ticks an allocation last used by event `i - 1` is gone once TTL plus one cleanup interval have passed. */
  lemma IdleExpiresInTime(es: seq<Event>, i: nat, n: nat, id: string)
    requires 0 < i <= n <= |es| && InTimeOrder(es) && Ticking(es, n)
    requires id in Run(es, i).allocations && Run(es, i).allocations[id].lastActive == es[i - 1].at
    requires Undisturbed(es, i, n, id, Run(es, i).allocations[id].username)
    requires es[n - 1].at >= es[i - 1].at + TTL + CLEANUP_INTERVAL
    ensures id !in Run(es, n).allocations
  {
    var t := es[i - 1].at + TTL;
    assert Ticked(es, n, t);
    var c: nat :| CleanupIn(es, n, c, t);
    assert forall j | 0 <= j <= i - 1 :: es[j].at <= es[i - 1].at;
    assert c >= i;
    IdleSurvivesIff(es, i, n, id);
  }

  /** And it is never expired while at most the TTL has passed. */
  lemma IdleIsKeptForTTL(es: seq<Event>, i: nat, n: nat, id: string)
    requires i <= n <= |es| && InTimeOrder(es) && id in Run(es, i).allocations
    requires Undisturbed(es, i, n, id, Run(es, i).allocations[id].username)
    requires n > 0 ==> es[n - 1].at <= Run(es, i).allocations[id].lastActive + TTL
    ensures id in Run(es, n).allocations && Run(es, n).allocations[id] == Run(es, i).allocations[id]
  {
    IdleSurvivesIff(es, i, n, id);
    forall c | i <= c < n ensures es[c].at <= es[n - 1].at {
    }
  }

  /** The operation uses allocation `id`: its user asks for it again, or it gets a peer or traffic. */
  predicate Uses(op: Op, id: string, username: string) {
    match op
    case Create(u, _) => u == username
    case RegisterPeer(x, _) => x == id
    case Traffic(x) => x == id
    case _ => false
  }

  /** A use makes the time of the event the allocation's last activity, adds the peer it names, and changes nothing else of it. */
  lemma UseRefreshes(s: State, e: Event, id: string)
    requires Inv(s.allocations) && id in s.allocations && Uses(e.op, id, s.allocations[id].username)
    requires e.op.Create? ==> !s.closed
    ensures var before, after := s.allocations[id], Step(s, e).allocations;
            && id in after && after[id].lastActive == e.at
            && after[id].id == before.id && after[id].username == before.username
            && after[id].peers == before.peers + (if e.op.RegisterPeer? then {e.op.peer} else {})
            && after == s.allocations[id := after[id]]
  {
    if e.op.Create? {
      assert Owns(s.allocations, e.op.username, id);
    }
  }

  /** What each operation does to the other allocations: nothing, but for a cleanup, a stop, and a repeated random id. */
  lemma OthersAreKept(s: State, e: Event, id: string)
    requires id in s.allocations && !Disturbs(e.op, id, s.allocations[id].username) && !e.op.Cleanup?
    ensures id in Step(s, e).allocations && Step(s, e).allocations[id] == s.allocations[id]
  {
  }

  /** A removal on a running relay ends exactly the named allocation; a stop that closes ends all, and nothing is created until a start. */
  lemma EndsExactly(s: State, at: int, id: string, username: string)
    ensures !s.closed ==> Step(s, Event(at, Remove(id))) == State(s.allocations - {id}, false)
    ensures !s.closed ==> Step(s, Event(at, Stop(true))) == State(map[], true)
    ensures !s.closed ==> Step(s, Event(at, Stop(false))) == State(s.allocations, true)
    ensures s.closed ==>
              forall op | op in {Remove(id), Create(username, id), Stop(true), Stop(false)} :: Step(s, Event(at, op)) == s
    ensures Step(s, Event(at, Start)) == State(s.allocations, false)
  {
  }

  /** An allocation used at time `t` survives every cleanup up to `t` plus the TTL, if nothing else ends it. */
  lemma UsedIsKeptForTTL(es: seq<Event>, i: nat, n: nat, id: string)
    requires 0 < i <= n <= |es| && InTimeOrder(es) && id in Run(es, i - 1).allocations
    requires Uses(es[i - 1].op, id, Run(es, i - 1).allocations[id].username)
    requires es[i - 1].op.Create? ==> !Run(es, i - 1).closed
    requires Undisturbed(es, i, n, id, Run(es, i - 1).allocations[id].username)
    requires es[n - 1].at <= es[i - 1].at + 300_000_000_000
    ensures id in Run(es, n).allocations && Run(es, n).allocations[id].lastActive == es[i - 1].at
  {
    RunKeepsInv(es, i - 1);
    UseRefreshes(Run(es, i - 1), es[i - 1], id);
    IdleIsKeptForTTL(es, i, n, id);
  }

  /** With ideal ticks it is gone once the TTL and a cleanup interval have passed without another use. */
  lemma UsedExpiresInTime(es: seq<Event>, i: nat, n: nat, id: string)
    requires 0 < i <= n <= |es| && InTimeOrder(es) && Ticking(es, n) && id in Run(es, i - 1).allocations
    requires Uses(es[i - 1].op, id, Run(es, i - 1).allocations[id].username)
    requires es[i - 1].op.Create? ==> !Run(es, i - 1).closed
    requires Undisturbed(es, i, n, id, Run(es, i - 1).allocations[id].username)
    requires es[n - 1].at >= es[i - 1].at + 300_000_000_000 + 30_000_000_000
    ensures id !in Run(es, n).allocations
  {
    RunKeepsInv(es, i - 1);
    UseRefreshes(Run(es, i - 1), es[i - 1], id);
    IdleExpiresInTime(es, i, n, id);
  }

  // ---- The relay object ----

  datatype CreateResult = Stopped | Exists(existing: Allocation) | Created(made: Allocation)

  class TURNRelay {
    var allocations: Table
    var closed: bool

    ghost function View(): State
      reads this
    {
      State(allocations, closed)
    }

    constructor ()
      ensures View() == State(map[], false)
    {
      allocations, closed := map[], false;
    }

    /** `CreateAllocation`: the scan for the user's allocation visits the map in any order. */
    method CreateAllocation(username: string, id: string, now: int) returns (r: CreateResult)
      requires Inv(allocations)
      modifies this`allocations
      ensures View() == Step(old(View()), Event(now, Create(username, id))) && Inv(allocations)
      ensures r.Stopped? <==> closed
      ensures r.Exists? <==> !closed && Find(old(allocations), username).Some?
      ensures r.Exists? ==>
                && r.existing.username == username && r.existing.lastActive == now
                && r.existing.id in old(allocations) && r.existing.peers == old(allocations)[r.existing.id].peers
                && allocations == old(allocations)[r.existing.id := r.existing]
      ensures r.Created? ==> r.made == Allocation(id, username, now, {}) && allocations[id] == r.made
    {
      StepKeepsInv(View(), Event(now, Create(username, id)));
      if closed {
        return Stopped;
      }
      ghost var own := Find(allocations, username);
      var left := allocations.Keys;
      while left != {}
        invariant left <= allocations.Keys && allocations == old(allocations)
        invariant forall k | k in allocations.Keys - left :: allocations[k].username != username
        decreases |left|
      {
        var k :| k in left;
        if allocations[k].username == username {
          assert Owns(allocations, username, k) && own == Some(k);
          allocations := Touched(allocations, k, now);
          return Exists(allocations[k]);
        }
        left := left - {k};
      }
      assert forall k :: !Owns(allocations, username, k);
      var alloc := Allocation(id, username, now, {});
      allocations := allocations[id := alloc];
      return Created(alloc);
    }

    /** `RemoveAllocation`: fails on a stopped relay and for an unknown id. */
    method RemoveAllocation(id: string, now: int) returns (ok: bool)
      modifies this`allocations
      ensures View() == Step(old(View()), Event(now, Remove(id)))
      ensures ok <==> !closed && id in old(allocations)
    {
      if closed || id !in allocations {
        return false;
      }
      allocations := allocations - {id};
      return true;
    }

    /** `RegisterPeer`: works on a stopped relay too, as long as the allocation is there. */
    method RegisterPeer(id: string, peer: string, now: int) returns (ok: bool)
      modifies this`allocations
      ensures View() == Step(old(View()), Event(now, Op.RegisterPeer(id, peer)))
      ensures ok <==> id in old(allocations)
    {
      if id !in allocations {
        return false;
      }
      var a := allocations[id];
      allocations := allocations[id := a.(peers := a.peers + {peer}, lastActive := now)];
      return true;
    }

    /** `Stop`: `closes` is whether the socket could be closed. */
    method Stop(closes: bool, now: int) returns (ok: bool)
      modifies this
      ensures View() == Step(old(View()), Event(now, Op.Stop(closes)))
      ensures ok <==> !old(closed) && closes
    {
      if closed {
        return false;
      }
      closed := true;
      if !closes {
        return false;
      }
      allocations := map[];
      return true;
    }

    /** `cleanupExpired` removes exactly the allocations idle for more than the TTL. */
    method CleanupExpired(now: int)
      modifies this`allocations
      ensures View() == Step(old(View()), Event(now, Cleanup))
      ensures forall id :: id in allocations <==> id in old(allocations) && now - old(allocations)[id].lastActive <= 300_000_000_000
    {
      var left := allocations.Keys;
      ghost var before := allocations;
      while left != {}
        invariant left <= allocations.Keys
        invariant forall k :: k in allocations <==> k in before && (k in left || !Stale(before[k], now))
        invariant forall k | k in allocations :: k in before && allocations[k] == before[k]
        decreases |left|
      {
        var k :| k in left;
        if Stale(allocations[k], now) {
          allocations := allocations - {k};
        }
        left := left - {k};
      }
      assert allocations == Surviving(before, now);
    }
  }
}
