/** Route planning and monitoring, internal/network/topology.go. */
module Topology {
  import opened Bytes

  // ---- Route keys ----

  /** The UTF-8 bytes of the separator between the two addresses of a key. */
  const SEPARATOR: bytes := [0xE2, 0x86, 0x94]

  /** Go's `<` on strings: byte-wise lexicographic. */
  predicate Before(a: bytes, b: bytes) {
    b != [] && (a == [] || a[0] < b[0] || (a[0] == b[0] && Before(a[1..], b[1..])))
  }

  function RouteKey(source: bytes, target: bytes): bytes {
    if Before(source, target) then source + SEPARATOR + target else target + SEPARATOR + source
  }

  lemma {:induction false} BeforeIsTotal(a: bytes, b: bytes)
    ensures a == b || Before(a, b) || Before(b, a)
    ensures !(Before(a, b) && Before(b, a))
  {
    if a != [] && b != [] && a[0] == b[0] {
      BeforeIsTotal(a[1..], b[1..]);
      assert a == [a[0]] + a[1..] && b == [b[0]] + b[1..];
    }
  }

  /** Position `i` decides the order: equal up to there, and then `a` ends or has the smaller byte. */
  predicate DecidesAt(a: bytes, b: bytes, i: nat) {
    i <= |a| && i < |b| && a[..i] == b[..i] && (i == |a| || a[i] < b[i])
  }

  /** Go's order of strings: decided by the first difference. */
  lemma {:induction false} BeforeIff(a: bytes, b: bytes)
    ensures Before(a, b) <==> exists i: nat :: DecidesAt(a, b, i)
  {
    if a != [] && b != [] && a[0] == b[0] {
      BeforeIff(a[1..], b[1..]);
      if i: nat :| DecidesAt(a[1..], b[1..], i) {
        assert a[..i + 1] == [a[0]] + a[1..][..i] && b[..i + 1] == [b[0]] + b[1..][..i];
        assert DecidesAt(a, b, i + 1);
      }
      if i: nat :| DecidesAt(a, b, i) {
        assert a[1..][..i - 1] == a[..i][1..] && b[1..][..i - 1] == b[..i][1..];
        assert DecidesAt(a[1..], b[1..], i - 1);
      }
    } else if Before(a, b) {
      assert DecidesAt(a, b, 0);
    } else {
      NotDecided(a, b);
    }
  }

  lemma NotDecided(a: bytes, b: bytes)
    requires b == [] || (a != [] && a[0] > b[0])
    ensures forall i: nat :: !DecidesAt(a, b, i)
  {
    forall i | 0 < i <= |a| && i <= |b| ensures a[..i] != b[..i] {
      assert a[..i][0] == a[0] && b[..i][0] == b[0];
    }
  }

  /** Both directions of a pair share one route. */
  lemma KeyIsSymmetric(a: bytes, b: bytes)
    ensures RouteKey(a, b) == RouteKey(b, a)
  {
    BeforeIsTotal(a, b);
  }

  predicate SeparatorAt(s: bytes, i: nat) {
    i + 3 <= |s| && s[i] == 0xE2 && s[i + 1] == 0x86 && s[i + 2] == 0x94
  }

  predicate SeparatorFree(s: bytes) { forall i | 0 <= i < |s| :: !SeparatorAt(s, i) }

  /** The first separator of a key ends its first address: none can straddle the boundary. */
  lemma FirstSeparator(a: bytes, b: bytes, i: nat)
    requires SeparatorFree(a)
    ensures SeparatorAt(a + SEPARATOR + b, |a|)
    ensures i < |a| ==> !SeparatorAt(a + SEPARATOR + b, i)
  {
    var s := a + SEPARATOR + b;
    assert s[|a|] == 0xE2 && s[|a| + 1] == 0x86 && s[|a| + 2] == 0x94;
    if i < |a| {
      assert !SeparatorAt(a, i);
      assert forall j | 0 <= j < |a| :: s[j] == a[j];
    }
  }

  lemma JoinInjective(a: bytes, b: bytes, c: bytes, d: bytes)
    requires SeparatorFree(a) && SeparatorFree(c) && a + SEPARATOR + b == c + SEPARATOR + d
    ensures a == c && b == d
  {
    FirstSeparator(a, b, |c|);
    FirstSeparator(c, d, |a|);
    var s := a + SEPARATOR + b;
    assert |a| == |c|;
    assert s[..|a|] == a && s[..|c|] == c;
    assert s[|a| + 3..] == b && s[|c| + 3..] == d;
  }

  /** Addresses without the separator share a key only when they are the same unordered pair. */
  lemma KeyIsInjective(a: bytes, b: bytes, c: bytes, d: bytes)
    requires SeparatorFree(a) && SeparatorFree(b) && SeparatorFree(c) && SeparatorFree(d)
    ensures RouteKey(a, b) == RouteKey(c, d) <==> (a == c && b == d) || (a == d && b == c)
  {
    if RouteKey(a, b) == RouteKey(c, d) {
      var x, y := if Before(a, b) then a else b, if Before(a, b) then b else a;
      var u, v := if Before(c, d) then c else d, if Before(c, d) then d else c;
      JoinInjective(x, y, u, v);
    }
    KeyIsSymmetric(a, b);
  }

  /** With the separator inside an address, different pairs can collide. */
  lemma KeysCollideWithSeparator()
    ensures RouteKey([1], [2] + SEPARATOR + [3]) == RouteKey([1] + SEPARATOR + [2], [3])
  {
  }

  predicate SamePair(a: bytes, b: bytes, c: bytes, d: bytes) { (a == c && b == d) || (a == d && b == c) }

  /** Another pair of addresses has the same key. */
  ghost predicate Shared(a: bytes, b: bytes) {
    exists c: bytes, d: bytes :: RouteKey(c, d) == RouteKey(a, b) && !SamePair(a, b, c, d)
  }

  /** The address that comes first in the key. */
  function FirstOf(a: bytes, b: bytes): bytes { if Before(a, b) then a else b }

  /** The key has a separator at `i`, not the one put there, and what it divides is in order. */
  predicate DividesElsewhere(a: bytes, b: bytes, i: nat) {
    var k := RouteKey(a, b);
    SeparatorAt(k, i) && i != |FirstOf(a, b)| && !Before(k[i + 3..], k[..i])
  }

  lemma Divided(k: bytes, i: nat)
    requires SeparatorAt(k, i)
    ensures k == k[..i] + SEPARATOR + k[i + 3..]
  {
    assert k[i..i + 3] == SEPARATOR;
  }

  /** A pair shares its key if and only if the key can be divided in order at another separator. */
  lemma KeyIsSharedIff(a: bytes, b: bytes)
    ensures Shared(a, b) <==> exists i: nat :: DividesElsewhere(a, b, i)
  {
    var k, x := RouteKey(a, b), FirstOf(a, b);
    if Shared(a, b) {
      var c: bytes, d: bytes :| RouteKey(c, d) == k && !SamePair(a, b, c, d);
      OtherPairDivides(a, b, c, d);
    }
    if i: nat :| DividesElsewhere(a, b, i) {
      Divided(k, i);
      BeforeIsTotal(k[..i], k[i + 3..]);
      assert RouteKey(k[..i], k[i + 3..]) == k;
      DivisionIsOtherPair(a, b, i);
    }
  }

  lemma OtherPairDivides(a: bytes, b: bytes, c: bytes, d: bytes)
    requires RouteKey(c, d) == RouteKey(a, b) && !SamePair(a, b, c, d)
    ensures DividesElsewhere(a, b, |FirstOf(c, d)|)
  {
    var k, x, u := RouteKey(a, b), FirstOf(a, b), FirstOf(c, d);
    var y, v := if Before(a, b) then b else a, if Before(c, d) then d else c;
    assert k == u + SEPARATOR + v && k == x + SEPARATOR + y;
    assert k[|u|] == 0xE2 && k[|u| + 1] == 0x86 && k[|u| + 2] == 0x94;
    assert k[..|u|] == u && k[|u| + 3..] == v && k[..|x|] == x && k[|x| + 3..] == y;
    BeforeIsTotal(u, v);
  }

  lemma DivisionIsOtherPair(a: bytes, b: bytes, i: nat)
    requires DividesElsewhere(a, b, i)
    ensures !SamePair(a, b, RouteKey(a, b)[..i], RouteKey(a, b)[i + 3..])
  {
    var k, x := RouteKey(a, b), FirstOf(a, b);
    var y := if Before(a, b) then b else a;
    BeforeIsTotal(a, b);
    assert |k| == |x| + 3 + |y|;
    assert |k[..i]| == i;
  }

  // ---- Modes ----

  datatype Mode = Direct | TURN | DERP | Relay
  datatype NAT = Unknown | Open | FullCone | Restricted | PortRestricted | Symmetric

  datatype Route = Route(mode: Mode, latency: int, failCount: int)

  type Routes = map<bytes, Route>

  const MAX_LATENCY := 5_000_000_000

  /** The mode `PlanRoute` picks; `punched` is the outcome of hole punching. */
  function PlannedMode(turn: bool, source: NAT, target: NAT, punched: bool): Mode {
    if source == Open || target == Open then Direct
    else if source != Symmetric && target != Symmetric && punched then Direct
    else if turn then TURN
    else Relay
  }

  function Degraded(turn: bool, r: Route): Route {
    match r.mode
    case Direct => r.(mode := if turn then TURN else Relay, failCount := 0)
    case TURN => r.(mode := Relay, failCount := 0)
    case DERP => r.(mode := Relay, failCount := 0)
    case Relay => r.(failCount := r.failCount + 1)
  }

  function Upgraded(turn: bool, r: Route): Route {
    match r.mode
    case Relay => if turn then r.(mode := TURN, failCount := 0) else r
    case TURN => r.(mode := Direct, failCount := 0)
    case DERP => r.(mode := TURN, failCount := 0)
    case Direct => r
  }

  /** One monitor tick: degrade for latency, then, on what that left, for failures. */
  function Ticked(turn: bool, r: Route): Route {
    var first := if r.latency > MAX_LATENCY then Degraded(turn, r) else r;
    if first.failCount >= 3 then Degraded(turn, first) else first
  }

  /** Both conditions may hold, but a tick takes at most one step down. */
  lemma TickChangesModeOnce(turn: bool, r: Route)
    ensures Ticked(turn, r).mode == r.mode || Ticked(turn, r).mode == Degraded(turn, r).mode
    ensures r.mode == Direct && turn ==> Ticked(turn, r).mode != Relay
  {
  }

  /**
   * The planned mode: direct when either side has no NAT, or when neither has a symmetric one and a hole could be punched;
   * otherwise through TURN if there is one, and through the relay if not.
   */
  lemma PlannedModeIs(turn: bool, source: NAT, target: NAT, punched: bool)
    ensures source == Open || target == Open ==> PlannedMode(turn, source, target, punched) == Direct
    ensures source != Open && target != Open && (source == Symmetric || target == Symmetric || !punched) ==>
              PlannedMode(turn, source, target, punched) == if turn then TURN else Relay
    ensures source != Symmetric && target != Symmetric && punched ==> PlannedMode(turn, source, target, punched) == Direct
  {
  }

  /** One step down: to TURN or else the relay from a direct route, to the relay from TURN; the relay itself only counts failures. */
  lemma DegradedIs(turn: bool, r: Route)
    ensures r.mode == Direct ==> Degraded(turn, r) == Route(if turn then TURN else Relay, r.latency, 0)
    ensures r.mode == TURN || r.mode == DERP ==> Degraded(turn, r) == Route(Relay, r.latency, 0)
    ensures r.mode == Relay ==> Degraded(turn, r) == Route(Relay, r.latency, r.failCount + 1)
  {
  }

  /** One step up: from the relay to TURN if there is one, from TURN to a direct route. */
  lemma UpgradedIs(turn: bool, r: Route)
    ensures r.mode == Relay && turn ==> Upgraded(turn, r) == Route(TURN, r.latency, 0)
    ensures r.mode == Direct || (r.mode == Relay && !turn) ==> Upgraded(turn, r) == r
    ensures r.mode == TURN ==> Upgraded(turn, r) == Route(Direct, r.latency, 0)
    ensures r.mode == DERP ==> Upgraded(turn, r) == Route(TURN, r.latency, 0)
  {
  }

  /**
   * A tick leaves a route alone that is within five seconds and below three failures, and takes any other one step down.
   * A relayed route has its failures counted, once for its latency and once for its failures.
   */
  lemma TickedIs(turn: bool, r: Route)
    ensures r.latency <= 5_000_000_000 && r.failCount < 3 ==> Ticked(turn, r) == r
    ensures r.mode == Direct && (r.latency > 5_000_000_000 || r.failCount >= 3) ==>
              Ticked(turn, r) == Route(if turn then TURN else Relay, r.latency, 0)
    ensures r.mode == TURN && (r.latency > 5_000_000_000 || r.failCount >= 3) ==> Ticked(turn, r) == Route(Relay, r.latency, 0)
    ensures r.mode == Relay ==>
              var slow := if r.latency > 5_000_000_000 then 1 else 0;
              Ticked(turn, r) == Route(Relay, r.latency, r.failCount + slow + if r.failCount + slow >= 3 then 1 else 0)
  {
  }

  // ---- Runs ----

  /**
   * Planning looks a route up and stores one in separate steps, so `Store` may hit an existing route;
   * `Measure` is whatever else writes latency and failure counts.
   */
  datatype Op =
    | Store(key: bytes, source: NAT, target: NAT, punched: bool)
    | Measure(key: bytes, latency: int, failCount: int)
    | Tick(key: bytes)
    | Degrade(key: bytes)
    | Upgrade(key: bytes)
    | Remove(key: bytes)

  function Step(turn: bool, rs: Routes, op: Op): Routes {
    match op
    case Store(key, source, target, punched) => rs[key := Route(PlannedMode(turn, source, target, punched), 0, 0)]
    case Measure(key, latency, failCount) =>
      if key in rs then rs[key := Route(rs[key].mode, latency, failCount)] else rs
    case Tick(key) => if key in rs then rs[key := Ticked(turn, rs[key])] else rs
    case Degrade(key) => if key in rs then rs[key := Degraded(turn, rs[key])] else rs
    case Upgrade(key) => if key in rs then rs[key := Upgraded(turn, rs[key])] else rs
    case Remove(key) => rs - {key}
  }

  function Run(turn: bool, ops: seq<Op>, n: nat): Routes
    requires n <= |ops|
  {
    if n == 0 then map[] else Step(turn, Run(turn, ops, n - 1), ops[n - 1])
  }

  /** Over all runs no route is ever in DERP mode, and TURN occurs only with a TURN relay. */
  lemma {:induction false} ReachableModes(turn: bool, ops: seq<Op>, n: nat, key: bytes)
    requires n <= |ops| && key in Run(turn, ops, n)
    ensures Run(turn, ops, n)[key].mode != DERP
    ensures Run(turn, ops, n)[key].mode == TURN ==> turn
  {
    if key in Run(turn, ops, n - 1) {
      ReachableModes(turn, ops, n - 1, key);
    }
  }

  /** How far a mode is down the ladder. */
  function Rank(m: Mode): nat {
    match m
    case Direct => 0
    case TURN => 1
    case DERP => 1
    case Relay => 2
  }

  /** The operations that move the route of `key` up: an upgrade that finds a better mode, or a store of a better plan. */
  predicate Raises(turn: bool, rs: Routes, op: Op, key: bytes)
    requires key in rs
  {
    match op
    case Upgrade(k) => k == key && (rs[key].mode == TURN || (rs[key].mode == Relay && turn))
    case Store(k, source, target, punched) =>
      k == key && Rank(PlannedMode(turn, source, target, punched)) < Rank(rs[key].mode)
    case _ => false
  }

  /** One operation, unless it removes the route, raises it if and only if it is one of those; any other mode change goes down. */
  lemma StepMovesUpIff(turn: bool, rs: Routes, op: Op, key: bytes)
    requires key in rs && rs[key].mode != DERP && op != Remove(key)
    ensures key in Step(turn, rs, op)
    ensures Rank(Step(turn, rs, op)[key].mode) < Rank(rs[key].mode) <==> Raises(turn, rs, op, key)
    ensures !Raises(turn, rs, op, key) ==>
              Rank(rs[key].mode) + (if Step(turn, rs, op)[key].mode != rs[key].mode then 1 else 0) <= Rank(Step(turn, rs, op)[key].mode)
  {
    TickChangesModeOnce(turn, rs[key]);
  }

  ghost predicate Kept(ops: seq<Op>, key: bytes, i: nat, n: nat)
    requires i <= n <= |ops|
  {
    forall j | i <= j < n :: ops[j] != Remove(key)
  }

  lemma {:induction false} RouteStays(turn: bool, ops: seq<Op>, key: bytes, i: nat, n: nat)
    requires i <= n <= |ops| && key in Run(turn, ops, i) && Kept(ops, key, i, n)
    ensures forall j | i <= j <= n :: key in Run(turn, ops, j)
  {
    if i < n {
      RouteStays(turn, ops, key, i, n - 1);
    }
  }

  /** Number of mode changes of `key` from operation `i` to operation `n`. */
  ghost function Changes(turn: bool, ops: seq<Op>, key: bytes, i: nat, n: nat): nat
    requires i <= n <= |ops| && forall j | i <= j <= n :: key in Run(turn, ops, j)
  {
    if n == i then 0
    else
      Changes(turn, ops, key, i, n - 1)
      + if Run(turn, ops, n)[key].mode != Run(turn, ops, n - 1)[key].mode then 1 else 0
  }

  function RankAt(turn: bool, ops: seq<Op>, key: bytes, j: nat): nat
    requires j <= |ops| && key in Run(turn, ops, j)
  {
    Rank(Run(turn, ops, j)[key].mode)
  }

  /** Some operation from `i` to `n` raises the route. */
  ghost predicate SomeRaise(turn: bool, ops: seq<Op>, key: bytes, i: nat, n: nat)
    requires i <= n <= |ops| && forall j | i <= j <= n :: key in Run(turn, ops, j)
  {
    exists j | i <= j < n :: Raises(turn, Run(turn, ops, j), ops[j], key)
  }

  /** With no such operation the route only moves toward Relay, and changes mode at most as often as it moves down: never more than twice. */
  lemma {:induction false} RouteOnlyDegrades(turn: bool, ops: seq<Op>, key: bytes, i: nat, n: nat)
    requires i <= n <= |ops| && key in Run(turn, ops, i) && Kept(ops, key, i, n)
    ensures forall j | i <= j <= n :: key in Run(turn, ops, j)
    ensures !SomeRaise(turn, ops, key, i, n) ==>
              && RankAt(turn, ops, key, i) + Changes(turn, ops, key, i, n) <= RankAt(turn, ops, key, n)
              && Changes(turn, ops, key, i, n) <= 2
  {
    RouteStays(turn, ops, key, i, n);
    if i < n && !SomeRaise(turn, ops, key, i, n) {
      var m := n - 1;
      RouteOnlyDegrades(turn, ops, key, i, m);
      ReachableModes(turn, ops, m, key);
      StepMovesUpIff(turn, Run(turn, ops, m), ops[m], key);
    }
  }

  /**
   * While a route exists, its rank drops somewhere between `i` and `n` if and only if an upgrade finds it a better
   * mode there, or a store replaces it by a better plan.
   */
  lemma RouteRisesIff(turn: bool, ops: seq<Op>, key: bytes, i: nat, n: nat)
    requires i <= n <= |ops| && key in Run(turn, ops, i) && Kept(ops, key, i, n)
    ensures forall j | i <= j <= n :: key in Run(turn, ops, j)
    ensures (exists a, b | i <= a <= b <= n :: RankAt(turn, ops, key, b) < RankAt(turn, ops, key, a))
            <==> SomeRaise(turn, ops, key, i, n)
  {
    RouteStays(turn, ops, key, i, n);
    if j :| i <= j < n && Raises(turn, Run(turn, ops, j), ops[j], key) {
      ReachableModes(turn, ops, j, key);
      StepMovesUpIff(turn, Run(turn, ops, j), ops[j], key);
      assert RankAt(turn, ops, key, j + 1) < RankAt(turn, ops, key, j);
    } else {
      forall a, b | i <= a <= b <= n ensures RankAt(turn, ops, key, a) <= RankAt(turn, ops, key, b) {
        RouteOnlyDegrades(turn, ops, key, a, b);
      }
    }
  }

  /** Two overlapping plans of one pair: the route of the first degrades, then the store of the second puts it back to Direct. */
  lemma OverlappingPlanResetsRoute(key: bytes)
    ensures var ops := [Store(key, Open, Open, false), Degrade(key), Store(key, Open, Open, false)];
            && Run(false, ops, 1)[key].mode == Direct && Run(false, ops, 2)[key].mode == Relay
            && Run(false, ops, 3)[key].mode == Direct
  {
    var ops := [Store(key, Open, Open, false), Degrade(key), Store(key, Open, Open, false)];
    assert Run(false, ops, 1) == Step(false, Run(false, ops, 0), ops[0]);
    assert Run(false, ops, 2) == Step(false, Run(false, ops, 1), ops[1]);
  }

  // ---- The planner object ----

  class TopologyPlanner {
    const turnAvailable: bool
    var routes: Routes

    constructor (turnAddr: bytes)
      ensures turnAvailable == (turnAddr != []) && routes == map[]
    {
      turnAvailable := turnAddr != [];
      routes := map[];
    }

    /** `PlanRoute` without overlap: one route per unordered pair, planned once. */
    method PlanRoute(source: NAT, target: NAT, punched: bool, sourceAddr: bytes, targetAddr: bytes) returns (r: Route)
      modifies this`routes
      ensures var key := RouteKey(sourceAddr, targetAddr);
              && key in routes && r == routes[key]
              && routes == if key in old(routes) then old(routes)
                           else Step(turnAvailable, old(routes), Store(key, source, target, punched))
    {
      var key := RouteKey(sourceAddr, targetAddr);
      if key in routes {
        return routes[key];
      }
      var mode;
      if source == Open || target == Open {
        mode := Direct;
      } else if source != Symmetric && target != Symmetric && punched {
        mode := Direct;
      } else if turnAvailable {
        mode := TURN;
      } else {
        mode := Relay;
      }
      r := Route(mode, 0, 0);
      routes := routes[key := r];
    }

    method DegradeRoute(key: bytes)
      modifies this`routes
      ensures routes == Step(turnAvailable, old(routes), Degrade(key))
    {
      if key !in routes {
        return;
      }
      var route := routes[key];
      match route.mode {
        case Direct =>
          route := route.(mode := if turnAvailable then TURN else Relay, failCount := 0);
        case TURN =>
          route := route.(mode := Relay, failCount := 0);
        case DERP =>
          route := route.(mode := Relay, failCount := 0);
        case Relay =>
          route := route.(failCount := route.failCount + 1);
      }
      routes := routes[key := route];
    }

    method UpgradeRoute(key: bytes)
      modifies this`routes
      ensures routes == Step(turnAvailable, old(routes), Upgrade(key))
    {
      if key !in routes {
        return;
      }
      var route := routes[key];
      match route.mode {
        case Relay =>
          if turnAvailable {
            route := route.(mode := TURN, failCount := 0);
          }
        case TURN =>
          route := route.(mode := Direct, failCount := 0);
        case DERP =>
          route := route.(mode := TURN, failCount := 0);
        case Direct =>
          return;
      }
      routes := routes[key := route];
    }

    method RemoveRoute(key: bytes)
      modifies this`routes
      ensures routes == Step(turnAvailable, old(routes), Remove(key))
    {
      routes := routes - {key};
    }

    /** The body of the monitor's ticker case; `present` is false when the monitor stops. */
    method MonitorTick(key: bytes) returns (present: bool)
      modifies this`routes
      ensures present == (key in old(routes))
      ensures routes == Step(turnAvailable, old(routes), Tick(key))
    {
      if key !in routes {
        return false;
      }
      ghost var before := routes;
      if routes[key].latency > MAX_LATENCY {
        DegradeRoute(key);
      }
      if routes[key].failCount >= 3 {
        DegradeRoute(key);
      }
      assert routes == before[key := Ticked(turnAvailable, before[key])];
      return true;
    }
  }
}
