/**
 * Tunnel quota, internal/tunnel/service.go: CreateTunnel counts the workspace's tunnels, and inserts the new
 * one in a later step, so that creations, failures and deletions interleave freely in between.
 */
module Quota {
  import opened Bytes

  const DEFAULT_MAX := 25

  /** The limit in force: the plan's, unless it is missing, unavailable or not positive. */
  function Limit(quota: Option<int>): (n: int)
    ensures n >= 1
    ensures quota.Some? && quota.value > 0 ==> n == quota.value
    ensures quota.None? || quota.value <= 0 ==> n == 25
  {
    if quota.Some? && quota.value > 0 then quota.value else DEFAULT_MAX
  }

  /** Tunnels by id, and the creations that passed the check but have not inserted yet, by request. */
  datatype World = World(tunnels: map<nat, string>, inFlight: map<nat, string>)

  datatype Action =
    | Check(request: nat, workspace: string)
    | Insert(request: nat, id: nat)
    | Abort(request: nat)
    | Delete(id: nat)

  function Of(m: map<nat, string>, workspace: string): set<nat> { set k | k in m && m[k] == workspace }

  /** `checkQuota`: refused when the count has reached the limit. */
  predicate Allowed(w: World, limit: int, workspace: string) { |Of(w.tunnels, workspace)| < limit }

  function Step(limit: int, w: World, a: Action): World {
    match a
    case Check(request, workspace) =>
      if request in w.inFlight || !Allowed(w, limit, workspace) then w
      else w.(inFlight := w.inFlight[request := workspace])
    case Insert(request, id) =>
      if request !in w.inFlight || id in w.tunnels then w
      else World(w.tunnels[id := w.inFlight[request]], w.inFlight - {request})
    case Abort(request) => w.(inFlight := w.inFlight - {request})
    case Delete(id) => w.(tunnels := w.tunnels - {id})
  }

  function Run(limit: int, actions: seq<Action>, n: nat): World
    requires n <= |actions|
  {
    if n == 0 then World(map[], map[]) else Step(limit, Run(limit, actions, n - 1), actions[n - 1])
  }

  /** At every point of the run at most `k` creations of the workspace are in flight. */
  ghost predicate AtMostInFlight(limit: int, actions: seq<Action>, workspace: string, k: nat) {
    forall n | 0 <= n <= |actions| :: |Of(Run(limit, actions, n).inFlight, workspace)| <= k
  }

  lemma OfWithout(m: map<nat, string>, k: nat, workspace: string)
    ensures |Of(m - {k}, workspace)| == |Of(m, workspace)| - (if k in m && m[k] == workspace then 1 else 0)
  {
    if k in m && m[k] == workspace {
      assert Of(m, workspace) == Of(m - {k}, workspace) + {k};
    } else {
      assert Of(m, workspace) == Of(m - {k}, workspace);
    }
  }

  lemma OfWith(m: map<nat, string>, k: nat, v: string, workspace: string)
    requires k !in m
    ensures |Of(m[k := v], workspace)| == |Of(m, workspace)| + (if v == workspace then 1 else 0)
  {
    if v == workspace {
      assert Of(m[k := v], workspace) == Of(m, workspace) + {k};
    } else {
      assert Of(m[k := v], workspace) == Of(m, workspace);
    }
  }

  /** How each action that takes effect moves the two counts of a workspace. */
  lemma StepCounts(limit: int, w: World, a: Action, workspace: string)
    ensures var v := Step(limit, w, a);
            var tunnels, flights := |Of(v.tunnels, workspace)| - |Of(w.tunnels, workspace)|,
                                    |Of(v.inFlight, workspace)| - |Of(w.inFlight, workspace)|;
            match a
            case Check(request, ws) =>
              tunnels == 0 && flights == (if ws == workspace && request !in w.inFlight && |Of(w.tunnels, ws)| < limit then 1 else 0)
            case Insert(request, id) =>
              var mine := request in w.inFlight && w.inFlight[request] == workspace && id !in w.tunnels;
              tunnels == (if mine then 1 else 0) && flights == 0 - tunnels
            case Abort(request) =>
              tunnels == 0 && flights == (if request in w.inFlight && w.inFlight[request] == workspace then -1 else 0)
            case Delete(id) =>
              tunnels == (if id in w.tunnels && w.tunnels[id] == workspace then -1 else 0) && flights == 0
  {
    match a
    case Check(request, ws) =>
      if request !in w.inFlight {
        OfWith(w.inFlight, request, ws, workspace);
      }
    case Insert(request, id) =>
      if request in w.inFlight && id !in w.tunnels {
        OfWithout(w.inFlight, request, workspace);
        OfWith(w.tunnels, id, w.inFlight[request], workspace);
      }
    case Abort(request) =>
      OfWithout(w.inFlight, request, workspace);
    case Delete(id) =>
      OfWithout(w.tunnels, id, workspace);
  }

  /** A step never raises tunnels plus creations in flight, unless a check just passed with the count below the limit. */
  lemma StepTotal(limit: int, w: World, a: Action, workspace: string)
    ensures var v := Step(limit, w, a);
            || |Of(v.tunnels, workspace)| + |Of(v.inFlight, workspace)| <= |Of(w.tunnels, workspace)| + |Of(w.inFlight, workspace)|
            || (v.tunnels == w.tunnels && |Of(w.tunnels, workspace)| < limit)
  {
    StepCounts(limit, w, a, workspace);
  }

  lemma {:induction false} TotalBounded(limit: int, actions: seq<Action>, workspace: string, k: nat, n: nat)
    requires limit >= 1 && n <= |actions| && AtMostInFlight(limit, actions, workspace, k)
    ensures |Of(Run(limit, actions, n).tunnels, workspace)| + |Of(Run(limit, actions, n).inFlight, workspace)| <= limit - 1 + k
  {
    if n == 0 {
      assert Of(Run(limit, actions, 0).tunnels, workspace) == {};
      assert Of(Run(limit, actions, 0).inFlight, workspace) == {};
    } else {
      TotalBounded(limit, actions, workspace, k, n - 1);
      StepTotal(limit, Run(limit, actions, n - 1), actions[n - 1], workspace);
    }
  }

  /** In every interleaving a workspace holds at most `limit - 1 + k` tunnels, so at most `limit` when creations are serial. */
  lemma QuotaBound(limit: int, actions: seq<Action>, workspace: string, k: nat, n: nat)
    requires limit >= 1 && n <= |actions| && AtMostInFlight(limit, actions, workspace, k)
    ensures |Of(Run(limit, actions, n).tunnels, workspace)| <= limit - 1 + k
  {
    TotalBounded(limit, actions, workspace, k, n);
  }

  // ---- The bound is reached ----

  /** One more action after a run. */
  lemma {:induction false} RunExtends(limit: int, actions: seq<Action>, more: seq<Action>, n: nat)
    requires n <= |actions|
    ensures Run(limit, actions + more, n) == Run(limit, actions, n)
  {
    if n > 0 {
      RunExtends(limit, actions, more, n - 1);
    }
  }

  lemma Extend(limit: int, actions: seq<Action>, a: Action, workspace: string, k: nat) returns (longer: seq<Action>)
    requires AtMostInFlight(limit, actions, workspace, k)
    requires |Of(Step(limit, Run(limit, actions, |actions|), a).inFlight, workspace)| <= k
    ensures longer == actions + [a] && AtMostInFlight(limit, longer, workspace, k)
    ensures Run(limit, longer, |longer|) == Step(limit, Run(limit, actions, |actions|), a)
  {
    longer := actions + [a];
    RunExtends(limit, actions, [a], |actions|);
    forall n | 0 <= n <= |longer| ensures |Of(Run(limit, longer, n).inFlight, workspace)| <= k {
      if n <= |actions| {
        RunExtends(limit, actions, [a], n);
      }
    }
  }

  /** The shape of the worlds on the way to the bound: `t` tunnels and requests `lo` to `hi` in flight. */
  ghost predicate Shape(w: World, workspace: string, t: nat, lo: nat, hi: nat) {
    && lo <= hi
    && (forall k :: k in w.tunnels <==> 0 <= k < t) && (forall k | k in w.tunnels :: w.tunnels[k] == workspace)
    && (forall k :: k in w.inFlight <==> lo <= k < hi) && (forall k | k in w.inFlight :: w.inFlight[k] == workspace)
  }

  lemma {:induction false} CountRange(s: set<nat>, lo: nat, hi: nat)
    requires lo <= hi && forall k :: k in s <==> lo <= k < hi
    ensures |s| == hi - lo
    decreases hi
  {
    if lo < hi {
      CountRange(s - {hi - 1}, lo, hi - 1);
      assert s == (s - {hi - 1}) + {hi - 1};
    } else {
      assert s == {};
    }
  }

  lemma ShapeCounts(w: World, workspace: string, t: nat, lo: nat, hi: nat)
    requires Shape(w, workspace, t, lo, hi)
    ensures |Of(w.tunnels, workspace)| == t && |Of(w.inFlight, workspace)| == hi - lo
  {
    CountRange(Of(w.tunnels, workspace), 0, t);
    CountRange(Of(w.inFlight, workspace), lo, hi);
  }

  lemma ShapeAfterCheck(limit: int, w: World, workspace: string, t: nat, lo: nat, hi: nat)
    requires Shape(w, workspace, t, lo, hi) && t < limit
    ensures Shape(Step(limit, w, Check(hi, workspace)), workspace, t, lo, hi + 1)
    ensures |Of(Step(limit, w, Check(hi, workspace)).inFlight, workspace)| == hi + 1 - lo
  {
    ShapeCounts(w, workspace, t, lo, hi);
    ShapeCounts(Step(limit, w, Check(hi, workspace)), workspace, t, lo, hi + 1);
  }

  lemma ShapeAfterInsert(limit: int, w: World, workspace: string, t: nat, hi: nat)
    requires Shape(w, workspace, t, t, hi) && t < hi
    ensures Shape(Step(limit, w, Insert(t, t)), workspace, t + 1, t + 1, hi)
    ensures |Of(Step(limit, w, Insert(t, t)).inFlight, workspace)| == hi - t - 1
  {
    ShapeCounts(Step(limit, w, Insert(t, t)), workspace, t + 1, t + 1, hi);
  }

  /** A creation that runs alone. */
  lemma OneMore(limit: int, before: seq<Action>, workspace: string, k: nat, t: nat) returns (actions: seq<Action>)
    requires k >= 1 && t < limit && AtMostInFlight(limit, before, workspace, k)
    requires Shape(Run(limit, before, |before|), workspace, t, t, t)
    ensures AtMostInFlight(limit, actions, workspace, k)
    ensures Shape(Run(limit, actions, |actions|), workspace, t + 1, t + 1, t + 1)
  {
    var w := Run(limit, before, |before|);
    ShapeAfterCheck(limit, w, workspace, t, t, t);
    var middle := Extend(limit, before, Check(t, workspace), workspace, k);
    ShapeAfterInsert(limit, Step(limit, w, Check(t, workspace)), workspace, t, t + 1);
    actions := Extend(limit, middle, Insert(t, t), workspace, k);
  }

  /** `t` creations one after the other. */
  lemma {:induction false} Serially(limit: int, workspace: string, k: nat, t: nat) returns (actions: seq<Action>)
    requires k >= 1 && t <= limit - 1
    ensures AtMostInFlight(limit, actions, workspace, k)
    ensures Shape(Run(limit, actions, |actions|), workspace, t, t, t)
    decreases t
  {
    if t == 0 {
      actions := [];
      ShapeCounts(World(map[], map[]), workspace, 0, 0, 0);
    } else {
      var before := Serially(limit, workspace, k, t - 1);
      actions := OneMore(limit, before, workspace, k, t - 1);
    }
  }

  /** Then `j` checks that all see the same count. */
  lemma {:induction false} ChecksPile(limit: int, workspace: string, k: nat, j: nat) returns (actions: seq<Action>)
    requires limit >= 1 && 1 <= k && j <= k
    ensures AtMostInFlight(limit, actions, workspace, k)
    ensures Shape(Run(limit, actions, |actions|), workspace, limit - 1, limit - 1, limit - 1 + j)
    decreases j
  {
    if j == 0 {
      actions := Serially(limit, workspace, k, limit - 1);
    } else {
      var before := ChecksPile(limit, workspace, k, j - 1);
      var w, request := Run(limit, before, |before|), limit - 1 + j - 1;
      ShapeAfterCheck(limit, w, workspace, limit - 1, limit - 1, request);
      actions := Extend(limit, before, Check(request, workspace), workspace, k);
    }
  }

  /** Then their insertions. */
  lemma {:induction false} InsertsLand(limit: int, workspace: string, k: nat, j: nat) returns (actions: seq<Action>)
    requires limit >= 1 && 1 <= k && j <= k
    ensures AtMostInFlight(limit, actions, workspace, k)
    ensures Shape(Run(limit, actions, |actions|), workspace, limit - 1 + j, limit - 1 + j, limit - 1 + k)
    decreases j
  {
    if j == 0 {
      actions := ChecksPile(limit, workspace, k, k);
    } else {
      var before := InsertsLand(limit, workspace, k, j - 1);
      var w, at := Run(limit, before, |before|), limit - 1 + j - 1;
      ShapeAfterInsert(limit, w, workspace, at, limit - 1 + k);
      actions := Extend(limit, before, Insert(at, at), workspace, k);
    }
  }

  /** For every limit and every allowed overlap there is a run that ends with exactly `limit - 1 + k` tunnels. */
  lemma QuotaBoundIsReached(limit: int, workspace: string, k: nat)
    requires limit >= 1 && k >= 1
    ensures exists actions: seq<Action> ::
              && AtMostInFlight(limit, actions, workspace, k)
              && |Of(Run(limit, actions, |actions|).tunnels, workspace)| == limit - 1 + k
  {
    var actions := InsertsLand(limit, workspace, k, k);
    ShapeCounts(Run(limit, actions, |actions|), workspace, limit - 1 + k, limit - 1 + k, limit - 1 + k);
  }

  // ---- The service object ----

  class TunnelService {
    var tunnels: map<nat, string>

    constructor ()
      ensures tunnels == map[]
    {
      tunnels := map[];
    }

    method CheckQuota(workspace: string, quota: Option<int>) returns (ok: bool)
      ensures ok <==> |Of(tunnels, workspace)| < Limit(quota)
      ensures quota.Some? && quota.value > 0 ==> (ok <==> |Of(tunnels, workspace)| < quota.value)
      ensures quota.None? || quota.value <= 0 ==> (ok <==> |Of(tunnels, workspace)| < 25)
    {
      var count := |Of(tunnels, workspace)|;
      var maxTunnels := DEFAULT_MAX;
      if quota.Some? && quota.value > 0 {
        maxTunnels := quota.value;
      }
      ok := count < maxTunnels;
    }

    /**
     * `CreateTunnel` running alone: a check followed at once by its insert, or by giving up when no slug or relay
     * is to be had (`ready`) or the insert fails. No workspace is taken past the limit.
     */
    method CreateTunnel(id: nat, workspace: string, name: string, protocol: string, quota: Option<int>, ready: bool)
      returns (ok: bool)
      modifies this
      ensures ok <==> workspace != "" && name != "" && protocol != "" && |Of(old(tunnels), workspace)| < Limit(quota)
                      && ready && id !in old(tunnels)
      ensures !ok ==> unchanged(this)
      ensures ok ==>
                var checked := Step(Limit(quota), World(old(tunnels), map[]), Check(0, workspace));
                World(tunnels, map[]) == Step(Limit(quota), checked, Insert(0, id))
      ensures forall ws: string :: |Of(tunnels, ws)| <= |Of(old(tunnels), ws)| || |Of(tunnels, ws)| <= Limit(quota)
    {
      if workspace == "" || name == "" || protocol == "" {
        return false;
      }
      var within := CheckQuota(workspace, quota);
      if !within || !ready || id in tunnels {
        return false;
      }
      forall ws: string
        ensures |Of(tunnels[id := workspace], ws)| == |Of(tunnels, ws)| + (if workspace == ws then 1 else 0)
      {
        OfWith(tunnels, id, workspace, ws);
      }
      tunnels := tunnels[id := workspace];
      return true;
    }

    method DeleteTunnel(id: nat) returns (ok: bool)
      modifies this
      ensures ok == (id in old(tunnels))
      ensures tunnels == old(tunnels) - {id}
      ensures World(tunnels, map[]) == Step(1, World(old(tunnels), map[]), Delete(id))
    {
      if id !in tunnels {
        return false;
      }
      tunnels := tunnels - {id};
      return true;
    }
  }
}
