/**
 * The routing state of internal/relay/dispatcher.go as values: four maps, one step per Register or
 * Unregister, and what they hold after any run. `C` is whatever identifies a tunnel context.
 */
module Routing {
  import opened Bytes

  const DOT: byte := 46
  const STAR: byte := 42

  /** A tunnel context with the keys it is registered under; empty strings and ports below 1 name nothing. */
  datatype Entry<C> = Entry(id: bytes, domain: bytes, port: int, slug: bytes, ctx: C)

  datatype Table<C> = Table(tunnels: map<bytes, Entry<C>>, byDomain: map<bytes, bytes>,
                            byPort: map<int, bytes>, bySlug: map<bytes, bytes>)

  datatype Op<C> = Register(entry: Entry<C>) | Unregister(id: bytes)

  function Empty<C>(): Table<C> { Table(map[], map[], map[], map[]) }

  function Step<C>(t: Table<C>, op: Op<C>): Table<C> {
    match op
    case Register(e) =>
      if e.id == [] then t
      else Table(t.tunnels[e.id := e],
                 if e.domain != [] then t.byDomain[e.domain := e.id] else t.byDomain,
                 if e.port > 0 then t.byPort[e.port := e.id] else t.byPort,
                 if e.slug != [] then t.bySlug[e.slug := e.id] else t.bySlug)
    case Unregister(id) =>
      if id !in t.tunnels then t
      else
        var e := t.tunnels[id];
        Table(t.tunnels - {id},
              if e.domain != [] then t.byDomain - {e.domain} else t.byDomain,
              if e.port > 0 then t.byPort - {e.port} else t.byPort,
              if e.slug != [] then t.bySlug - {e.slug} else t.bySlug)
  }

  /** The table after the first `n` operations, starting from `t`. */
  function Apply<C>(t: Table<C>, ops: seq<Op<C>>, n: nat): Table<C>
    requires n <= |ops|
  {
    if n == 0 then t else Step(Apply(t, ops, n - 1), ops[n - 1])
  }

  function Run<C>(ops: seq<Op<C>>, n: nat): Table<C>
    requires n <= |ops|
  {
    Apply(Empty(), ops, n)
  }

  // ---- Routing keys ----

  datatype Key = Domain(domain: bytes) | Port(port: int) | Slug(slug: bytes)

  /** The index entry under a key. */
  function Owner<C>(t: Table<C>, key: Key): Option<bytes> {
    match key
    case Domain(d) => if d in t.byDomain then Some(t.byDomain[d]) else None
    case Port(p) => if p in t.byPort then Some(t.byPort[p]) else None
    case Slug(s) => if s in t.bySlug then Some(t.bySlug[s]) else None
  }

  predicate Carries<C>(e: Entry<C>, key: Key) {
    match key
    case Domain(d) => d != [] && e.domain == d
    case Port(p) => p > 0 && e.port == p
    case Slug(s) => s != [] && e.slug == s
  }

  predicate Names<C>(op: Op<C>, key: Key) { op.Register? && op.entry.id != [] && Carries(op.entry, key) }

  predicate Touches<C>(op: Op<C>, id: bytes) {
    match op
    case Register(e) => e.id == id
    case Unregister(u) => u == id
  }

  /** The context of `id` after `n` operations is the one registered by operation `i`. */
  ghost predicate LiveSince<C>(ops: seq<Op<C>>, n: nat, id: bytes, i: nat)
    requires n <= |ops|
  {
    && i < n && ops[i].Register? && ops[i].entry.id == id && id != []
    && forall j | i < j < n :: !Touches(ops[j], id)
  }

  /** Operation `j` unregisters a live context that carries `key`. */
  ghost predicate Clears<C>(ops: seq<Op<C>>, j: nat, key: Key)
    requires j < |ops|
  {
    ops[j].Unregister? && exists i: nat :: LiveSince(ops, j, ops[j].id, i) && Carries(ops[i].entry, key)
  }

  /** Operation `i` was the last to name `key`, and no live context carrying it was unregistered since. */
  ghost predicate RoutedSince<C>(ops: seq<Op<C>>, n: nat, key: Key, i: nat)
    requires n <= |ops|
  {
    i < n && Names(ops[i], key) && forall j | i < j < n :: !Names(ops[j], key) && !Clears(ops, j, key)
  }

  /** After every run, an id is registered exactly when its last mention was a registration, and with that context. */
  lemma {:induction false} LiveIff<C>(ops: seq<Op<C>>, n: nat, id: bytes)
    requires n <= |ops|
    ensures id in Run(ops, n).tunnels <==> exists i: nat :: LiveSince(ops, n, id, i)
    ensures forall i: nat | LiveSince(ops, n, id, i) :: Run(ops, n).tunnels[id] == ops[i].entry
  {
    if n > 0 {
      var m := n - 1;
      LiveIff(ops, m, id);
      if Touches(ops[m], id) {
        assert ops[m].Register? && id != [] ==> LiveSince(ops, n, id, m);
      } else {
        forall i: nat ensures LiveSince(ops, m, id, i) <==> LiveSince(ops, n, id, i) {
        }
      }
    }
  }

  /**
   * After every run, a domain, port or slug maps to the tunnel of the last registration naming it, unless
   * a live context carrying it was unregistered later; then, and when nothing named it, it maps nowhere.
   */
  lemma {:induction false} RouteIff<C>(ops: seq<Op<C>>, n: nat, key: Key)
    requires n <= |ops|
    ensures Owner(Run(ops, n), key).Some? <==> exists i: nat :: RoutedSince(ops, n, key, i)
    ensures forall i: nat | RoutedSince(ops, n, key, i) :: Owner(Run(ops, n), key) == Some(ops[i].entry.id)
  {
    if n > 0 {
      var m := n - 1;
      RouteIff(ops, m, key);
      OwnerAfterStep(Run(ops, m), ops[m], key);
      ClearsIff(ops, m, key);
      if Names(ops[m], key) {
        assert RoutedSince(ops, n, key, m);
      } else if !Clears(ops, m, key) {
        forall i: nat ensures RoutedSince(ops, m, key, i) <==> RoutedSince(ops, n, key, i) {
        }
      }
    }
  }

  /** One operation sets the index entry of a key it names, clears the keys it unregisters, and leaves the others. */
  lemma OwnerAfterStep<C>(t: Table<C>, op: Op<C>, key: Key)
    ensures Owner(Step(t, op), key)
            == if Names(op, key) then Some(op.entry.id)
               else if op.Unregister? && op.id in t.tunnels && Carries(t.tunnels[op.id], key) then None
               else Owner(t, key)
  {
  }

  lemma ClearsIff<C>(ops: seq<Op<C>>, j: nat, key: Key)
    requires j < |ops|
    ensures Clears(ops, j, key) <==>
            ops[j].Unregister? && ops[j].id in Run(ops, j).tunnels && Carries(Run(ops, j).tunnels[ops[j].id], key)
  {
    if ops[j].Unregister? {
      LiveIff(ops, j, ops[j].id);
    }
  }

  // ---- Lookup ----

  function ById<C>(t: Table<C>, id: bytes): Option<Entry<C>> {
    if id in t.tunnels then Some(t.tunnels[id]) else None
  }

  /** The index key the left-to-right scan of `Lookup` settles on from position `i`. */
  function WildcardKey<C>(t: Table<C>, host: bytes, i: nat): Option<bytes>
    requires i <= |host|
    decreases |host| - i
  {
    if i == |host| then None
    else if host[i] == DOT && [STAR] + host[i..] in t.byDomain then Some([STAR] + host[i..])
    else WildcardKey(t, host, i + 1)
  }

  function LookupKey<C>(t: Table<C>, host: bytes): Option<bytes> {
    if host == [] then None else if host in t.byDomain then Some(host) else WildcardKey(t, host, 0)
  }

  function Lookup<C>(t: Table<C>, host: bytes): Option<Entry<C>> {
    var k := LookupKey(t, host);
    if k.Some? && k.value in t.byDomain then ById(t, t.byDomain[k.value]) else None
  }

  /** `pattern` is `*` followed by a suffix of `host` that starts at a dot. */
  ghost predicate Wildcard(pattern: bytes, host: bytes) {
    exists i: nat :: WildcardAt(pattern, host, i)
  }

  ghost predicate WildcardAt(pattern: bytes, host: bytes, i: nat) {
    i < |host| && host[i] == '.' as int && pattern == ['*' as int] + host[i..]
  }

  ghost predicate Matches(pattern: bytes, host: bytes) {
    host != [] && (pattern == host || Wildcard(pattern, host))
  }

  /** The exact name beats every wildcard, and among wildcards the longer suffix wins. */
  predicate MoreSpecific(p: bytes, q: bytes, host: bytes) {
    q != host && (p == host || |p| > |q|)
  }

  lemma {:induction false} WildcardKeyIsLongest<C>(t: Table<C>, host: bytes, i: nat)
    requires i <= |host|
    ensures var k := WildcardKey(t, host, i);
            && (k.Some? ==> k.value in t.byDomain && Wildcard(k.value, host))
            && forall j: nat, q | j >= i && WildcardAt(q, host, j) && q in t.byDomain ::
                 k.Some? && (q == k.value || |k.value| > |q|)
    decreases |host| - i
  {
    if i < |host| {
      if host[i] == DOT && [STAR] + host[i..] in t.byDomain {
        assert WildcardAt([STAR] + host[i..], host, i);
      } else {
        WildcardKeyIsLongest(t, host, i + 1);
        forall j: nat, q | j >= i && WildcardAt(q, host, j) && q in t.byDomain ensures j >= i + 1 {
        }
      }
    }
  }

  /** `Lookup` picks the most specific indexed pattern that matches the host, and none when none matches. */
  lemma LookupKeyIsMostSpecific<C>(t: Table<C>, host: bytes)
    ensures LookupKey(t, host).None? <==> forall q | q in t.byDomain :: !Matches(q, host)
    ensures LookupKey(t, host).Some? ==>
              var p := LookupKey(t, host).value;
              && p in t.byDomain && Matches(p, host)
              && forall q | q in t.byDomain && Matches(q, host) :: q == p || MoreSpecific(p, q, host)
  {
    WildcardKeyIsLongest(t, host, 0);
    forall q | q in t.byDomain && Matches(q, host) && q != host
      ensures exists j: nat :: j >= 0 && WildcardAt(q, host, j)
    {
    }
    if host != [] && host in t.byDomain {
      assert Matches(host, host);
    }
  }

  /**
   * Over any run, whatever a lookup answers is the context of the last registration `j` of a tunnel, and
   * that tunnel is the one a matching pattern `p` has been routed to since operation `i`.
   */
  lemma LookupOverRun<C>(ops: seq<Op<C>>, n: nat, host: bytes, e: Entry<C>) returns (p: bytes, i: nat, j: nat)
    requires n <= |ops| && Lookup(Run(ops, n), host) == Some(e)
    ensures Matches(p, host) && RoutedSince(ops, n, Domain(p), i)
    ensures LiveSince(ops, n, ops[i].entry.id, j) && ops[j].entry == e
  {
    var t := Run(ops, n);
    LookupKeyIsMostSpecific(t, host);
    p := LookupKey(t, host).value;
    RouteIff(ops, n, Domain(p));
    i :| RoutedSince(ops, n, Domain(p), i);
    LiveIff(ops, n, t.byDomain[p]);
    j :| LiveSince(ops, n, t.byDomain[p], j);
  }

  /** The pattern a lookup of `host` picks belongs to tunnel `id`. */
  predicate RoutedTo<C>(t: Table<C>, host: bytes, id: bytes) {
    LookupKey(t, host).Some? && Owner(t, Domain(LookupKey(t, host).value)) == Some(id)
  }

  lemma OwnedDomainIsRouted<C>(t: Table<C>, domain: bytes, id: bytes)
    requires domain != [] && Owner(t, Domain(domain)) == Some(id)
    ensures RoutedTo(t, domain, id)
  {
  }

  /**
   * A registration without routing keys, as the relay makes after a handshake, keeps every route: hosts
   * that reached its tunnel now reach the new context, all others are answered as before.
   */
  lemma BlankRegistrationKeepsRoutes<C>(t: Table<C>, e: Entry<C>, host: bytes)
    requires e.id != [] && e.domain == [] && e.port <= 0 && e.slug == []
    ensures forall key: Key :: Owner(Step(t, Register(e)), key) == Owner(t, key)
    ensures var after := Step(t, Register(e));
            && LookupKey(after, host) == LookupKey(t, host)
            && Lookup(after, host)
               == if RoutedTo(t, host, e.id) then Some(e) else Lookup(t, host)
  {
    SameDomainsSameKey(t, Step(t, Register(e)), host, 0);
  }

  lemma {:induction false} SameDomainsSameKey<C>(t: Table<C>, u: Table<C>, host: bytes, i: nat)
    requires t.byDomain == u.byDomain && i <= |host|
    ensures WildcardKey(t, host, i) == WildcardKey(u, host, i)
    decreases |host| - i
  {
    if i < |host| {
      SameDomainsSameKey(t, u, host, i + 1);
    }
  }

  // ---- When the indexes describe the live tunnels ----

  ghost predicate SameKeys<C>(a: Entry<C>, b: Entry<C>) {
    a.domain == b.domain && a.port == b.port && a.slug == b.slug
  }

  /** Each id keeps its keys over the run, and no two ids share one. */
  ghost predicate Steady<C>(ops: seq<Op<C>>) {
    forall i, j | 0 <= i < |ops| && 0 <= j < |ops| && ops[i].Register? && ops[j].Register?
                  && ops[i].entry.id != [] && ops[j].entry.id != [] ::
      Compatible(ops[i].entry, ops[j].entry)
  }

  ghost predicate Compatible<C>(a: Entry<C>, b: Entry<C>) {
    if a.id == b.id then SameKeys(a, b) else forall key :: !(Carries(a, key) && Carries(b, key))
  }

  ghost predicate Registered<C>(ops: seq<Op<C>>, n: nat, e: Entry<C>)
    requires n <= |ops|
  {
    exists i: nat :: i < n && ops[i] == Register(e)
  }

  ghost predicate IndexIsExact<C>(t: Table<C>, key: Key) {
    forall id :: Owner(t, key) == Some(id) <==> id in t.tunnels && Carries(t.tunnels[id], key)
  }

  /** In a steady run an index entry exists exactly for each live tunnel carrying the key. */
  lemma {:induction false} SteadyIndexIsExact<C>(ops: seq<Op<C>>, n: nat, key: Key)
    requires n <= |ops| && Steady(ops)
    ensures forall id | id in Run(ops, n).tunnels ::
              id != [] && Run(ops, n).tunnels[id].id == id && Registered(ops, n, Run(ops, n).tunnels[id])
    ensures IndexIsExact(Run(ops, n), key)
  {
    if n > 0 {
      SteadyIndexIsExact(ops, n - 1, key);
      var t, op, u := Run(ops, n - 1), ops[n - 1], Run(ops, n);
      forall id | id in u.tunnels ensures Registered(ops, n, u.tunnels[id]) {
        if !(op.Register? && op.entry.id == id) {
          var i: nat :| i < n - 1 && ops[i] == Register(t.tunnels[id]);
          assert ops[i] == Register(u.tunnels[id]);
        } else {
          assert ops[n - 1] == Register(u.tunnels[id]);
        }
      }
      forall id | id in t.tunnels && op.Register? && op.entry.id != []
        ensures Compatible(t.tunnels[id], op.entry)
      {
        var i: nat :| i < n - 1 && ops[i] == Register(t.tunnels[id]);
        assert ops[i].Register? && ops[n - 1].Register?;
      }
      forall a, b | a in t.tunnels && b in t.tunnels ensures Compatible(t.tunnels[a], t.tunnels[b]) {
        var i: nat :| i < n - 1 && ops[i] == Register(t.tunnels[a]);
        var j: nat :| j < n - 1 && ops[j] == Register(t.tunnels[b]);
        assert ops[i].Register? && ops[j].Register?;
      }
      StepKeepsIndexExact(t, op, key);
    }
  }

  lemma StepKeepsIndexExact<C>(t: Table<C>, op: Op<C>, key: Key)
    requires IndexIsExact(t, key)
    requires forall id | id in t.tunnels :: id != [] && t.tunnels[id].id == id
    requires op.Register? && op.entry.id != [] ==>
               forall id | id in t.tunnels :: Compatible(t.tunnels[id], op.entry)
    requires forall a, b | a in t.tunnels && b in t.tunnels :: Compatible(t.tunnels[a], t.tunnels[b])
    ensures IndexIsExact(Step(t, op), key)
  {
    var u := Step(t, op);
    OwnerAfterStep(t, op, key);
    forall id ensures Owner(u, key) == Some(id) <==> id in u.tunnels && Carries(u.tunnels[id], key) {
      assert Owner(t, key) == Some(id) <==> id in t.tunnels && Carries(t.tunnels[id], key);
      if op.Register? && Names(op, key) && id in t.tunnels && Carries(t.tunnels[id], key) {
        assert Compatible(t.tunnels[id], op.entry);
      }
      if op.Unregister? && op.id in t.tunnels && id in t.tunnels {
        assert Compatible(t.tunnels[id], t.tunnels[op.id]);
      }
    }
  }

  /** The best match found by scanning every live tunnel, with no index. */
  ghost predicate BestLive<C>(t: Table<C>, host: bytes, e: Entry<C>) {
    && e.id in t.tunnels && t.tunnels[e.id] == e && e.domain != [] && Matches(e.domain, host)
    && forall id | id in t.tunnels && t.tunnels[id].domain != [] && Matches(t.tunnels[id].domain, host) ::
         id == e.id || MoreSpecific(e.domain, t.tunnels[id].domain, host)
  }

  /** In a steady run the indexed lookup answers exactly the best match among all live tunnels. */
  lemma SteadyLookupIsBestLive<C>(ops: seq<Op<C>>, n: nat, host: bytes, e: Entry<C>)
    requires n <= |ops| && Steady(ops)
    ensures Lookup(Run(ops, n), host) == Some(e) <==> BestLive(Run(ops, n), host, e)
  {
    var t := Run(ops, n);
    forall d: bytes ensures IndexIsExact(t, Domain(d)) {
      SteadyIndexIsExact(ops, n, Domain(d));
    }
    LookupKeyIsMostSpecific(t, host);
    SteadyIndexIsExact(ops, n, Domain(e.domain));
    if Lookup(t, host) == Some(e) {
      var p := LookupKey(t, host).value;
      assert Owner(t, Domain(p)) == Some(t.byDomain[p]);
      assert e.domain == p;
      forall id | id in t.tunnels && t.tunnels[id].domain != [] && Matches(t.tunnels[id].domain, host)
        ensures id == e.id || MoreSpecific(e.domain, t.tunnels[id].domain, host)
      {
        assert Owner(t, Domain(t.tunnels[id].domain)) == Some(id);
      }
    }
    if BestLive(t, host, e) {
      assert Owner(t, Domain(e.domain)) == Some(e.id);
      var p := LookupKey(t, host).value;
      var id := t.byDomain[p];
      assert Owner(t, Domain(p)) == Some(id);
    }
  }

  /** Registering an id again under another key leaves the old key pointing at it. */
  lemma ReregistrationLeavesStaleKey<C>(c: C, d: C)
    ensures var ops := [Register(Entry([1], [120], 0, [], c)), Register(Entry([1], [121], 0, [], d))];
            var t := Run(ops, 2);
            Owner(t, Domain([120])) == Some([1]) && !Carries(t.tunnels[[1]], Domain([120]))
  {
    var ops := [Register(Entry([1], [120], 0, [], c)), Register(Entry([1], [121], 0, [], d))];
    assert Run(ops, 1) == Step(Run(ops, 0), ops[0]);
  }

  /** Unregistering a tunnel whose key another one took over removes the other's route. */
  lemma UnregisterDropsSuccessorsKey<C>(c: C, d: C)
    ensures var ops := [Register(Entry([1], [120], 0, [], c)), Register(Entry([2], [120], 0, [], d)), Unregister([1])];
            var t := Run(ops, 3);
            [2] in t.tunnels && Carries(t.tunnels[[2]], Domain([120])) && Owner(t, Domain([120])) == None
  {
    var ops := [Register(Entry([1], [120], 0, [], c)), Register(Entry([2], [120], 0, [], d)), Unregister([1])];
    assert Run(ops, 1) == Step(Run(ops, 0), ops[0]);
    assert Run(ops, 2) == Step(Run(ops, 1), ops[1]);
  }
}
