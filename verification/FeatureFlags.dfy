/** The feature-flag cache in front of its table, internal/featureflags/flags.go. */
module FeatureFlags {
  import opened Bytes

  datatype Flag = Flag(id: string, key: string, name: string, description: string, kind: string,
                       value: string, enabled: bool, created: int, updated: int)

  type Flags = map<string, Flag>

  /** The text a JSONB column gives back for a stored text; storing it again changes nothing more. */
  type Normal = string -> string

  ghost predicate IsNormal(norm: Normal) { forall s: string :: norm(norm(s)) == norm(s) }

  // ---- Database statements and the cache writes that follow them ----

  datatype CacheWrite = Put(key: string, flag: Flag) | Erase(key: string)

  datatype Op =
    | Create(flag: Flag, id: string, now: int)
    | Update(flag: Flag, now: int)
    | Delete(key: string)
    | Fill(key: string)

  datatype Effect = Effect(rows: Flags, write: Option<CacheWrite>)

  function Stored(norm: Normal, f: Flag): Flag { f.(value := norm(f.value)) }

  /** The statement an operation runs on the table, and what it will then write to the cache. */
  function Commit(norm: Normal, rows: Flags, cache: Flags, op: Op): Effect {
    match op
    case Create(f, id, now) =>
      if f.key in rows then Effect(rows, None)
      else
        var made := f.(id := id, created := now, updated := now);
        Effect(rows[f.key := Stored(norm, made)], Some(Put(f.key, made)))
    case Update(f, now) =>
      if f.key !in rows then Effect(rows, None)
      else
        var made := f.(id := rows[f.key].id, created := rows[f.key].created, updated := now);
        Effect(rows[f.key := Stored(norm, made)], Some(Put(f.key, made)))
    case Delete(key) => Effect(rows - {key}, Some(Erase(key)))
    case Fill(key) =>
      if key in cache || key !in rows then Effect(rows, None) else Effect(rows, Some(Put(key, rows[key])))
  }

  function Apply(cache: Flags, w: CacheWrite): Flags {
    match w
    case Put(key, f) => cache[key := f]
    case Erase(key) => cache - {key}
  }

  // ---- Agreement ----

  /** A cached flag and its row: equal but for the spelling of the JSON value. */
  ghost predicate Same(norm: Normal, cached: Flag, row: Flag) { Stored(norm, cached) == row }

  ghost predicate RowsOk(norm: Normal, rows: Flags) {
    forall k | k in rows :: rows[k].key == k && norm(rows[k].value) == rows[k].value
  }

  ghost predicate Agrees(norm: Normal, rows: Flags, cache: Flags) {
    RowsOk(norm, rows) && forall k | k in cache :: k in rows && Same(norm, cache[k], rows[k])
  }

  /** The cache holds every row and nothing else. */
  ghost predicate Mirrors(norm: Normal, rows: Flags, cache: Flags) {
    Agrees(norm, rows, cache) && cache.Keys == rows.Keys
  }

  datatype State = State(rows: Flags, cache: Flags, expiry: int)

  datatype Event = Do(op: Op) | Refresh(now: int)

  const FRESH := 5_000_000_000

  /** One call at a time, every statement succeeding. */
  function Step(norm: Normal, s: State, e: Event): State {
    match e
    case Do(op) =>
      var effect := Commit(norm, s.rows, s.cache, op);
      State(effect.rows, if effect.write.Some? then Apply(s.cache, effect.write.value) else s.cache, s.expiry)
    case Refresh(now) => State(s.rows, s.rows, now + FRESH)
  }

  function Run(norm: Normal, s: State, es: seq<Event>): State {
    if es == [] then s else Step(norm, Run(norm, s, es[..|es| - 1]), es[|es| - 1])
  }

  lemma StepKeepsAgreement(norm: Normal, s: State, e: Event)
    requires IsNormal(norm) && Agrees(norm, s.rows, s.cache)
    ensures Agrees(norm, Step(norm, s, e).rows, Step(norm, s, e).cache)
    ensures e.Refresh? || Mirrors(norm, s.rows, s.cache) ==> Mirrors(norm, Step(norm, s, e).rows, Step(norm, s, e).cache)
  {
    if e.Do? {
      var effect := Commit(norm, s.rows, s.cache, e.op);
      if effect.write.Some? {
        WriteKeepsAgreement(norm, s.rows, s.cache, e.op);
      }
    }
  }

  lemma WriteKeepsAgreement(norm: Normal, rows: Flags, cache: Flags, op: Op)
    requires IsNormal(norm) && Agrees(norm, rows, cache) && Commit(norm, rows, cache, op).write.Some?
    ensures var effect := Commit(norm, rows, cache, op);
            var after := Apply(cache, effect.write.value);
            Agrees(norm, effect.rows, after) && (cache.Keys == rows.Keys ==> after.Keys == effect.rows.Keys)
  {
    var effect := Commit(norm, rows, cache, op);
    if effect.write.value.Put? {
      var f := effect.write.value.flag;
      assert norm(norm(f.value)) == norm(f.value);
      assert effect.rows[effect.write.value.key] == Stored(norm, f);
    }
  }

  /**
   * Over every serial run from an empty cache, each cached flag agrees with its row; from the first refresh
   * on, which is when the expiry first moves, the cache holds exactly the table.
   */
  lemma {:induction false} SerialRunAgrees(norm: Normal, s: State, es: seq<Event>)
    requires IsNormal(norm) && Agrees(norm, s.rows, s.cache)
    ensures Agrees(norm, Run(norm, s, es).rows, Run(norm, s, es).cache)
    ensures Run(norm, s, es).expiry != s.expiry ==> Mirrors(norm, Run(norm, s, es).rows, Run(norm, s, es).cache)
    ensures Mirrors(norm, s.rows, s.cache) || (exists i | 0 <= i < |es| :: es[i].Refresh?)
            ==> Mirrors(norm, Run(norm, s, es).rows, Run(norm, s, es).cache)
  {
    if es != [] {
      var front := es[..|es| - 1];
      SerialRunAgrees(norm, s, front);
      StepKeepsAgreement(norm, Run(norm, s, front), es[|es| - 1]);
      if i :| 0 <= i < |es| && es[i].Refresh? && i < |es| - 1 {
        assert front[i].Refresh?;
      }
    }
  }

  /** Writing a flag through the manager, the cached text is the stored text exactly when it was already in the database's spelling. */
  lemma CachedTextIsRowIff(norm: Normal, s: State, op: Op)
    requires (op.Create? && op.flag.key !in s.rows) || (op.Update? && op.flag.key in s.rows)
    ensures var key, after := op.flag.key, Step(norm, s, Do(op));
            && key in after.cache && key in after.rows
            && (after.cache[key] == after.rows[key] <==> norm(op.flag.value) == op.flag.value)
  {
  }

  // ---- What callers see ----

  datatype Rule = Boolean(on: bool) | Percentage(percent: int) | Whitelist(orgs: seq<string>) | Undecodable

  /** JSON decoding by flag type, and the FNV hash of an organisation: taken as given. */
  datatype Oracle = Oracle(decode: (string, string) -> Rule, hash: string -> nat)

  /** Spelling does not matter to the decoder. */
  ghost predicate Insensitive(o: Oracle, norm: Normal) {
    forall kind: string, value: string :: o.decode(kind, norm(value)) == o.decode(kind, value)
  }

  function Bucketed(o: Oracle, org: string, percent: int): bool {
    if percent <= 0 then false else if percent >= 100 then true else o.hash(org) % 100 < percent
  }

  function Evaluate(o: Oracle, f: Flag, org: string): bool {
    f.enabled &&
    match o.decode(f.kind, f.value)
    case Boolean(on) => on
    case Percentage(p) => Bucketed(o, org, p)
    case Whitelist(orgs) => org in orgs
    case Undecodable => false
  }

  /** What each rule answers for an enabled flag; a disabled one is off. */
  lemma EvaluatesByRule(o: Oracle, f: Flag, org: string)
    ensures !f.enabled ==> !Evaluate(o, f, org)
    ensures f.enabled ==>
              match o.decode(f.kind, f.value)
              case Boolean(b) => Evaluate(o, f, org) == b
              case Percentage(p) =>
                Evaluate(o, f, org) == (p >= 100 || (p > 0 && o.hash(org) % 100 < p))
              case Whitelist(orgs) => Evaluate(o, f, org) <==> exists i :: 0 <= i < |orgs| && orgs[i] == org
              case Undecodable => !Evaluate(o, f, org)
  {
  }

  /** Raising the percentage of a rollout, with all else as it was, leaves on whoever was on. */
  lemma RolloutOnlyGrows(o: Oracle, f: Flag, g: Flag, p: int, q: int, org: string)
    requires o.decode(f.kind, f.value) == Percentage(p) && o.decode(g.kind, g.value) == Percentage(q)
    requires p <= q && f.enabled == g.enabled && Evaluate(o, f, org)
    ensures Evaluate(o, g, org)
  {
  }

  /** The hash buckets for which a rollout at `p` percent is on. */
  function BucketsOn(o: Oracle, f: Flag): set<nat> {
    set b: nat | b < 100 && OnInBucket(o, f, b)
  }

  predicate OnInBucket(o: Oracle, f: Flag, b: nat) { Evaluate(o.(hash := _ => b), f, "") }

  lemma {:induction false} CountBelow(s: set<nat>, n: nat)
    requires forall b: nat :: b in s <==> b < n
    ensures |s| == n
    decreases n
  {
    if n > 0 {
      CountBelow(s - {n - 1}, n - 1);
      assert s == (s - {n - 1}) + {n - 1};
    } else if b: nat :| b in s {
      assert false;
    }
  }

  /** A rollout at `p` percent is on in exactly `p` of the 100 buckets. */
  lemma RolloutShare(o: Oracle, f: Flag, p: int)
    requires f.enabled && o.decode(f.kind, f.value) == Percentage(p) && 0 <= p <= 100
    ensures |BucketsOn(o, f)| == p
  {
    forall b: nat ensures b in BucketsOn(o, f) <==> b < p {
      if b < 100 {
        EvaluatesByRule(o.(hash := _ => b), f, "");
      }
    }
    CountBelow(BucketsOn(o, f), p);
  }

  /** An organisation is on if and only if its bucket is. */
  lemma BucketDecides(o: Oracle, f: Flag, p: int, org: string)
    requires o.decode(f.kind, f.value) == Percentage(p)
    ensures Evaluate(o, f, org) <==> o.hash(org) % 100 in BucketsOn(o, f)
  {
    var b := o.hash(org) % 100;
    EvaluatesByRule(o, f, org);
    EvaluatesByRule(o.(hash := _ => b), f, "");
  }

  /** The flag a lookup works on: the cached one if there is one, else the row. */
  function Served(s: State, key: string): Option<Flag> {
    if key in s.cache then Some(s.cache[key]) else if key in s.rows then Some(s.rows[key]) else None
  }

  function Enabled(o: Oracle, s: State, key: string, org: string): bool {
    Served(s, key).Some? && Evaluate(o, Served(s, key).value, org)
  }

  function ListSource(s: State, now: int): Flags {
    if now < s.expiry && |s.cache| > 0 then s.cache else s.rows
  }

  class Manager {
    var rows: Flags
    var cache: Flags
    var expiry: int

    ghost function View(): State
      reads this
    {
      State(rows, cache, expiry)
    }

    constructor (table: Flags)
      ensures View() == State(table, map[], 0)
    {
      rows, cache, expiry := table, map[], 0;
    }

    method RefreshCache(now: int, ghost norm: Normal)
      modifies this`cache, this`expiry
      ensures View() == Step(norm, old(View()), Refresh(now))
      ensures rows == old(rows) && cache == rows && expiry == now + 5_000_000_000
    {
      var left := rows.Keys;
      cache := map[];
      while left != {}
        invariant left <= rows.Keys && cache.Keys == rows.Keys - left
        invariant forall k | k in cache :: cache[k] == rows[k]
        decreases |left|
      {
        var k :| k in left;
        cache := cache[k := rows[k]];
        left := left - {k};
      }
      assert cache.Keys == rows.Keys;
      assert cache == rows;
      expiry := now + FRESH;
    }

    method CreateFlag(norm: Normal, flag: Flag, id: string, now: int) returns (ok: bool)
      modifies this`rows, this`cache
      ensures ok == (flag.key !in old(rows))
      ensures View() == Step(norm, old(View()), Do(Create(flag, id, now)))
    {
      if flag.key in rows {
        return false;
      }
      var made := flag.(id := id, created := now, updated := now);
      rows := rows[flag.key := Stored(norm, made)];
      cache := cache[flag.key := made];
      return true;
    }

    method UpdateFlag(norm: Normal, flag: Flag, now: int)
      modifies this`rows, this`cache
      ensures View() == Step(norm, old(View()), Do(Update(flag, now)))
    {
      if flag.key !in rows {
        return;
      }
      rows := rows[flag.key := Stored(norm, flag.(id := rows[flag.key].id, created := rows[flag.key].created, updated := now))];
      var back := rows[flag.key];
      cache := cache[flag.key := flag.(id := back.id, created := back.created, updated := back.updated)];
    }

    method DeleteFlag(ghost norm: Normal, key: string)
      modifies this`rows, this`cache
      ensures View() == Step(norm, old(View()), Do(Delete(key)))
    {
      rows := rows - {key};
      cache := cache - {key};
    }

    /**
     * `IsEnabled`: evaluates the served flag, and caches the row it had to load. A missing or disabled flag, a value that
     * does not decode and an unknown type are off; otherwise the flag's rule decides.
     */
    method IsEnabled(o: Oracle, ghost norm: Normal, key: string, org: string) returns (on: bool)
      modifies this`cache
      ensures on == Enabled(o, old(View()), key, org)
      ensures View() == Step(norm, old(View()), Do(Fill(key)))
      ensures on ==> Served(old(View()), key).Some? && Served(old(View()), key).value.enabled
      ensures Served(old(View()), key).Some? && Served(old(View()), key).value.enabled ==>
                var f := Served(old(View()), key).value;
                match o.decode(f.kind, f.value)
                case Boolean(b) => on == b
                case Percentage(p) =>
                  if p <= 0 then !on else if p >= 100 then on else on == (o.hash(org) % 100 < p)
                case Whitelist(orgs) => on == (org in orgs)
                case Undecodable => !on
    {
      if key !in cache && key !in rows {
        return false;
      }
      if key !in cache {
        cache := cache[key := rows[key]];
      }
      var flag := cache[key];
      if !flag.enabled {
        return false;
      }
      match o.decode(flag.kind, flag.value) {
        case Boolean(b) =>
          return b;
        case Percentage(p) =>
          on := EvaluatePercentage(o, org, p);
        case Whitelist(orgs) =>
          for i := 0 to |orgs|
            invariant org !in orgs[..i]
          {
            if orgs[i] == org {
              return true;
            }
          }
          return false;
        case Undecodable =>
          return false;
      }
    }

    method EvaluatePercentage(o: Oracle, org: string, percentage: int) returns (on: bool)
      ensures on == (percentage >= 100 || (percentage > 0 && o.hash(org) % 100 < percentage))
    {
      if percentage <= 0 {
        return false;
      }
      if percentage >= 100 {
        return true;
      }
      var bucket := o.hash(org) % 100;
      return bucket < percentage;
    }

    method GetFlag(key: string) returns (f: Option<Flag>)
      ensures f == Served(View(), key)
    {
      if key in cache {
        return Some(cache[key]);
      }
      f := if key in rows then Some(rows[key]) else None;
    }

    /** `ListFlags`: the cache while it is fresh and not empty, the table otherwise; in some order. */
    method ListFlags(now: int) returns (fs: seq<Flag>)
      ensures |fs| == |ListSource(View(), now)|
      ensures forall k | k in ListSource(View(), now) :: ListSource(View(), now)[k] in fs
      ensures forall f | f in fs :: exists k | k in ListSource(View(), now) :: ListSource(View(), now)[k] == f
    {
      var source := if now < expiry && |cache| > 0 then cache else rows;
      assert |source.Keys| == |source|;
      fs := [];
      var left := source.Keys;
      while left != {}
        invariant left <= source.Keys && |fs| + |left| == |source|
        invariant forall k | k in source.Keys - left :: source[k] in fs
        invariant forall f | f in fs :: exists k | k in source :: source[k] == f
        decreases |left|
      {
        var k :| k in left;
        fs := fs + [source[k]];
        left := left - {k};
      }
    }
  }

  /** In an agreeing state the served flag is the row, up to the spelling of its value, and absent exactly when the row is. */
  lemma ServedAsTable(norm: Normal, s: State, key: string)
    requires IsNormal(norm) && Agrees(norm, s.rows, s.cache)
    ensures Served(s, key).Some? <==> key in s.rows
    ensures Served(s, key).Some? ==> Same(norm, Served(s, key).value, s.rows[key])
  {
  }

  /** In an agreeing state every flag is evaluated as the table alone would. */
  lemma EnabledAsTable(o: Oracle, norm: Normal, s: State, key: string, org: string)
    requires IsNormal(norm) && Insensitive(o, norm) && Agrees(norm, s.rows, s.cache)
    ensures Enabled(o, s, key, org) == (key in s.rows && Evaluate(o, s.rows[key], org))
  {
  }

  /**
   * The promise to callers: after any serial run from start-up, at any time that is not negative, flags are
   * evaluated as the table would and a listing has exactly the rows of the table.
   */
  lemma CallersSeeTheTable(o: Oracle, norm: Normal, table: Flags, es: seq<Event>, key: string, org: string, now: int)
    requires IsNormal(norm) && Insensitive(o, norm) && RowsOk(norm, table) && now >= 0
    ensures var s := Run(norm, State(table, map[], 0), es);
            && Enabled(o, s, key, org) == (key in s.rows && Evaluate(o, s.rows[key], org))
            && Mirrors(norm, s.rows, ListSource(s, now))
  {
    var s := Run(norm, State(table, map[], 0), es);
    SerialRunAgrees(norm, State(table, map[], 0), es);
    EnabledAsTable(o, norm, s, key, org);
  }

  // ---- Overlapping calls ----

  /**
   * `loaded` is a refresh between its query and its swap; `awaiting` are updates between their UPDATE and the SELECT that
   * reads the row back; `pending` are calls between their last statement and their cache write.
   */
  datatype Shared = Shared(rows: Flags, cache: Flags, loaded: Option<Flags>, awaiting: map<nat, Flag>,
                           pending: map<nat, CacheWrite>)

  datatype Action = Begin(call: nat, op: Op) | ReadBack(call: nat) | Finish(call: nat) | Load | Swap

  /** The first statement of a call; an evaluation that runs one has missed the cache some time before. */
  function Statement(norm: Normal, rows: Flags, op: Op): Effect { Commit(norm, rows, map[], op) }

  /** A flag with the id and the times of the row that was read back. */
  function Stamped(f: Flag, row: Flag): Flag { f.(id := row.id, created := row.created, updated := row.updated) }

  predicate Idle(s: Shared, call: nat) { call !in s.awaiting && call !in s.pending }

  function Interleave(norm: Normal, s: Shared, a: Action): Shared {
    match a
    case Begin(call, op) =>
      if !Idle(s, call) then s
      else
        var effect := Statement(norm, s.rows, op);
        if effect.write.None? then s
        else if op.Update? then s.(rows := effect.rows, awaiting := s.awaiting[call := op.flag])
        else s.(rows := effect.rows, pending := s.pending[call := effect.write.value])
    case ReadBack(call) =>
      if call !in s.awaiting then s
      else
        var f, left := s.awaiting[call], s.awaiting - {call};
        if f.key !in s.rows then s.(awaiting := left)
        else s.(awaiting := left, pending := s.pending[call := Put(f.key, Stamped(f, s.rows[f.key]))])
    case Finish(call) =>
      if call !in s.pending then s
      else s.(cache := Apply(s.cache, s.pending[call]), pending := s.pending - {call})
    case Load => s.(loaded := Some(s.rows))
    case Swap => if s.loaded.None? then s else s.(cache := s.loaded.value, loaded := None)
  }

  /** After its statements, with nothing in between, a call has changed the rows and has its cache write pending. */
  lemma StatementsSettle(norm: Normal, s: Shared, call: nat, op: Op)
    requires Idle(s, call)
    ensures var effect := Statement(norm, s.rows, op);
            Interleave(norm, Interleave(norm, s, Begin(call, op)), ReadBack(call))
            == if effect.write.None? then s
               else s.(rows := effect.rows, pending := s.pending[call := effect.write.value])
  {
    var begun := Interleave(norm, s, Begin(call, op));
    if op.Update? && op.flag.key in s.rows {
      assert begun.awaiting[call] == op.flag;
      assert begun.awaiting - {call} == s.awaiting;
    }
  }

  /** A call with nothing in between is the serial step; one that hits the cache runs no statement. */
  lemma AloneAsSerial(norm: Normal, s: Shared, call: nat, op: Op, expiry: int)
    requires Idle(s, call) && (op.Fill? ==> op.key !in s.cache)
    ensures var v := Interleave(norm, Interleave(norm, Interleave(norm, s, Begin(call, op)), ReadBack(call)), Finish(call));
            && State(v.rows, v.cache, expiry) == Step(norm, State(s.rows, s.cache, expiry), Do(op))
            && v.awaiting == s.awaiting && v.pending == s.pending && v.loaded == s.loaded
  {
    StatementsSettle(norm, s, call, op);
    var effect := Statement(norm, s.rows, op);
    assert effect == Commit(norm, s.rows, s.cache, op);
    if effect.write.Some? {
      assert s.pending[call := effect.write.value] - {call} == s.pending;
    }
  }

  /** The state after the first `n` actions of an interleaving that starts with an empty cache. */
  function After(norm: Normal, table: Flags, actions: seq<Action>, n: nat): Shared
    requires n <= |actions|
  {
    if n == 0 then Shared(table, map[], None, map[], map[])
    else Interleave(norm, After(norm, table, actions, n - 1), actions[n - 1])
  }

  function Entry(m: Flags, key: string): Option<Flag> { if key in m then Some(m[key]) else None }

  /** Row `key` after the first `n` actions. */
  function RowAt(norm: Normal, table: Flags, actions: seq<Action>, n: nat, key: string): Option<Flag>
    requires n <= |actions|
  {
    Entry(After(norm, table, actions, n).rows, key)
  }

  /** The cache says of a key what the row says, up to the spelling of its value. */
  ghost predicate Tells(norm: Normal, cached: Option<Flag>, row: Option<Flag>) {
    cached.Some? == row.Some? && (cached.Some? ==> Same(norm, cached.value, row.value))
  }

  lemma InterleaveKeepsRowsOk(norm: Normal, s: Shared, a: Action)
    requires IsNormal(norm) && RowsOk(norm, s.rows)
    ensures RowsOk(norm, Interleave(norm, s, a).rows)
  {
  }

  lemma {:induction false} RowsStayOk(norm: Normal, table: Flags, actions: seq<Action>, n: nat)
    requires IsNormal(norm) && RowsOk(norm, table) && n <= |actions|
    ensures RowsOk(norm, After(norm, table, actions, n).rows)
  {
    if n > 0 {
      RowsStayOk(norm, table, actions, n - 1);
      InterleaveKeepsRowsOk(norm, After(norm, table, actions, n - 1), actions[n - 1]);
    }
  }

  // ---- Updates that have not read their row back ----

  /** Action `u` ran the UPDATE of `call`, with the content of `f`, on a row that was there. */
  ghost predicate Updated(norm: Normal, table: Flags, actions: seq<Action>, u: nat, call: nat, f: Flag) {
    && u < |actions| && actions[u].Begin? && actions[u].call == call && actions[u].op.Update? && actions[u].op.flag == f
    && Idle(After(norm, table, actions, u), call) && f.key in After(norm, table, actions, u).rows
  }

  /** After `n` actions `call` has yet to read back the row it updated as action `u`. */
  ghost predicate AwaitedSince(norm: Normal, table: Flags, actions: seq<Action>, n: nat, call: nat, f: Flag, u: nat)
    requires n <= |actions|
  {
    u < n && Updated(norm, table, actions, u, call, f) && forall j | u < j < n :: actions[j] != ReadBack(call)
  }

  ghost predicate Awaited(norm: Normal, table: Flags, actions: seq<Action>, n: nat, call: nat, f: Flag)
    requires n <= |actions|
  {
    var awaiting := After(norm, table, actions, n).awaiting;
    call in awaiting && awaiting[call] == f
  }

  lemma AwaitedStep(norm: Normal, table: Flags, actions: seq<Action>, n: nat, call: nat, f: Flag)
    requires n < |actions|
    ensures Awaited(norm, table, actions, n + 1, call, f)
            <==> Updated(norm, table, actions, n, call, f)
                 || (Awaited(norm, table, actions, n, call, f) && actions[n] != ReadBack(call))
  {
  }

  lemma AwaitedSinceStep(norm: Normal, table: Flags, actions: seq<Action>, n: nat, call: nat, f: Flag, u: nat)
    requires n < |actions|
    ensures AwaitedSince(norm, table, actions, n + 1, call, f, u)
            <==> (u == n && Updated(norm, table, actions, n, call, f))
                 || (AwaitedSince(norm, table, actions, n, call, f, u) && actions[n] != ReadBack(call))
  {
  }

  /** An update has its row to read back exactly when its UPDATE ran and no read-back of the call came since. */
  lemma {:induction false} AwaitedIff(norm: Normal, table: Flags, actions: seq<Action>, n: nat, call: nat, f: Flag)
    requires n <= |actions|
    ensures Awaited(norm, table, actions, n, call, f)
            <==> exists u: nat :: AwaitedSince(norm, table, actions, n, call, f, u)
  {
    if n > 0 {
      var m := n - 1;
      AwaitedIff(norm, table, actions, m, call, f);
      AwaitedStep(norm, table, actions, m, call, f);
      if u: nat :| AwaitedSince(norm, table, actions, n, call, f, u) {
        AwaitedSinceStep(norm, table, actions, m, call, f, u);
      }
      if Updated(norm, table, actions, m, call, f) {
        AwaitedSinceStep(norm, table, actions, m, call, f, m);
      } else if u: nat :| AwaitedSince(norm, table, actions, m, call, f, u) {
        AwaitedSinceStep(norm, table, actions, m, call, f, u);
      }
    }
  }

  // ---- Cache writes that are due ----

  /** Action `r`, the last statement of `call`, settles that the call will write `write` to the cache. */
  ghost predicate Issued(norm: Normal, table: Flags, actions: seq<Action>, r: nat, call: nat, write: CacheWrite) {
    r < |actions| &&
    var s := After(norm, table, actions, r);
    match actions[r]
    case Begin(c, op) => c == call && Idle(s, call) && !op.Update? && Statement(norm, s.rows, op).write == Some(write)
    case ReadBack(c) =>
      && c == call && call in s.awaiting && s.awaiting[call].key in s.rows
      && write == Put(s.awaiting[call].key, Stamped(s.awaiting[call], s.rows[s.awaiting[call].key]))
    case _ => false
  }

  /** The cache write of `call` that is due after `n` actions was settled by action `r`. */
  ghost predicate DueSince(norm: Normal, table: Flags, actions: seq<Action>, n: nat, call: nat, write: CacheWrite, r: nat)
    requires n <= |actions|
  {
    r < n && Issued(norm, table, actions, r, call, write) && forall j | r < j < n :: actions[j] != Finish(call)
  }

  ghost predicate Due(norm: Normal, table: Flags, actions: seq<Action>, n: nat, call: nat, write: CacheWrite)
    requires n <= |actions|
  {
    var pending := After(norm, table, actions, n).pending;
    call in pending && pending[call] == write
  }

  lemma InterleaveKeepsApart(norm: Normal, s: Shared, a: Action)
    requires s.awaiting.Keys !! s.pending.Keys
    ensures Interleave(norm, s, a).awaiting.Keys !! Interleave(norm, s, a).pending.Keys
  {
  }

  lemma {:induction false} NeverBoth(norm: Normal, table: Flags, actions: seq<Action>, n: nat)
    requires n <= |actions|
    ensures After(norm, table, actions, n).awaiting.Keys !! After(norm, table, actions, n).pending.Keys
  {
    if n > 0 {
      NeverBoth(norm, table, actions, n - 1);
      InterleaveKeepsApart(norm, After(norm, table, actions, n - 1), actions[n - 1]);
    }
  }

  lemma DueStep(norm: Normal, table: Flags, actions: seq<Action>, n: nat, call: nat, write: CacheWrite)
    requires n < |actions|
    ensures Due(norm, table, actions, n + 1, call, write)
            <==> Issued(norm, table, actions, n, call, write)
                 || (Due(norm, table, actions, n, call, write) && actions[n] != Finish(call))
  {
    NeverBoth(norm, table, actions, n);
  }

  lemma DueSinceStep(norm: Normal, table: Flags, actions: seq<Action>, n: nat, call: nat, write: CacheWrite, r: nat)
    requires n < |actions|
    ensures DueSince(norm, table, actions, n + 1, call, write, r)
            <==> (r == n && Issued(norm, table, actions, n, call, write))
                 || (DueSince(norm, table, actions, n, call, write, r) && actions[n] != Finish(call))
  {
  }

  /** A cache write is due exactly when the last statement of a call settled it and the call has not finished since. */
  lemma {:induction false} DueIff(norm: Normal, table: Flags, actions: seq<Action>, n: nat, call: nat, write: CacheWrite)
    requires n <= |actions|
    ensures Due(norm, table, actions, n, call, write)
            <==> exists r: nat :: DueSince(norm, table, actions, n, call, write, r)
  {
    if n > 0 {
      var m := n - 1;
      DueIff(norm, table, actions, m, call, write);
      DueStep(norm, table, actions, m, call, write);
      if r: nat :| DueSince(norm, table, actions, n, call, write, r) {
        DueSinceStep(norm, table, actions, m, call, write, r);
      }
      if Issued(norm, table, actions, m, call, write) {
        DueSinceStep(norm, table, actions, m, call, write, m);
      } else if r: nat :| DueSince(norm, table, actions, m, call, write, r) {
        DueSinceStep(norm, table, actions, m, call, write, r);
      }
    }
  }

  // ---- Refreshes ----

  /** The refresh under way after `n` actions ran its query as action `r`. */
  ghost predicate LoadedSince(actions: seq<Action>, n: nat, r: nat)
    requires n <= |actions|
  {
    r < n && actions[r] == Load && forall j | r < j < n :: actions[j] != Load && actions[j] != Swap
  }

  lemma LoadedSinceStep(actions: seq<Action>, n: nat, r: nat)
    requires n < |actions|
    ensures LoadedSince(actions, n + 1, r)
            <==> (r == n && actions[n] == Load) || (LoadedSince(actions, n, r) && actions[n] != Load && actions[n] != Swap)
  {
  }

  lemma LoadedStep(norm: Normal, table: Flags, actions: seq<Action>, n: nat)
    requires n < |actions|
    ensures var s := After(norm, table, actions, n);
            After(norm, table, actions, n + 1).loaded
            == if actions[n] == Load then Some(s.rows) else if actions[n] == Swap then None else s.loaded
  {
  }

  lemma {:induction false} LoadedIff(norm: Normal, table: Flags, actions: seq<Action>, n: nat)
    requires n <= |actions|
    ensures After(norm, table, actions, n).loaded.Some? <==> exists r: nat :: LoadedSince(actions, n, r)
    ensures forall r: nat | LoadedSince(actions, n, r) ::
              After(norm, table, actions, n).loaded == Some(After(norm, table, actions, r).rows)
  {
    if n > 0 {
      var m := n - 1;
      LoadedIff(norm, table, actions, m);
      LoadedStep(norm, table, actions, m);
      forall r: nat
        ensures LoadedSince(actions, n, r)
                <==> (r == m && actions[m] == Load) || (LoadedSince(actions, m, r) && actions[m] != Load && actions[m] != Swap)
      {
        LoadedSinceStep(actions, m, r);
      }
      assert actions[m] == Load ==> LoadedSince(actions, n, m);
    }
  }

  // ---- Where a cached flag comes from ----

  /** The statement behind what action `r` settled for `call`: the UPDATE when `r` is its read-back, else `r` itself. */
  ghost predicate StatementOf(norm: Normal, table: Flags, actions: seq<Action>, r: nat, call: nat, u: nat)
    requires r < |actions|
  {
    if actions[r].ReadBack? then exists f: Flag :: AwaitedSince(norm, table, actions, r, call, f, u) else u == r
  }

  /**
   * Action `w` writes `key` to the cache. What it writes was settled by action `r`, a call's last statement or a
   * refresh's query, and stems from statement or query `u`, which differs from `r` for updates alone.
   */
  ghost predicate WritesFrom(norm: Normal, table: Flags, actions: seq<Action>, w: nat, key: string, u: nat, r: nat)
    requires w < |actions|
  {
    match actions[w]
    case Finish(call) =>
      exists write: CacheWrite ::
        write.key == key && DueSince(norm, table, actions, w, call, write, r) && StatementOf(norm, table, actions, r, call, u)
    case Swap => LoadedSince(actions, w, r) && u == r
    case _ => false
  }

  /** Of the first `n` actions, `w` was the last to write `key` to the cache, from `u` by way of `r`. */
  ghost predicate LastWrite(norm: Normal, table: Flags, actions: seq<Action>, n: nat, key: string, w: nat, u: nat, r: nat)
    requires n <= |actions|
  {
    && w < n && WritesFrom(norm, table, actions, w, key, u, r)
    && forall j, v: nat, q: nat | w < j < n :: !WritesFrom(norm, table, actions, j, key, v, q)
  }

  /**
   * What a write from `u` by way of `r` takes the row to be: the row right after `r`, or for an update the content it
   * stored as `u` under the id and times it read back as `r`.
   */
  function Told(norm: Normal, table: Flags, actions: seq<Action>, key: string, u: nat, r: nat): Option<Flag>
    requires u < |actions| && r < |actions|
  {
    var row := RowAt(norm, table, actions, r + 1, key);
    if actions[r].ReadBack? && actions[u].Begin? && actions[u].op.Update? && row.Some?
    then Some(Stored(norm, Stamped(actions[u].op.flag, row.value)))
    else row
  }

  lemma BegunTellsRow(norm: Normal, table: Flags, actions: seq<Action>, r: nat, call: nat, write: CacheWrite, cache: Flags)
    requires IsNormal(norm) && RowsOk(norm, table) && Issued(norm, table, actions, r, call, write) && actions[r].Begin?
    ensures Tells(norm, Entry(Apply(cache, write), write.key), RowAt(norm, table, actions, r + 1, write.key))
  {
    RowsStayOk(norm, table, actions, r);
  }

  lemma ReadBackTellsContent(norm: Normal, table: Flags, actions: seq<Action>, r: nat, call: nat, write: CacheWrite,
                             cache: Flags, u: nat)
    requires Issued(norm, table, actions, r, call, write) && actions[r].ReadBack?
    requires StatementOf(norm, table, actions, r, call, u)
    ensures u < r && Tells(norm, Entry(Apply(cache, write), write.key), Told(norm, table, actions, write.key, u, r))
  {
    var f: Flag :| AwaitedSince(norm, table, actions, r, call, f, u);
    AwaitedIff(norm, table, actions, r, call, f);
    assert After(norm, table, actions, r + 1).rows == After(norm, table, actions, r).rows;
  }

  /** An action that writes a key leaves the cache saying of it what its origin took the row to be. */
  lemma WriteTellsOrigin(norm: Normal, table: Flags, actions: seq<Action>, w: nat, key: string, u: nat, r: nat)
    requires IsNormal(norm) && RowsOk(norm, table) && w < |actions| && WritesFrom(norm, table, actions, w, key, u, r)
    ensures u <= r < w
    ensures Tells(norm, Entry(After(norm, table, actions, w + 1).cache, key), Told(norm, table, actions, key, u, r))
  {
    var s := After(norm, table, actions, w);
    match actions[w]
    case Finish(call) =>
      var write: CacheWrite :|
        write.key == key && DueSince(norm, table, actions, w, call, write, r) && StatementOf(norm, table, actions, r, call, u);
      DueIff(norm, table, actions, w, call, write);
      if actions[r].ReadBack? {
        ReadBackTellsContent(norm, table, actions, r, call, write, s.cache, u);
      } else {
        BegunTellsRow(norm, table, actions, r, call, write, s.cache);
      }
    case Swap =>
      LoadedIff(norm, table, actions, w);
      RowsStayOk(norm, table, actions, r);
  }

  lemma DueHasStatement(norm: Normal, table: Flags, actions: seq<Action>, n: nat, call: nat, write: CacheWrite, r: nat)
    returns (u: nat)
    requires n <= |actions| && DueSince(norm, table, actions, n, call, write, r)
    ensures StatementOf(norm, table, actions, r, call, u)
  {
    u := r;
    if actions[r].ReadBack? {
      var f := After(norm, table, actions, r).awaiting[call];
      AwaitedIff(norm, table, actions, r, call, f);
      u :| AwaitedSince(norm, table, actions, r, call, f, u);
    }
  }

  /** An action that writes a key from nothing leaves it alone. */
  lemma OthersKeepEntry(norm: Normal, table: Flags, actions: seq<Action>, w: nat, key: string)
    requires w < |actions| && forall u: nat, r: nat :: !WritesFrom(norm, table, actions, w, key, u, r)
    ensures Entry(After(norm, table, actions, w + 1).cache, key) == Entry(After(norm, table, actions, w).cache, key)
  {
    var s := After(norm, table, actions, w);
    match actions[w]
    case Finish(call) =>
      if call in s.pending {
        var write := s.pending[call];
        DueIff(norm, table, actions, w, call, write);
        var r: nat :| DueSince(norm, table, actions, w, call, write, r);
        var u := DueHasStatement(norm, table, actions, w, call, write, r);
        assert write.key == key ==> WritesFrom(norm, table, actions, w, key, u, r);
      }
    case Swap =>
      LoadedIff(norm, table, actions, w);
      if s.loaded.Some? {
        var r: nat :| LoadedSince(actions, w, r);
        assert WritesFrom(norm, table, actions, w, key, r, r);
      }
    case _ =>
  }

  lemma LastWriteStep(norm: Normal, table: Flags, actions: seq<Action>, n: nat, key: string, w: nat, u: nat, r: nat)
    requires n < |actions| && forall v: nat, q: nat :: !WritesFrom(norm, table, actions, n, key, v, q)
    ensures LastWrite(norm, table, actions, n, key, w, u, r) <==> LastWrite(norm, table, actions, n + 1, key, w, u, r)
  {
  }

  /**
   * Over every interleaving the cache says of a key what the origin of its last write took the row to be; a key never
   * written is not cached.
   */
  lemma {:induction false} CacheTellsLastWrite(norm: Normal, table: Flags, actions: seq<Action>, n: nat, key: string)
    requires IsNormal(norm) && RowsOk(norm, table) && n <= |actions|
    ensures key in After(norm, table, actions, n).cache ==>
              exists w: nat, u: nat, r: nat :: LastWrite(norm, table, actions, n, key, w, u, r)
    ensures forall w: nat, u: nat, r: nat | LastWrite(norm, table, actions, n, key, w, u, r) ::
              u <= r < w && Tells(norm, Entry(After(norm, table, actions, n).cache, key), Told(norm, table, actions, key, u, r))
  {
    if n > 0 {
      var m := n - 1;
      if u: nat, r: nat :| WritesFrom(norm, table, actions, m, key, u, r) {
        assert LastWrite(norm, table, actions, n, key, m, u, r);
        forall w: nat, v: nat, q: nat | LastWrite(norm, table, actions, n, key, w, v, q)
          ensures v <= q < w
          ensures Tells(norm, Entry(After(norm, table, actions, n).cache, key), Told(norm, table, actions, key, v, q))
        {
          assert w == m;
          WriteTellsOrigin(norm, table, actions, m, key, v, q);
        }
      } else {
        CacheTellsLastWrite(norm, table, actions, m, key);
        OthersKeepEntry(norm, table, actions, m, key);
        forall w: nat, u: nat, r: nat
          ensures LastWrite(norm, table, actions, m, key, w, u, r) <==> LastWrite(norm, table, actions, n, key, w, u, r)
        {
          LastWriteStep(norm, table, actions, m, key, w, u, r);
        }
      }
    }
  }

  /**
   * The rule for one key, at every point of every interleaving: cache and row agree if and only if the row is what the
   * origin of the key's last cache write took it to be.
   */
  lemma KeyAgreesIff(norm: Normal, table: Flags, actions: seq<Action>, n: nat, key: string, w: nat, u: nat, r: nat)
    requires IsNormal(norm) && RowsOk(norm, table) && n <= |actions| && LastWrite(norm, table, actions, n, key, w, u, r)
    ensures u <= r < w
    ensures Tells(norm, Entry(After(norm, table, actions, n).cache, key), RowAt(norm, table, actions, n, key))
            <==> RowAt(norm, table, actions, n, key) == Told(norm, table, actions, key, u, r)
  {
    CacheTellsLastWrite(norm, table, actions, n, key);
  }

  /** The action runs a statement that may change row `key`. */
  predicate Concerns(a: Action, key: string) {
    a.Begin? && match a.op
                case Create(f, _, _) => f.key == key
                case Update(f, _) => f.key == key
                case Delete(k) => k == key
                case Fill(_) => false
  }

  lemma InterleaveKeepsRow(norm: Normal, s: Shared, a: Action, key: string)
    requires !Concerns(a, key)
    ensures Entry(Interleave(norm, s, a).rows, key) == Entry(s.rows, key)
  {
  }

  lemma {:induction false} RowStays(norm: Normal, table: Flags, actions: seq<Action>, i: nat, n: nat, key: string)
    requires i <= n <= |actions| && forall j | i <= j < n :: !Concerns(actions[j], key)
    ensures RowAt(norm, table, actions, n, key) == RowAt(norm, table, actions, i, key)
  {
    if i < n {
      RowStays(norm, table, actions, i, n - 1, key);
      InterleaveKeepsRow(norm, After(norm, table, actions, n - 1), actions[n - 1], key);
    }
  }

  /** Right after an UPDATE the row is the update's content under the row's own stamps. */
  lemma UpdatedRow(norm: Normal, table: Flags, actions: seq<Action>, u: nat, call: nat, f: Flag)
    requires Updated(norm, table, actions, u, call, f)
    ensures var row := RowAt(norm, table, actions, u + 1, f.key);
            row.Some? && row.value == Stored(norm, Stamped(f, row.value))
  {
  }

  lemma OriginKey(norm: Normal, table: Flags, actions: seq<Action>, w: nat, key: string, u: nat, r: nat) returns (f: Flag, call: nat)
    requires w < |actions| && WritesFrom(norm, table, actions, w, key, u, r) && r < |actions| && actions[r].ReadBack?
    ensures Updated(norm, table, actions, u, call, f) && f.key == key && u < r
  {
    call := actions[w].call;
    var write: CacheWrite :|
      write.key == key && DueSince(norm, table, actions, w, call, write, r) && StatementOf(norm, table, actions, r, call, u);
    f :| AwaitedSince(norm, table, actions, r, call, f, u);
    AwaitedIff(norm, table, actions, r, call, f);
  }

  lemma UnchangedIsTold(norm: Normal, table: Flags, actions: seq<Action>, w: nat, key: string, u: nat, r: nat)
    requires w < |actions| && WritesFrom(norm, table, actions, w, key, u, r) && u <= r < w
    requires RowAt(norm, table, actions, r + 1, key) == RowAt(norm, table, actions, u + 1, key)
    ensures Told(norm, table, actions, key, u, r) == RowAt(norm, table, actions, u + 1, key)
  {
    if actions[r].ReadBack? {
      var f, call := OriginKey(norm, table, actions, w, key, u, r);
      UpdatedRow(norm, table, actions, u, call, f);
    }
  }

  lemma RowStaysPast(norm: Normal, table: Flags, actions: seq<Action>, u: nat, r: nat, n: nat, key: string)
    requires u <= r < n <= |actions| && forall j | u < j < n :: !Concerns(actions[j], key)
    ensures RowAt(norm, table, actions, n, key) == RowAt(norm, table, actions, u + 1, key)
    ensures RowAt(norm, table, actions, r + 1, key) == RowAt(norm, table, actions, u + 1, key)
  {
    RowStays(norm, table, actions, u + 1, n, key);
    RowStays(norm, table, actions, u + 1, r + 1, key);
  }

  /** So they agree whenever no statement on the key ran after the one that its last cache write stems from. */
  lemma FreshWriteAgrees(norm: Normal, table: Flags, actions: seq<Action>, n: nat, key: string, w: nat, u: nat, r: nat)
    requires IsNormal(norm) && RowsOk(norm, table) && n <= |actions| && LastWrite(norm, table, actions, n, key, w, u, r)
    requires forall j | u < j < n :: !Concerns(actions[j], key)
    ensures Tells(norm, Entry(After(norm, table, actions, n).cache, key), RowAt(norm, table, actions, n, key))
  {
    KeyAgreesIff(norm, table, actions, n, key, w, u, r);
    RowStaysPast(norm, table, actions, u, r, n, key);
    UnchangedIsTold(norm, table, actions, w, key, u, r);
  }

  /** A cached key whose row is not what the origin of its last cache write took it to be. */
  ghost predicate Outdated(norm: Normal, table: Flags, actions: seq<Action>, n: nat, key: string, w: nat, u: nat, r: nat)
    requires n <= |actions|
  {
    && LastWrite(norm, table, actions, n, key, w, u, r) && u < n && r < n && Told(norm, table, actions, key, u, r).Some?
    && RowAt(norm, table, actions, n, key) != Told(norm, table, actions, key, u, r)
  }

  /** The rule for the whole cache: every cached flag agrees with its row if and only if no key is outdated. */
  lemma OverlapAgreesIff(norm: Normal, table: Flags, actions: seq<Action>, n: nat)
    requires IsNormal(norm) && RowsOk(norm, table) && n <= |actions|
    ensures var s := After(norm, table, actions, n);
            Agrees(norm, s.rows, s.cache)
            <==> !exists key: string, w: nat, u: nat, r: nat :: Outdated(norm, table, actions, n, key, w, u, r)
  {
    var s := After(norm, table, actions, n);
    RowsStayOk(norm, table, actions, n);
    forall key: string, w: nat, u: nat, r: nat
      | Agrees(norm, s.rows, s.cache) && LastWrite(norm, table, actions, n, key, w, u, r)
      ensures !Outdated(norm, table, actions, n, key, w, u, r)
    {
      CacheTellsLastWrite(norm, table, actions, n, key);
      KeyAgreesIff(norm, table, actions, n, key, w, u, r);
    }
    if !exists key: string, w: nat, u: nat, r: nat :: Outdated(norm, table, actions, n, key, w, u, r) {
      forall key | key in s.cache ensures key in s.rows && Same(norm, s.cache[key], s.rows[key]) {
        CacheTellsLastWrite(norm, table, actions, n, key);
        var w: nat, u: nat, r: nat :| LastWrite(norm, table, actions, n, key, w, u, r);
        KeyAgreesIff(norm, table, actions, n, key, w, u, r);
        assert !Outdated(norm, table, actions, n, key, w, u, r);
      }
    }
  }

  // ---- Concrete overlaps ----

  lemma AfterNext(norm: Normal, table: Flags, actions: seq<Action>, n: nat, s: Shared)
    requires n < |actions| && After(norm, table, actions, n) == s
    ensures After(norm, table, actions, n + 1) == Interleave(norm, s, actions[n])
  {
  }

  /** Two updates of one flag up to their cache writes, with or without a whole refresh after them. */
  function CrossingUpdates(f: Flag, g: Flag, refreshed: bool): seq<Action> {
    [Begin(0, Update(f, 1)), ReadBack(0), Begin(1, Update(g, 2)), ReadBack(1)]
    + (if refreshed then [Load, Swap] else []) + [Finish(1), Finish(0)]
  }

  /**
   * Two updates of one flag whose cache writes come in the other order than their statements: with nothing in flight
   * any more the cache serves the first and the row holds the second, even if a whole refresh ran in between.
   */
  lemma CrossingUpdatesDisagree(norm: Normal, row: Flag, f: Flag, g: Flag, refreshed: bool)
    requires f.key == row.key && g.key == row.key
    ensures var actions := CrossingUpdates(f, g, refreshed);
            var s := After(norm, map[row.key := row], actions, |actions|);
            && s.awaiting == map[] && s.pending == map[] && s.loaded == None && row.key in s.cache && row.key in s.rows
            && s.cache[row.key].value == f.value && s.rows[row.key].value == norm(g.value)
            && !Same(norm, s.cache[row.key], s.rows[row.key])
  {
    var actions, table, key := CrossingUpdates(f, g, refreshed), map[row.key := row], row.key;
    var first, second := Stamped(f, row).(updated := 1), Stamped(g, row).(updated := 2);
    var s4 := BothSettled(norm, key, first, second);
    CrossingSettles(norm, row, f, g, actions);
    var n := |actions|;
    if refreshed {
      AfterNext(norm, table, actions, 4, s4);
      AfterNext(norm, table, actions, 5, Interleave(norm, s4, Load));
    }
    var s6 := if refreshed then Interleave(norm, Interleave(norm, s4, Load), Swap) else s4;
    AfterNext(norm, table, actions, n - 2, s6);
    AfterNext(norm, table, actions, n - 1, Interleave(norm, s6, Finish(1)));
    CrossingWrites(norm, key, first, second, refreshed);
  }

  /** Both updates have run their statements and are about to write the cache. */
  function BothSettled(norm: Normal, key: string, first: Flag, second: Flag): Shared {
    Shared(map[key := Stored(norm, second)], map[], None, map[], map[0 := Put(key, first), 1 := Put(key, second)])
  }

  lemma CrossingSettles(norm: Normal, row: Flag, f: Flag, g: Flag, actions: seq<Action>)
    requires f.key == row.key && g.key == row.key && |actions| >= 4
    requires actions[0] == Begin(0, Update(f, 1)) && actions[1] == ReadBack(0)
    requires actions[2] == Begin(1, Update(g, 2)) && actions[3] == ReadBack(1)
    ensures After(norm, map[row.key := row], actions, 4)
            == BothSettled(norm, row.key, Stamped(f, row).(updated := 1), Stamped(g, row).(updated := 2))
  {
    var table, key, first := map[row.key := row], row.key, Stamped(f, row).(updated := 1);
    var s0 := Shared(table, map[], None, map[], map[]);
    var s2 := Shared(map[key := Stored(norm, first)], map[], None, map[], map[0 := Put(key, first)]);
    StatementsSettle(norm, s0, 0, Update(f, 1));
    StatementsSettle(norm, s2, 1, Update(g, 2));
    AfterNext(norm, table, actions, 0, s0);
    AfterNext(norm, table, actions, 1, Interleave(norm, s0, actions[0]));
    AfterNext(norm, table, actions, 2, s2);
    AfterNext(norm, table, actions, 3, Interleave(norm, s2, actions[2]));
  }

  lemma CrossingWrites(norm: Normal, key: string, first: Flag, second: Flag, refreshed: bool)
    ensures var s4 := BothSettled(norm, key, first, second);
            var s6 := if refreshed then Interleave(norm, Interleave(norm, s4, Load), Swap) else s4;
            Interleave(norm, Interleave(norm, s6, Finish(1)), Finish(0))
            == Shared(s4.rows, map[key := first], None, map[], map[])
  {
  }

  /**
   * Two updates that read back after both UPDATEs have run: the cache ends with the content of the first under the
   * stamps of the second, which is what the row says if and only if the two have the same content.
   */
  lemma CrossedReadBackAgreesIff(norm: Normal, row: Flag, f: Flag, g: Flag)
    requires f.key == row.key && g.key == row.key
    ensures var actions := [Begin(0, Update(f, 1)), Begin(1, Update(g, 2)), ReadBack(0), ReadBack(1), Finish(1), Finish(0)];
            var s := After(norm, map[row.key := row], actions, 6);
            && s.awaiting == map[] && s.pending == map[] && s.loaded == None
            && s.cache == map[row.key := Stamped(f, row).(updated := 2)]
            && s.rows == map[row.key := Stored(norm, Stamped(g, row).(updated := 2))]
            && (Same(norm, s.cache[row.key], s.rows[row.key]) <==> Stored(norm, Stamped(f, row)) == Stored(norm, Stamped(g, row)))
  {
    var actions := [Begin(0, Update(f, 1)), Begin(1, Update(g, 2)), ReadBack(0), ReadBack(1), Finish(1), Finish(0)];
    var table, key := map[row.key := row], row.key;
    var first, mixed, second := Stamped(f, row).(updated := 1), Stamped(f, row).(updated := 2), Stamped(g, row).(updated := 2);
    var s1 := Shared(map[key := Stored(norm, first)], map[], None, map[0 := f], map[]);
    var s2 := Shared(map[key := Stored(norm, second)], map[], None, map[0 := f, 1 := g], map[]);
    var s3 := Shared(s2.rows, map[], None, map[1 := g], map[0 := Put(key, mixed)]);
    var s4 := Shared(s2.rows, map[], None, map[], map[0 := Put(key, mixed), 1 := Put(key, second)]);
    var s5 := Shared(s2.rows, map[key := second], None, map[], map[0 := Put(key, mixed)]);
    CrossedStates(norm, row, f, g);
    CrossedWrites(norm, key, g, mixed, second);
    AfterNext(norm, table, actions, 0, Shared(table, map[], None, map[], map[]));
    AfterNext(norm, table, actions, 1, s1);
    AfterNext(norm, table, actions, 2, s2);
    AfterNext(norm, table, actions, 3, s3);
    AfterNext(norm, table, actions, 4, s4);
    AfterNext(norm, table, actions, 5, s5);
  }

  lemma CrossedStates(norm: Normal, row: Flag, f: Flag, g: Flag)
    requires f.key == row.key && g.key == row.key
    ensures var key, mixed, second := row.key, Stamped(f, row).(updated := 2), Stamped(g, row).(updated := 2);
            var s0 := Shared(map[key := row], map[], None, map[], map[]);
            var s1 := Shared(map[key := Stored(norm, Stamped(f, row).(updated := 1))], map[], None, map[0 := f], map[]);
            var s2 := Shared(map[key := Stored(norm, second)], map[], None, map[0 := f, 1 := g], map[]);
            var s3 := Shared(s2.rows, map[], None, map[1 := g], map[0 := Put(key, mixed)]);
            && Interleave(norm, s0, Begin(0, Update(f, 1))) == s1 && Interleave(norm, s1, Begin(1, Update(g, 2))) == s2
            && Interleave(norm, s2, ReadBack(0)) == s3
  {
  }

  lemma CrossedWrites(norm: Normal, key: string, g: Flag, mixed: Flag, second: Flag)
    requires g.key == key && Stamped(g, second) == second
    ensures var s3 := Shared(map[key := Stored(norm, second)], map[], None, map[1 := g], map[0 := Put(key, mixed)]);
            var s4 := s3.(awaiting := map[], pending := map[0 := Put(key, mixed), 1 := Put(key, second)]);
            var s5 := s3.(awaiting := map[], cache := map[key := second]);
            && Interleave(norm, s3, ReadBack(1)) == s4 && Interleave(norm, s4, Finish(1)) == s5
            && Interleave(norm, s5, Finish(0)) == s5.(cache := map[key := mixed], pending := map[])
  {
  }

  /** From any disagreement, one refresh with no call in flight restores agreement, and serial calls then keep it. */
  lemma QuietRefreshRestores(norm: Normal, s: Shared, es: seq<Event>, expiry: int)
    requires IsNormal(norm) && RowsOk(norm, s.rows) && s.awaiting == map[] && s.pending == map[]
    ensures var t := Interleave(norm, Interleave(norm, s, Load), Swap);
            && t.cache == t.rows == s.rows && t.awaiting == map[] && t.pending == map[]
            && Mirrors(norm, Run(norm, State(t.rows, t.cache, expiry), es).rows,
                       Run(norm, State(t.rows, t.cache, expiry), es).cache)
  {
    var t := Interleave(norm, Interleave(norm, s, Load), Swap);
    SerialRunAgrees(norm, State(t.rows, t.cache, expiry), es);
  }

  /** A deletion that runs whole between query and swap is undone in the cache: the flag keeps being served. */
  lemma DeleteDuringRefreshIsServed(norm: Normal, f: Flag)
    ensures var s := Shared(map[f.key := f], map[], None, map[], map[]);
            var deleted := Interleave(norm, Interleave(norm, Interleave(norm, s, Load), Begin(0, Delete(f.key))), Finish(0));
            var end := Interleave(norm, deleted, Swap);
            f.key !in end.rows && f.key in end.cache && end.awaiting == map[] && end.pending == map[]
  {
  }
}
