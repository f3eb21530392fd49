/** The gateway's agent table and per-organisation index, internal/gateway/hub.go. */
module Hub {
  import opened Bytes

  const HEARTBEAT_TIMEOUT := 90_000_000_000

  class AgentConnection {
    const agentID: string
    const orgID: string
    var lastPing: int
    var closed: bool

    constructor (agentID: string, orgID: string, now: int)
      ensures this.agentID == agentID && this.orgID == orgID && lastPing == now && !closed
    {
      this.agentID, this.orgID := agentID, orgID;
      lastPing, closed := now, false;
    }
  }

  type Agents = map<string, AgentConnection>

  datatype State = State(agents: Agents, byOrg: map<string, Agents>)

  datatype Op = Add(conn: AgentConnection) | Remove(conn: AgentConnection)

  function WithoutExisting(s: State, id: string): map<string, Agents> {
    if id in s.agents && s.agents[id].orgID in s.byOrg
    then s.byOrg[s.agents[id].orgID := s.byOrg[s.agents[id].orgID] - {id}]
    else s.byOrg
  }

  function Filed(m: map<string, Agents>, c: AgentConnection): map<string, Agents> {
    if c.orgID == "" then m
    else
      var inner: Agents := if c.orgID in m then m[c.orgID] else map[];
      m[c.orgID := inner[c.agentID := c]]
  }

  function Unfiled(m: map<string, Agents>, c: AgentConnection): map<string, Agents> {
    if c.orgID !in m then m
    else if m[c.orgID] - {c.agentID} == map[] then m - {c.orgID}
    else m[c.orgID := m[c.orgID] - {c.agentID}]
  }

  function Step(s: State, op: Op): State {
    match op
    case Add(c) => State(s.agents[c.agentID := c], Filed(WithoutExisting(s, c.agentID), c))
    case Remove(c) =>
      if c.agentID in s.agents && s.agents[c.agentID] == c
      then State(s.agents - {c.agentID}, Unfiled(s.byOrg, c))
      else s
  }

  function Run(ops: seq<Op>, n: nat): State
    requires n <= |ops|
  {
    if n == 0 then State(map[], map[]) else Step(Run(ops, n - 1), ops[n - 1])
  }

  // ---- Who is connected, over every order of adds and removes ----

  /** Operation `i` was the last add for agent `a`, and the connection it added was not removed since. */
  ghost predicate HeldSince(ops: seq<Op>, n: nat, a: string, i: nat)
    requires n <= |ops|
  {
    && i < n && ops[i].Add? && ops[i].conn.agentID == a
    && forall j | i < j < n :: !(ops[j].Add? && ops[j].conn.agentID == a) && ops[j] != Remove(ops[i].conn)
  }

  lemma HeldSinceStep(ops: seq<Op>, n: nat, a: string, i: nat)
    requires n < |ops|
    ensures HeldSince(ops, n + 1, a, i)
            <==> if ops[n].Add? && ops[n].conn.agentID == a then i == n
                 else HeldSince(ops, n, a, i) && ops[n] != Remove(ops[i].conn)
  {
  }

  lemma AgentsAfterStep(ops: seq<Op>, n: nat, a: string)
    requires n < |ops|
    ensures var before, after := Run(ops, n).agents, Run(ops, n + 1).agents;
            if ops[n].Add? && ops[n].conn.agentID == a then a in after && after[a] == ops[n].conn
            else if a in before && ops[n] == Remove(before[a]) then a !in after
            else (a in after <==> a in before) && (a in after ==> after[a] == before[a])
  {
    if a in Run(ops, n).agents {
      ListedUnderOwnName(ops, n, a);
    }
  }

  /** An agent is listed with a connection exactly when that connection's add was its last and is not undone. */
  lemma {:induction false} ListedIff(ops: seq<Op>, n: nat, a: string)
    requires n <= |ops|
    ensures a in Run(ops, n).agents <==> exists i: nat :: HeldSince(ops, n, a, i)
    ensures forall i: nat | HeldSince(ops, n, a, i) :: a in Run(ops, n).agents && Run(ops, n).agents[a] == ops[i].conn
  {
    if n > 0 {
      var m := n - 1;
      ListedIff(ops, m, a);
      AgentsAfterStep(ops, m, a);
      forall i: nat
        ensures HeldSince(ops, n, a, i)
                <==> if ops[m].Add? && ops[m].conn.agentID == a then i == m
                     else HeldSince(ops, m, a, i) && ops[m] != Remove(ops[i].conn)
      {
        HeldSinceStep(ops, m, a, i);
      }
      assert ops[m].Add? && ops[m].conn.agentID == a ==> HeldSince(ops, n, a, m);
    }
  }

  lemma {:induction false} ListedUnderOwnName(ops: seq<Op>, n: nat, a: string)
    requires n <= |ops| && a in Run(ops, n).agents
    ensures Run(ops, n).agents[a].agentID == a
  {
    if !(ops[n - 1].Add? && ops[n - 1].conn.agentID == a) {
      ListedUnderOwnName(ops, n - 1, a);
    }
  }

  /** A late remove of a replaced connection changes nothing: its successor stays, in both tables. */
  lemma LateRemoveIsHarmless(ops: seq<Op>, n: nat, i: nat, c: AgentConnection)
    requires n < |ops| && ops[n] == Remove(c)
    requires HeldSince(ops, n, c.agentID, i) && ops[i].conn != c
    ensures Run(ops, n + 1) == Run(ops, n)
    ensures c.agentID in Run(ops, n).agents && Run(ops, n).agents[c.agentID] == ops[i].conn
  {
    ListedIff(ops, n, c.agentID);
  }

  // ---- The organisation index ----

  ghost predicate Indexed(m: map<string, Agents>, o: string, a: string, c: AgentConnection) {
    o in m && a in m[o] && m[o][a] == c
  }

  ghost predicate Belongs(agents: Agents, o: string, a: string, c: AgentConnection) {
    o != "" && a in agents && agents[a] == c && c.orgID == o
  }

  /** The index is the agent table regrouped by organisation. */
  ghost predicate IndexOk(s: State) {
    && (forall a | a in s.agents :: s.agents[a].agentID == a)
    && (forall o, a | o in s.byOrg && a in s.byOrg[o] :: Belongs(s.agents, o, a, s.byOrg[o][a]))
    && (forall a | a in s.agents && s.agents[a].orgID != "" :: Indexed(s.byOrg, s.agents[a].orgID, a, s.agents[a]))
  }

  lemma AddKeepsIndex(s: State, c: AgentConnection)
    requires IndexOk(s)
    ensures IndexOk(Step(s, Add(c)))
  {
    var id, m := c.agentID, WithoutExisting(s, c.agentID);
    assert forall o | o in m :: id !in m[o];
    var t := Step(s, Add(c));
    forall o, a | o in t.byOrg && a in t.byOrg[o] ensures Belongs(t.agents, o, a, t.byOrg[o][a]) {
      if a != id {
        assert o in s.byOrg && a in s.byOrg[o] && Belongs(s.agents, o, a, s.byOrg[o][a]);
      }
    }
    forall a | a in t.agents && t.agents[a].orgID != ""
      ensures Indexed(t.byOrg, t.agents[a].orgID, a, t.agents[a])
    {
      assert a != id ==> Indexed(s.byOrg, t.agents[a].orgID, a, t.agents[a]);
    }
  }

  lemma RemoveKeepsIndex(s: State, c: AgentConnection)
    requires IndexOk(s)
    ensures IndexOk(Step(s, Remove(c)))
  {
    var t := Step(s, Remove(c));
    if c.agentID in s.agents && s.agents[c.agentID] == c {
      forall o, a | o in t.byOrg && a in t.byOrg[o] ensures Belongs(t.agents, o, a, t.byOrg[o][a]) {
        assert Belongs(s.agents, o, a, s.byOrg[o][a]);
      }
      forall a | a in t.agents && t.agents[a].orgID != ""
        ensures Indexed(t.byOrg, t.agents[a].orgID, a, t.agents[a])
      {
        assert Indexed(s.byOrg, t.agents[a].orgID, a, t.agents[a]);
        if t.agents[a].orgID == c.orgID {
          assert a in s.byOrg[c.orgID] - {c.agentID};
        }
      }
    }
  }

  lemma {:induction false} RunKeepsIndex(ops: seq<Op>, n: nat)
    requires n <= |ops|
    ensures IndexOk(Run(ops, n))
  {
    if n > 0 {
      RunKeepsIndex(ops, n - 1);
      match ops[n - 1]
      case Add(c) => AddKeepsIndex(Run(ops, n - 1), c);
      case Remove(c) => RemoveKeepsIndex(Run(ops, n - 1), c);
    }
  }

  /** In every reachable state a connection is indexed under an organisation exactly when it is listed and belongs to it. */
  lemma IndexedIffBelongs(ops: seq<Op>, n: nat, o: string, a: string, c: AgentConnection)
    requires n <= |ops|
    ensures Indexed(Run(ops, n).byOrg, o, a, c) <==> Belongs(Run(ops, n).agents, o, a, c)
  {
    RunKeepsIndex(ops, n);
  }

  /** `c` is in the list kept for organisation `o`. */
  ghost predicate Member(s: State, o: string, c: AgentConnection) {
    o in s.byOrg && exists a | a in s.byOrg[o] :: s.byOrg[o][a] == c
  }

  /** In every reachable state an organisation's list is the filter of the agent table: the same connections, each once. */
  lemma MembersAreTheFilter(ops: seq<Op>, n: nat, o: string)
    requires n <= |ops|
    ensures var s := Run(ops, n);
            && (forall c: AgentConnection :: Member(s, o, c) <==> Belongs(s.agents, o, c.agentID, c))
            && (if o in s.byOrg then |s.byOrg[o]| else 0) == |set a | a in s.agents && s.agents[a].orgID == o && o != ""|
  {
    var s := Run(ops, n);
    RunKeepsIndex(ops, n);
    forall c: AgentConnection ensures Member(s, o, c) <==> Belongs(s.agents, o, c.agentID, c) {
      if Member(s, o, c) {
        var a :| a in s.byOrg[o] && s.byOrg[o][a] == c;
        assert Belongs(s.agents, o, a, c);
      }
      if Belongs(s.agents, o, c.agentID, c) {
        assert Indexed(s.byOrg, o, c.agentID, c);
      }
    }
    var listed := set a | a in s.agents && s.agents[a].orgID == o && o != "";
    if o in s.byOrg {
      forall a ensures a in s.byOrg[o].Keys <==> a in listed {
        if a in s.byOrg[o].Keys {
          assert Belongs(s.agents, o, a, s.byOrg[o][a]);
        }
        if a in listed {
          assert Indexed(s.byOrg, o, a, s.agents[a]);
        }
      }
      assert s.byOrg[o].Keys == listed && |s.byOrg[o].Keys| == |s.byOrg[o]|;
    } else {
      forall a ensures a !in listed {
        assert a in s.agents && s.agents[a].orgID == o && o != "" ==> Indexed(s.byOrg, o, a, s.agents[a]);
      }
      assert listed == {};
    }
  }

  // ---- Counting ----

  ghost function Pick(os: set<string>): (o: string)
    requires os != {}
    ensures o in os
  {
    var o :| o in os;
    o
  }

  /** The sum of the sizes of the inner maps of the organisations in `os`. */
  ghost function Total(m: map<string, Agents>, os: set<string>): nat
    requires os <= m.Keys
  {
    if os == {} then 0 else |m[Pick(os)]| + Total(m, os - {Pick(os)})
  }

  ghost function AllIndexed(m: map<string, Agents>, os: set<string>): set<string>
    requires os <= m.Keys
  {
    set o, a | o in os && a in m[o] :: a
  }

  lemma AllIndexedStep(m: map<string, Agents>, os: set<string>, o: string)
    requires os <= m.Keys && o in os
    ensures AllIndexed(m, os) == m[o].Keys + AllIndexed(m, os - {o})
  {
  }

  lemma {:induction false} TotalIsUnion(m: map<string, Agents>, os: set<string>)
    requires os <= m.Keys
    requires forall o, p | o in os && p in os && o != p :: m[o].Keys !! m[p].Keys
    ensures Total(m, os) == |AllIndexed(m, os)|
    decreases |os|
  {
    if os == {} {
      assert AllIndexed(m, os) == {};
    } else {
      var o := Pick(os);
      var rest := os - {o};
      TotalIsUnion(m, rest);
      AllIndexedStep(m, os, o);
      assert m[o].Keys !! AllIndexed(m, rest);
      assert |m[o].Keys| == |m[o]|;
    }
  }

  /** The sizes of the organisation lists add up to the number of agents that have an organisation. */
  lemma OrganisationsPartitionAgents(ops: seq<Op>, n: nat)
    requires n <= |ops|
    ensures var s := Run(ops, n);
            Total(s.byOrg, s.byOrg.Keys) == |set a | a in s.agents && s.agents[a].orgID != ""|
  {
    var s := Run(ops, n);
    RunKeepsIndex(ops, n);
    assert forall o, a | o in s.byOrg && a in s.byOrg[o] :: a in s.agents && s.agents[a].orgID == o;
    TotalIsUnion(s.byOrg, s.byOrg.Keys);
    var listed := set a | a in s.agents && s.agents[a].orgID != "";
    var indexed := AllIndexed(s.byOrg, s.byOrg.Keys);
    forall a ensures a in indexed <==> a in listed {
      if a in listed {
        assert Indexed(s.byOrg, s.agents[a].orgID, a, s.agents[a]);
      }
    }
    assert indexed == listed;
  }

  // ---- The event loop and its two queues ----

  /**
   * What the environment and the loop do: put a connection on a queue, or take one off a queue. A heartbeat timeout and
   * the end of a message loop both put the connection on the second queue and then close it, which is `Cancel`.
   */
  datatype Event =
    | Enrol(conn: AgentConnection)
    | Leave(conn: AgentConnection)
    | Cancel(conn: AgentConnection)
    | TakeRegister
    | TakeUnregister

  datatype Loop = Loop(register: seq<AgentConnection>, unregister: seq<AgentConnection>, done: seq<Op>)

  function LoopStep(l: Loop, e: Event): Loop {
    match e
    case Enrol(c) => l.(register := l.register + [c])
    case Leave(c) => l.(unregister := l.unregister + [c])
    case Cancel(_) => l
    case TakeRegister =>
      if l.register == [] then l else l.(register := l.register[1..], done := l.done + [Add(l.register[0])])
    case TakeUnregister =>
      if l.unregister == [] then l else l.(unregister := l.unregister[1..], done := l.done + [Remove(l.unregister[0])])
  }

  function LoopRun(es: seq<Event>): Loop {
    if es == [] then Loop([], [], []) else LoopStep(LoopRun(es[..|es| - 1]), es[|es| - 1])
  }

  function Adds(ops: seq<Op>): seq<AgentConnection> {
    if ops == [] then [] else Adds(ops[..|ops| - 1]) + (if ops[|ops| - 1].Add? then [ops[|ops| - 1].conn] else [])
  }

  function Removes(ops: seq<Op>): seq<AgentConnection> {
    if ops == [] then [] else Removes(ops[..|ops| - 1]) + (if ops[|ops| - 1].Remove? then [ops[|ops| - 1].conn] else [])
  }

  function Enrolled(es: seq<Event>): seq<AgentConnection> {
    if es == [] then [] else Enrolled(es[..|es| - 1]) + (if es[|es| - 1].Enrol? then [es[|es| - 1].conn] else [])
  }

  function Left(es: seq<Event>): seq<AgentConnection> {
    if es == [] then [] else Left(es[..|es| - 1]) + (if es[|es| - 1].Leave? then [es[|es| - 1].conn] else [])
  }

  /**
   * Whatever the loop picks, it has applied an interleaving of the two queues: registrations in their
   * order, unregistrations in theirs, none lost and none twice.
   */
  lemma {:induction false} LoopAppliesInterleaving(es: seq<Event>)
    ensures var l := LoopRun(es);
            Adds(l.done) + l.register == Enrolled(es) && Removes(l.done) + l.unregister == Left(es)
  {
    if es != [] {
      var before, e := LoopRun(es[..|es| - 1]), es[|es| - 1];
      LoopAppliesInterleaving(es[..|es| - 1]);
      LoopStepAppends(before, e);
    }
  }

  /** One step appends to the enrolled or left connections what it put on a queue, and otherwise only moves them. */
  lemma LoopStepAppends(l: Loop, e: Event)
    ensures var after := LoopStep(l, e);
            && Adds(after.done) + after.register == (Adds(l.done) + l.register) + (if e.Enrol? then [e.conn] else [])
            && Removes(after.done) + after.unregister == (Removes(l.done) + l.unregister) + (if e.Leave? then [e.conn] else [])
  {
  }

  /** Operation `i` adds a connection of agent `a`, and no later operation adds one. */
  ghost predicate LastAdd(ops: seq<Op>, a: string, i: nat) {
    && i < |ops| && ops[i].Add? && ops[i].conn.agentID == a
    && forall j | i < j < |ops| :: !(ops[j].Add? && ops[j].conn.agentID == a)
  }

  /**
   * A handler registers its connection twice, and it is unregistered on another queue, when its messages end and when
   * its heartbeat times out. In whatever order the loop takes these among all other operations, the connection is
   * listed in the end exactly when the agent's last registration is one of its own and was taken after every
   * unregistration of it.
   */
  lemma UnregisteredStaysIff(ops: seq<Op>, c: AgentConnection)
    ensures var agents := Run(ops, |ops|).agents;
            c.agentID in agents && agents[c.agentID] == c
            <==> exists i: nat :: LastAdd(ops, c.agentID, i) && ops[i].conn == c
                                  && forall r | 0 <= r < |ops| && ops[r] == Remove(c) :: r < i
  {
    var n, a := |ops|, c.agentID;
    var agents := Run(ops, n).agents;
    ListedIff(ops, n, a);
    if a in agents && agents[a] == c {
      var i: nat :| HeldSince(ops, n, a, i);
      assert LastAdd(ops, a, i) && ops[i].conn == c;
    }
    forall i: nat | LastAdd(ops, a, i) && ops[i].conn == c && forall r | 0 <= r < |ops| && ops[r] == Remove(c) :: r < i
      ensures a in agents && agents[a] == c
    {
      assert HeldSince(ops, n, a, i);
    }
  }

  lemma LoopRunNext(es: seq<Event>, n: nat, l: Loop)
    requires n < |es| && LoopRun(es[..n]) == l
    ensures LoopRun(es[..n + 1]) == LoopStep(l, es[n])
  {
    assert es[..n + 1][..n] == es[..n];
  }

  lemma TakesInTurn(c: AgentConnection)
    ensures LoopStep(Loop([c, c], [c], []), TakeRegister) == Loop([c], [c], [Add(c)])
    ensures LoopStep(Loop([c], [c], [Add(c)]), TakeUnregister) == Loop([c], [], [Add(c), Remove(c)])
    ensures LoopStep(Loop([c], [], [Add(c), Remove(c)]), TakeRegister) == Loop([], [], [Add(c), Remove(c), Add(c)])
  {
  }

  /** A handler that registers twice and ends; the loop takes the unregistration between the two registrations. */
  function SplitRegistrations(c: AgentConnection): seq<Event> {
    [Enrol(c), Enrol(c), Leave(c), Cancel(c), TakeRegister, TakeUnregister, TakeRegister]
  }

  lemma LoopCanSplitRegistrations(c: AgentConnection)
    ensures LoopRun(SplitRegistrations(c)) == Loop([], [], [Add(c), Remove(c), Add(c)])
  {
    var es := SplitRegistrations(c);
    TakesInTurn(c);
    assert es[..0] == [];
    LoopRunNext(es, 0, Loop([], [], []));
    LoopRunNext(es, 1, Loop([c], [], []));
    LoopRunNext(es, 2, Loop([c, c], [], []));
    LoopRunNext(es, 3, Loop([c, c], [c], []));
    LoopRunNext(es, 4, Loop([c, c], [c], []));
    LoopRunNext(es, 5, Loop([c], [c], [Add(c)]));
    LoopRunNext(es, 6, Loop([c], [], [Add(c), Remove(c)]));
    assert es[..7] == es;
  }

  // ---- Cancelled connections ----

  /** The connections that adds have closed: each add closes what it finds listed for its agent. */
  function Closed(ops: seq<Op>, n: nat): set<AgentConnection>
    requires n <= |ops|
  {
    if n == 0 then {}
    else
      var agents, op := Run(ops, n - 1).agents, ops[n - 1];
      Closed(ops, n - 1) + if op.Add? && op.conn.agentID in agents then {agents[op.conn.agentID]} else {}
  }

  /** Operation `j` is an add for the agent of `c` while `c` is listed by its add `i`. */
  ghost predicate Finds(ops: seq<Op>, j: nat, c: AgentConnection, i: nat) {
    && i < j < |ops| && ops[i] == Add(c) && HeldSince(ops, j, c.agentID, i)
    && ops[j].Add? && ops[j].conn.agentID == c.agentID
  }

  /** One of the first `n` operations was such an add. */
  ghost predicate FoundListed(ops: seq<Op>, n: nat, c: AgentConnection) {
    exists i: nat, j: nat :: j < n && Finds(ops, j, c, i)
  }

  /** Operation `n` finds `c` listed and adds a connection of the same agent. */
  ghost predicate Replaces(ops: seq<Op>, n: nat, c: AgentConnection)
    requires n < |ops|
  {
    var agents := Run(ops, n).agents;
    ops[n].Add? && ops[n].conn.agentID == c.agentID && c.agentID in agents && agents[c.agentID] == c
  }

  lemma ClosedStep(ops: seq<Op>, n: nat, c: AgentConnection)
    requires n < |ops|
    ensures c in Closed(ops, n + 1) <==> c in Closed(ops, n) || Replaces(ops, n, c)
  {
    if ops[n].Add? && ops[n].conn.agentID in Run(ops, n).agents {
      ListedUnderOwnName(ops, n, ops[n].conn.agentID);
    }
  }

  lemma ReplacesIff(ops: seq<Op>, n: nat, c: AgentConnection)
    requires n < |ops|
    ensures Replaces(ops, n, c) <==> exists i: nat :: Finds(ops, n, c, i)
  {
    ListedIff(ops, n, c.agentID);
    if Replaces(ops, n, c) {
      var i: nat :| HeldSince(ops, n, c.agentID, i);
      assert Finds(ops, n, c, i);
    }
  }

  /** Adds have closed a connection exactly when one of them found it listed. */
  lemma {:induction false} ClosedIff(ops: seq<Op>, n: nat, c: AgentConnection)
    requires n <= |ops|
    ensures c in Closed(ops, n) <==> FoundListed(ops, n, c)
  {
    if n > 0 {
      ClosedIff(ops, n - 1, c);
      ClosedStep(ops, n - 1, c);
      ReplacesIff(ops, n - 1, c);
    }
  }

  /** The connections whose context is cancelled: closed by the environment, or by an add that the loop applied. */
  function Cancelled(es: seq<Event>): set<AgentConnection> {
    if es == [] then {}
    else
      var front, e := es[..|es| - 1], es[|es| - 1];
      var l := LoopRun(front);
      var agents := Run(l.done, |l.done|).agents;
      Cancelled(front)
      + match e
        case Cancel(c) => {c}
        case TakeRegister =>
          if l.register != [] && l.register[0].agentID in agents then {agents[l.register[0].agentID]} else {}
        case _ => {}
  }

  /** Operations yet to come do not matter to the past. */
  lemma {:induction false} PastIsFixed(ops: seq<Op>, op: Op, n: nat)
    requires n <= |ops|
    ensures Run(ops + [op], n) == Run(ops, n) && Closed(ops + [op], n) == Closed(ops, n)
  {
    if n > 0 {
      PastIsFixed(ops, op, n - 1);
      assert (ops + [op])[n - 1] == ops[n - 1];
    }
  }

  /** An add of `x` finds `c` listed after all of `ops`. */
  predicate WouldClose(ops: seq<Op>, x: AgentConnection, c: AgentConnection) {
    var agents := Run(ops, |ops|).agents;
    x.agentID in agents && agents[x.agentID] == c
  }

  lemma ClosedGrows(ops: seq<Op>, op: Op, c: AgentConnection)
    ensures c in Closed(ops + [op], |ops| + 1)
            <==> c in Closed(ops, |ops|) || (op.Add? && WouldClose(ops, op.conn, c))
  {
    PastIsFixed(ops, op, |ops|);
  }

  /** Event `e` makes the loop apply an add that finds `c` listed. */
  predicate TakesOver(l: Loop, e: Event, c: AgentConnection) {
    e.TakeRegister? && l.register != [] && WouldClose(l.done, l.register[0], c)
  }

  lemma ClosedAfterEvent(l: Loop, e: Event, c: AgentConnection)
    ensures var after := LoopStep(l, e).done;
            c in Closed(after, |after|) <==> c in Closed(l.done, |l.done|) || TakesOver(l, e, c)
  {
    if e.TakeRegister? && l.register != [] {
      ClosedGrows(l.done, Add(l.register[0]), c);
    } else if e.TakeUnregister? && l.unregister != [] {
      ClosedGrows(l.done, Remove(l.unregister[0]), c);
    }
  }

  lemma CancelledAfterEvent(front: seq<Event>, e: Event, c: AgentConnection)
    ensures LoopRun(front + [e]) == LoopStep(LoopRun(front), e)
    ensures c in Cancelled(front + [e]) <==> c in Cancelled(front) || e == Cancel(c) || TakesOver(LoopRun(front), e, c)
  {
    assert (front + [e])[..|front|] == front;
  }

  lemma {:induction false} CancelledSplits(es: seq<Event>, c: AgentConnection)
    ensures var done := LoopRun(es).done;
            c in Cancelled(es) <==> Cancel(c) in es || c in Closed(done, |done|)
  {
    if es != [] {
      var front, e := es[..|es| - 1], es[|es| - 1];
      CancelledSplits(front, c);
      assert es == front + [e];
      CancelledAfterEvent(front, e, c);
      ClosedAfterEvent(LoopRun(front), e, c);
    }
  }

  /**
   * Over every run of the loop a connection is cancelled exactly when its handler or a heartbeat timeout closed it, or
   * some add for its agent found it listed.
   */
  lemma CancelledIff(es: seq<Event>, c: AgentConnection)
    ensures var done := LoopRun(es).done;
            c in Cancelled(es) <==> Cancel(c) in es || FoundListed(done, |done|, c)
  {
    var done := LoopRun(es).done;
    CancelledSplits(es, c);
    ClosedIff(done, |done|, c);
  }

  /**
   * A listed connection is cancelled exactly when a timeout or its handler has closed it, or one of the adds up to the
   * one that lists it found it already listed, as the second of two registrations in a row does.
   */
  lemma ListedIsCancelledIff(es: seq<Event>, c: AgentConnection, m: nat)
    requires var done := LoopRun(es).done;
             HeldSince(done, |done|, c.agentID, m) && done[m].conn == c
    ensures var done := LoopRun(es).done;
            && c.agentID in Run(done, |done|).agents && Run(done, |done|).agents[c.agentID] == c
            && (c in Cancelled(es) <==> Cancel(c) in es || exists i: nat, j: nat :: j <= m && Finds(done, j, c, i))
  {
    var done := LoopRun(es).done;
    ListedIff(done, |done|, c.agentID);
    CancelledIff(es, c);
  }

  /** Once every unregistering call has returned, having left is as good as having been closed. */
  lemma SettledIsCancelledIff(es: seq<Event>, c: AgentConnection)
    requires Leave(c) in es <==> Cancel(c) in es
    ensures var done := LoopRun(es).done;
            c in Cancelled(es) <==> Leave(c) in es || FoundListed(done, |done|, c)
  {
    CancelledIff(es, c);
  }

  /** A choice of the loop that leaves a closed connection listed: its second registration is taken after its unregistration. */
  lemma SecondRegistrationOutlivesRemoval(c: AgentConnection)
    ensures var es := SplitRegistrations(c);
            var l := LoopRun(es);
            && l == Loop([], [], [Add(c), Remove(c), Add(c)]) && c in Cancelled(es)
            && c.agentID in Run(l.done, |l.done|).agents && Run(l.done, |l.done|).agents[c.agentID] == c
  {
    LoopCanSplitRegistrations(c);
    var ops := [Add(c), Remove(c), Add(c)];
    assert LastAdd(ops, c.agentID, 2);
    UnregisteredStaysIff(ops, c);
    assert SplitRegistrations(c)[3] == Cancel(c);
    CancelledIff(SplitRegistrations(c), c);
  }

  /** A heartbeat timeout cancels a connection that stays listed until the loop takes its unregistration; no add found it. */
  lemma TimeoutCancelsListed(c: AgentConnection)
    ensures var es := [Enrol(c), TakeRegister, Leave(c), Cancel(c)];
            var l := LoopRun(es);
            && l == Loop([], [c], [Add(c)]) && c in Cancelled(es) && !FoundListed(l.done, 1, c)
            && c.agentID in Run(l.done, 1).agents && Run(l.done, 1).agents[c.agentID] == c
  {
    var es := [Enrol(c), TakeRegister, Leave(c), Cancel(c)];
    assert es[..0] == [];
    LoopRunNext(es, 0, Loop([], [], []));
    LoopRunNext(es, 1, Loop([c], [], []));
    LoopRunNext(es, 2, Loop([], [], [Add(c)]));
    LoopRunNext(es, 3, Loop([], [c], [Add(c)]));
    assert es[..4] == es && es[3] == Cancel(c);
    CancelledIff(es, c);
    assert HeldSince([Add(c)], 1, c.agentID, 0);
    ListedIff([Add(c)], 1, c.agentID);
  }

  // ---- The hub object ----

  lemma UpdateTwice<K, V>(m: map<K, V>, k: K, v: V, w: V)
    ensures m[k := v][k := w] == m[k := w] && (m - {k})[k := w] == m[k := w] && m[k := v] - {k} == m - {k}
  {
  }

  class HubTable {
    var agents: Agents
    var byOrg: map<string, Agents>

    ghost function View(): State
      reads this
    {
      State(agents, byOrg)
    }

    constructor ()
      ensures View() == State(map[], map[])
    {
      agents, byOrg := map[], map[];
    }

    method AddConn(conn: AgentConnection)
      modifies this, (if conn.agentID in agents then {agents[conn.agentID]} else {})`closed
      ensures View() == Step(old(View()), Add(conn))
      ensures conn.agentID in old(agents) ==> old(agents[conn.agentID]).closed
    {
      if conn.agentID in agents {
        var existing := agents[conn.agentID];
        existing.closed := true;
        UpdateTwice(agents, conn.agentID, conn, conn);
        agents := agents - {conn.agentID};
        if existing.orgID in byOrg {
          byOrg := byOrg[existing.orgID := byOrg[existing.orgID] - {conn.agentID}];
        }
      }
      agents := agents[conn.agentID := conn];
      if conn.orgID != "" {
        if conn.orgID !in byOrg {
          UpdateTwice(byOrg, conn.orgID, map[], map[][conn.agentID := conn]);
          byOrg := byOrg[conn.orgID := map[]];
        }
        byOrg := byOrg[conn.orgID := byOrg[conn.orgID][conn.agentID := conn]];
      }
    }

    /** The two registrations of a handler, taken one after the other: the hub closes the connection it then lists. */
    method RegisterTwice(conn: AgentConnection)
      modifies this, conn`closed, (if conn.agentID in agents then {agents[conn.agentID]} else {})`closed
      ensures View() == Step(Step(old(View()), Add(conn)), Add(conn))
      ensures conn.agentID in agents && agents[conn.agentID] == conn && conn.closed
    {
      AddConn(conn);
      AddConn(conn);
    }

    method RemoveConn(conn: AgentConnection)
      modifies this
      ensures View() == Step(old(View()), Remove(conn))
    {
      if conn.agentID in agents && agents[conn.agentID] == conn {
        agents := agents - {conn.agentID};
        if conn.orgID in byOrg {
          var left := byOrg[conn.orgID] - {conn.agentID};
          UpdateTwice(byOrg, conn.orgID, left, left);
          byOrg := byOrg[conn.orgID := left];
          if |left| == 0 {
            byOrg := byOrg - {conn.orgID};
          }
        }
      }
    }

    /** `GetAgentsByOrg`, and the recipients of `BroadcastToOrg`: the organisation's list, in some order. */
    method AgentsByOrg(orgID: string) returns (found: seq<AgentConnection>)
      ensures forall c: AgentConnection :: c in found <==> Member(View(), orgID, c)
      ensures |found| == if orgID in byOrg then |byOrg[orgID]| else 0
    {
      found := [];
      if orgID !in byOrg {
        return;
      }
      var inner := byOrg[orgID];
      var left := inner.Keys;
      assert |inner.Keys| == |inner|;
      while left != {}
        invariant left <= inner.Keys && |found| + |left| == |inner|
        invariant forall c: AgentConnection :: c in found <==> exists a | a in inner.Keys - left :: inner[a] == c
        decreases |left|
      {
        var a :| a in left;
        found := found + [inner[a]];
        left := left - {a};
      }
    }

    /** The scan of `checkHeartbeats`: the listed connections silent for more than the timeout. */
    method TimedOut(now: int) returns (timeouts: seq<AgentConnection>)
      ensures forall c: AgentConnection :: c in timeouts <==>
                (exists a | a in agents :: agents[a] == c) && now - c.lastPing > 90_000_000_000
    {
      timeouts := [];
      var left := agents.Keys;
      while left != {}
        invariant left <= agents.Keys
        invariant forall c: AgentConnection :: c in timeouts <==>
                    (exists a | a in agents.Keys - left :: agents[a] == c) && now - c.lastPing > HEARTBEAT_TIMEOUT
        decreases |left|
      {
        var a :| a in left;
        if now - agents[a].lastPing > HEARTBEAT_TIMEOUT {
          timeouts := timeouts + [agents[a]];
        }
        left := left - {a};
      }
    }
  }
}
