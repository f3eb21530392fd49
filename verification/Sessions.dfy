/**
 * The relay serving many connections at once. Each connection goes through the steps of the handler
 * (internal/relay/server.go:238-306) one shared-state access at a time, interleaved in any order with the
 * other connections, with stream closes, other streams, configuration pushes and unregistrations.
 */
module Sessions {
  import opened Bytes
  import opened Handshake
  import Tokens
  import R = Routing
  import Relay

  datatype Phase = Refused | Registered | Streamed | Bound | Acked

  /** A connection: the bytes it opened with and when, its context, and the stream it was handed, by id and by position. */
  datatype Session = Session(phase: Phase, id: bytes, first: bytes, at: int, ctx: nat, streamID: uint64, stream: nat)

  datatype Context = Context(id: bytes, streamID: uint64)
  datatype Holder = Tunnel(conn: nat) | Other

  /** An acknowledgement and the bytes it put on the wire. */
  datatype Ack = Ack(conn: nat, id: bytes, streamID: uint64, wire: bytes)

  /** Contexts are named by their position in `contexts`; `issued` lists who got each stream id, in order. */
  datatype World = World(contexts: seq<Context>, table: R.Table<nat>, next: uint64, issued: seq<Holder>,
                         active: set<uint64>, sessions: map<nat, Session>, acks: seq<Ack>)

  datatype Action =
    | Arrive(conn: nat, first: bytes, at: int)
    | OpenStream(conn: nat)
    | BindStream(conn: nat)
    | SendAck(conn: nat)
    | OpenOther
    | CloseStream(streamID: uint64)
    | Push(id: bytes, domain: bytes, port: int, streamID: uint64)
    | Drop(id: bytes)

  /** How the relay judges the first bytes of a connection at a given time. */
  type Gate = (bytes, int) -> Decision

  function RelayGate(mac: Tokens.Mac): Gate { (s, now) => Judge(mac, s, now) }

  function Initial(): World { World([], R.Empty(), 1, [], {}, map[], []) }

  /** The k-th stream id handed out: 1, then one more each time, as a uint64. */
  function StreamIDOf(k: nat): uint64 {
    if k == 0 then 1 else Incremented(StreamIDOf(k - 1))
  }

  predicate InPhase(w: World, conn: nat, p: Phase) { conn in w.sessions && w.sessions[conn].phase == p }

  function Issue(w: World, h: Holder): World {
    w.(next := Incremented(w.next), issued := w.issued + [h], active := w.active + {w.next})
  }

  function Step(gate: Gate, w: World, a: Action): World {
    match a
    case Arrive(conn, first, at) =>
      if conn in w.sessions then w
      else
        var d := gate(first, at);
        if !d.Admit? then w.(sessions := w.sessions[conn := Session(Refused, [], first, at, 0, 0, 0)])
        else
          var ctx := |w.contexts|;
          w.(contexts := w.contexts + [Context(d.id, 0)],
             table := R.Step(w.table, R.Register(R.Entry(d.id, [], 0, [], ctx))),
             sessions := w.sessions[conn := Session(Registered, d.id, first, at, ctx, 0, 0)])
    case OpenStream(conn) =>
      if !InPhase(w, conn, Registered) then w
      else
        Issue(w, Tunnel(conn)).(
          sessions := w.sessions[conn := w.sessions[conn].(phase := Streamed, streamID := w.next, stream := |w.issued|)])
    case BindStream(conn) =>
      if !InPhase(w, conn, Streamed) || w.sessions[conn].ctx >= |w.contexts| then w
      else
        var s := w.sessions[conn];
        w.(contexts := w.contexts[s.ctx := w.contexts[s.ctx].(streamID := s.streamID)],
           sessions := w.sessions[conn := s.(phase := Bound)])
    case SendAck(conn) =>
      if !InPhase(w, conn, Bound) then w
      else
        var s := w.sessions[conn];
        w.(acks := w.acks + [Ack(conn, s.id, s.streamID, Relay.Answer(Admit(s.id), s.streamID))],
           sessions := w.sessions[conn := s.(phase := Acked)])
    case OpenOther => Issue(w, Other)
    case CloseStream(id) => w.(active := w.active - {id})
    case Push(id, domain, port, streamID) =>
      w.(contexts := w.contexts + [Context(id, streamID)],
         table := R.Step(w.table, R.Register(R.Entry(id, domain, port, [], |w.contexts|))))
    case Drop(id) => w.(table := R.Step(w.table, R.Unregister(id)))
  }

  function Run(gate: Gate, actions: seq<Action>): World {
    if actions == [] then Initial()
    else Step(gate, Run(gate, actions[..|actions| - 1]), actions[|actions| - 1])
  }

  /**
   * The four actions of one connection with nothing in between do what the handler method does: a refused request
   * changes no shared state; an admitted one registers a key-less context, takes the next stream id, puts it into
   * that context and acknowledges with it.
   */
  lemma AloneAsHandled(gate: Gate, w: World, conn: nat, first: bytes, at: int)
    requires conn !in w.sessions
    ensures var arrived := Step(gate, w, Arrive(conn, first, at));
            var v := Step(gate, Step(gate, Step(gate, arrived, OpenStream(conn)), BindStream(conn)), SendAck(conn));
            match gate(first, at)
            case Admit(id) =>
              && v.table == R.Step(w.table, R.Register(R.Entry(id, [], 0, [], |w.contexts|)))
              && v.contexts == w.contexts + [Context(id, w.next)]
              && v.next == Incremented(w.next) && v.active == w.active + {w.next}
              && v.issued == w.issued + [Tunnel(conn)] && v.acks == w.acks + [Ack(conn, id, w.next, Relay.Answer(Admit(id), w.next))]
            case _ => v == w.(sessions := v.sessions)
  {
    var arrived := Step(gate, w, Arrive(conn, first, at));
    var streamed := Step(gate, arrived, OpenStream(conn));
    if gate(first, at).Admit? {
      assert InPhase(streamed, conn, Streamed);
      assert InPhase(Step(gate, streamed, BindStream(conn)), conn, Bound);
    }
  }

  /** What the other actions do, on contexts, table, streams and acknowledgements. */
  lemma OthersAsHandled(gate: Gate, w: World, id: bytes, domain: bytes, port: int, streamID: uint64)
    ensures Step(gate, w, Push(id, domain, port, streamID))
            == w.(contexts := w.contexts + [Context(id, streamID)],
                  table := R.Step(w.table, R.Register(R.Entry(id, domain, port, [], |w.contexts|))))
    ensures Step(gate, w, Drop(id)) == w.(table := R.Step(w.table, R.Unregister(id)))
    ensures Step(gate, w, CloseStream(streamID)) == w.(active := w.active - {streamID})
    ensures var v := Step(gate, w, OpenOther);
            && v == w.(next := v.next, issued := w.issued + [Other], active := w.active + {w.next})
            && v.next == if w.next == 0xFFFF_FFFF_FFFF_FFFF then 0 else w.next + 1
  {
  }

  // ---- What every interleaving keeps ----

  ghost predicate SessionOk(gate: Gate, w: World, conn: nat)
    requires conn in w.sessions
  {
    var s := w.sessions[conn];
    s.phase != Refused ==>
      && gate(s.first, s.at) == Admit(s.id)
      && s.ctx < |w.contexts| && w.contexts[s.ctx].id == s.id
      && (s.phase != Registered ==> s.stream < |w.issued| && w.issued[s.stream] == Tunnel(conn) && s.streamID == StreamIDOf(s.stream))
      && (s.phase == Bound || s.phase == Acked ==> w.contexts[s.ctx].streamID == s.streamID)
  }

  ghost predicate OwnContexts(w: World) {
    forall a, b | a in w.sessions && b in w.sessions && a != b
                  && w.sessions[a].phase != Refused && w.sessions[b].phase != Refused ::
      w.sessions[a].ctx != w.sessions[b].ctx
  }

  ghost predicate AckOk(w: World, i: nat)
    requires i < |w.acks|
  {
    var a := w.acks[i];
    && InPhase(w, a.conn, Acked) && a.id == w.sessions[a.conn].id
    && a.streamID == w.sessions[a.conn].streamID && a.wire == Relay.Answer(Admit(a.id), a.streamID)
    && forall j | 0 <= j < |w.acks| && j != i :: w.acks[j].conn != a.conn
  }

  ghost predicate TableOk(w: World) {
    forall id | id in w.table.tunnels ::
      w.table.tunnels[id].ctx < |w.contexts| && w.contexts[w.table.tunnels[id].ctx].id == id
  }

  ghost predicate Inv(gate: Gate, w: World) {
    && w.next == StreamIDOf(|w.issued|)
    && (forall conn | conn in w.sessions :: SessionOk(gate, w, conn))
    && OwnContexts(w)
    && (forall i | 0 <= i < |w.acks| :: AckOk(w, i))
    && TableOk(w)
  }

  lemma ArriveKeepsInv(gate: Gate, w: World, conn: nat, first: bytes, at: int)
    requires Inv(gate, w)
    ensures Inv(gate, Step(gate, w, Arrive(conn, first, at)))
  {
    var v := Step(gate, w, Arrive(conn, first, at));
    forall c | c in v.sessions ensures SessionOk(gate, v, c) {
      assert c in w.sessions ==> SessionOk(gate, w, c);
    }
    forall i | 0 <= i < |v.acks| ensures AckOk(v, i) {
      assert AckOk(w, i);
    }
  }

  lemma IssueKeepsInv(gate: Gate, w: World, a: Action)
    requires Inv(gate, w) && (a.OpenStream? || a.OpenOther?)
    ensures Inv(gate, Step(gate, w, a))
  {
    var v := Step(gate, w, a);
    forall c | c in v.sessions ensures SessionOk(gate, v, c) {
      assert SessionOk(gate, w, c);
    }
    forall i | 0 <= i < |v.acks| ensures AckOk(v, i) {
      assert AckOk(w, i);
    }
  }

  lemma BindKeepsInv(gate: Gate, w: World, conn: nat)
    requires Inv(gate, w)
    ensures Inv(gate, Step(gate, w, BindStream(conn)))
  {
    var v := Step(gate, w, BindStream(conn));
    forall c | c in v.sessions ensures SessionOk(gate, v, c) {
      assert SessionOk(gate, w, c);
    }
    forall i | 0 <= i < |v.acks| ensures AckOk(v, i) {
      assert AckOk(w, i);
    }
  }

  lemma AckKeepsInv(gate: Gate, w: World, conn: nat)
    requires Inv(gate, w)
    ensures Inv(gate, Step(gate, w, SendAck(conn)))
  {
    var v := Step(gate, w, SendAck(conn));
    forall c | c in v.sessions ensures SessionOk(gate, v, c) {
      assert SessionOk(gate, w, c);
    }
    forall i | 0 <= i < |v.acks| ensures AckOk(v, i) {
      assert i < |w.acks| ==> AckOk(w, i);
      forall j | 0 <= j < |w.acks| && InPhase(w, conn, Bound) ensures v.acks[j].conn == w.acks[j].conn != conn {
        assert AckOk(w, j);
      }
    }
  }

  lemma TableKeepsInv(gate: Gate, w: World, a: Action)
    requires Inv(gate, w) && (a.CloseStream? || a.Push? || a.Drop?)
    ensures Inv(gate, Step(gate, w, a))
  {
    var v := Step(gate, w, a);
    forall c | c in v.sessions ensures SessionOk(gate, v, c) {
      assert SessionOk(gate, w, c);
    }
    forall i | 0 <= i < |v.acks| ensures AckOk(v, i) {
      assert AckOk(w, i);
    }
  }

  lemma {:induction false} RunKeepsInv(gate: Gate, actions: seq<Action>)
    ensures Inv(gate, Run(gate, actions))
  {
    if actions != [] {
      var w, a := Run(gate, actions[..|actions| - 1]), actions[|actions| - 1];
      RunKeepsInv(gate, actions[..|actions| - 1]);
      match a {
        case Arrive(conn, first, at) => ArriveKeepsInv(gate, w, conn, first, at);
        case OpenStream(_) => IssueKeepsInv(gate, w, a);
        case OpenOther => IssueKeepsInv(gate, w, a);
        case BindStream(conn) => BindKeepsInv(gate, w, conn);
        case SendAck(conn) => AckKeepsInv(gate, w, conn);
        case CloseStream(_) => TableKeepsInv(gate, w, a);
        case Push(_, _, _, _) => TableKeepsInv(gate, w, a);
        case Drop(_) => TableKeepsInv(gate, w, a);
      }
    }
  }

  // ---- The guarantees ----

  /**
   * Over every interleaving, each acknowledgement went to a connection whose first frame held an authentic
   * unexpired token for the acknowledged id; its stream id is the one in the context it registered, and its bytes decode
   * to a frame with that id and stream id.
   */
  lemma AcksAreEntitled(mac: Tokens.Mac, actions: seq<Action>, i: nat)
    requires i < |Run(RelayGate(mac), actions).acks|
    ensures var w := Run(RelayGate(mac), actions);
            var a := w.acks[i];
            && a.conn in w.sessions
            && Entitled(mac, w.sessions[a.conn].first, w.sessions[a.conn].at, a.id)
            && w.sessions[a.conn].ctx < |w.contexts|
            && w.contexts[w.sessions[a.conn].ctx] == Context(a.id, a.streamID)
            && Relay.Acknowledges(a.wire, a.id, a.streamID)
  {
    var w := Run(RelayGate(mac), actions);
    RunKeepsInv(RelayGate(mac), actions);
    assert AckOk(w, i) && SessionOk(RelayGate(mac), w, w.acks[i].conn);
    var s := w.sessions[w.acks[i].conn];
    AdmitsIffEntitled(mac, s.first, s.at, s.id);
    Relay.AnswerSays(mac, s.first, s.at, s.streamID);
  }

  lemma Congruent(a: nat, b: nat, m: nat)
    requires m > 0
    ensures a % m == b % m <==> (a - b) % m == 0
  {
    var p, q := a / m, b / m;
    assert a == p * m + a % m && b == q * m + b % m;
    if a % m == b % m {
      assert a - b == (p - q) * m + 0;
      RemainderUnique(a - b, p - q, 0, m);
    }
    if (a - b) % m == 0 {
      var d := (a - b) / m;
      assert a == (d + q) * m + b % m;
      RemainderUnique(a, d + q, b % m, m);
    }
  }

  lemma RemainderUnique(a: int, q: int, r: int, m: nat)
    requires 0 <= r < m && a == q * m + r
    ensures a % m == r
  {
    assert (a / m - q) * m == r - a % m;
    NonZeroMultiple(a / m - q, m);
  }

  lemma NonZeroMultiple(k: int, m: int)
    requires m > 0
    ensures k == 0 || k * m >= m || k * m <= 0 - m
  {
  }

  lemma SuccessorModulo(a: int, m: nat)
    requires m > 1
    ensures (a % m + 1) % m == (a + 1) % m
  {
    if a % m + 1 < m {
      RemainderUnique(a + 1, a / m, a % m + 1, m);
    } else {
      RemainderUnique(a + 1, a / m + 1, 0, m);
    }
  }

  lemma {:induction false} StreamIDClosedForm(k: nat)
    ensures StreamIDOf(k) == (1 + k) % TWO_TO_64
  {
    if k > 0 {
      StreamIDClosedForm(k - 1);
      SuccessorModulo(k, TWO_TO_64);
    }
  }

  /** Two stream ids coincide exactly when their positions differ by a multiple of 2^64. */
  lemma StreamIDsRepeatIff(j: nat, k: nat)
    ensures StreamIDOf(j) == StreamIDOf(k) <==> (j - k) % TWO_TO_64 == 0
  {
    StreamIDClosedForm(j);
    StreamIDClosedForm(k);
    Shifted(j, k, TWO_TO_64);
  }

  lemma Shifted(j: nat, k: nat, m: nat)
    requires m > 0
    ensures (1 + j) % m == (1 + k) % m <==> (j - k) % m == 0
  {
    Congruent(1 + j, 1 + k, m);
    assert (1 + j) - (1 + k) == j - k;
  }

  lemma StreamIDsDistinct(j: nat, k: nat)
    requires j < TWO_TO_64 && k < TWO_TO_64 && StreamIDOf(j) == StreamIDOf(k)
    ensures j == k
  {
    StreamIDClosedForm(j);
    StreamIDClosedForm(k);
  }

  /** While at most 2^64 streams were opened, an acknowledged stream id was issued to that connection and nobody else. */
  lemma AckedStreamIsExclusive(gate: Gate, actions: seq<Action>, i: nat, k: nat)
    requires i < |Run(gate, actions).acks| && k < |Run(gate, actions).issued| <= TWO_TO_64
    requires StreamIDOf(k) == Run(gate, actions).acks[i].streamID
    ensures Run(gate, actions).issued[k] == Tunnel(Run(gate, actions).acks[i].conn)
  {
    var w := Run(gate, actions);
    RunKeepsInv(gate, actions);
    assert AckOk(w, i) && SessionOk(gate, w, w.acks[i].conn);
    StreamIDsDistinct(k, w.sessions[w.acks[i].conn].stream);
  }

  /** No two acknowledgements carry the same stream id, as long as at most 2^64 streams were opened. */
  lemma AckedStreamsAreDistinct(gate: Gate, actions: seq<Action>, i: nat, j: nat)
    requires i < j < |Run(gate, actions).acks| && |Run(gate, actions).issued| <= TWO_TO_64
    ensures Run(gate, actions).acks[i].streamID != Run(gate, actions).acks[j].streamID
  {
    var w := Run(gate, actions);
    RunKeepsInv(gate, actions);
    assert AckOk(w, i) && AckOk(w, j);
    assert SessionOk(gate, w, w.acks[i].conn) && SessionOk(gate, w, w.acks[j].conn);
    if w.acks[i].streamID == w.acks[j].streamID {
      AckedStreamIsExclusive(gate, actions, i, w.sessions[w.acks[j].conn].stream);
    }
  }

  /** Whatever a lookup finds, in any interleaving, is a context of the tunnel it was looked up for. */
  lemma RoutedContextHasItsId(gate: Gate, actions: seq<Action>, id: bytes)
    requires id in Run(gate, actions).table.tunnels
    ensures var w := Run(gate, actions);
            w.table.tunnels[id].ctx < |w.contexts| && w.contexts[w.table.tunnels[id].ctx].id == id
  {
    RunKeepsInv(gate, actions);
  }

  // ---- The tables, from the history ----

  /** What an action asks the dispatcher to do, in world `w`. */
  function TableOps(gate: Gate, w: World, a: Action): seq<R.Op<nat>> {
    match a
    case Arrive(conn, first, at) =>
      if conn !in w.sessions && gate(first, at).Admit?
      then [R.Register(R.Entry(gate(first, at).id, [], 0, [], |w.contexts|))] else []
    case Push(id, domain, port, _) => [R.Register(R.Entry(id, domain, port, [], |w.contexts|))]
    case Drop(id) => [R.Unregister(id)]
    case _ => []
  }

  function AllTableOps(gate: Gate, actions: seq<Action>): seq<R.Op<nat>> {
    if actions == [] then []
    else
      var front := actions[..|actions| - 1];
      AllTableOps(gate, front) + TableOps(gate, Run(gate, front), actions[|actions| - 1])
  }

  /**
   * The routing table of every interleaving is that of the dispatcher after the admissions, pushes and unregistrations
   * in their order, so all whole-run rules of the routing table apply to it.
   */
  lemma {:induction false} TableIsRoutingRun(gate: Gate, actions: seq<Action>)
    ensures var ops := AllTableOps(gate, actions);
            Run(gate, actions).table == R.Run(ops, |ops|)
  {
    if actions != [] {
      var front, a := actions[..|actions| - 1], actions[|actions| - 1];
      TableIsRoutingRun(gate, front);
      StepsTable(gate, Run(gate, front), a);
      RunAppends(AllTableOps(gate, front), TableOps(gate, Run(gate, front), a));
    }
  }

  lemma RunAppends(ops: seq<R.Op<nat>>, more: seq<R.Op<nat>>)
    requires |more| <= 1
    ensures var all := ops + more;
            R.Run(all, |all|) == if more == [] then R.Run(ops, |ops|) else R.Step(R.Run(ops, |ops|), more[0])
  {
    Relay.ApplyAgrees(R.Empty(), ops, ops + more, |ops|);
  }

  lemma StepsTable(gate: Gate, w: World, a: Action)
    ensures var ops := TableOps(gate, w, a);
            Step(gate, w, a).table == if ops == [] then w.table else R.Step(w.table, ops[0])
    ensures |TableOps(gate, w, a)| <= 1
  {
  }

  /** The stream id that action `i` hands out, if it hands one out. */
  function Issues(gate: Gate, actions: seq<Action>, i: nat): (id: Option<uint64>)
    requires i < |actions|
  {
    var w := Run(gate, actions[..i]);
    match actions[i]
    case OpenStream(conn) => if InPhase(w, conn, Registered) then Some(w.next) else None
    case OpenOther => Some(w.next)
    case _ => None
  }

  ghost predicate OpenSince(gate: Gate, actions: seq<Action>, n: nat, id: uint64, i: nat)
    requires n <= |actions|
  {
    i < n && Issues(gate, actions, i) == Some(id) && forall j | i < j < n :: actions[j] != CloseStream(id)
  }

  predicate Listed(gate: Gate, actions: seq<Action>, n: nat, id: uint64)
    requires n <= |actions|
  {
    id in Run(gate, actions[..n]).active
  }

  lemma OpenSinceStep(gate: Gate, actions: seq<Action>, n: nat, id: uint64, i: nat)
    requires n < |actions|
    ensures OpenSince(gate, actions, n + 1, id, i)
            <==> (i == n && Issues(gate, actions, n) == Some(id))
                 || (OpenSince(gate, actions, n, id, i) && actions[n] != CloseStream(id))
  {
  }

  lemma ListedStep(gate: Gate, actions: seq<Action>, n: nat, id: uint64)
    requires n < |actions|
    ensures Listed(gate, actions, n + 1, id)
            <==> Issues(gate, actions, n) == Some(id) || (Listed(gate, actions, n, id) && actions[n] != CloseStream(id))
  {
    assert actions[..n + 1][..n] == actions[..n];
    ActiveStep(gate, Run(gate, actions[..n]), actions[n], id);
  }

  lemma ActiveStep(gate: Gate, w: World, a: Action, id: uint64)
    ensures id in Step(gate, w, a).active
            <==> if a.OpenOther? || (a.OpenStream? && InPhase(w, a.conn, Registered)) then id in w.active || id == w.next
                 else id in w.active && a != CloseStream(id)
  {
  }

  /** After any part of an interleaving a stream is listed exactly when it was handed out and not closed since. */
  lemma {:induction false} ListedIff(gate: Gate, actions: seq<Action>, n: nat, id: uint64)
    requires n <= |actions|
    ensures Listed(gate, actions, n, id) <==> exists i: nat :: OpenSince(gate, actions, n, id, i)
  {
    if n > 0 {
      var m := n - 1;
      ListedIff(gate, actions, m, id);
      ListedStep(gate, actions, m, id);
      if i: nat :| OpenSince(gate, actions, n, id, i) {
        OpenSinceStep(gate, actions, m, id, i);
      }
      if Issues(gate, actions, m) == Some(id) {
        OpenSinceStep(gate, actions, m, id, m);
      } else if i: nat :| OpenSince(gate, actions, m, id, i) {
        OpenSinceStep(gate, actions, m, id, i);
      }
    }
  }
}
