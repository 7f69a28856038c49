/** The write protocol as a state machine over every client and peer.

Each client call and each handler invocation is one atomic step. Messages are never removed from
the network, so they may be delivered late, repeatedly, in any order, or never. Peers choose the
targets of a forward and the outcome of the reply chance freely. The partition is fixed and deletes
are absent.
*/
module Protocol {
  import opened Common
  import opened Versions
  import opened Siblings
  import opened Directories
  import opened Store
  import opened Handlers

  /** What stays fixed: the peers, which keys each answers for, and when seen logs are emptied. */
  datatype Config = Config(peers: set<PeerId>, mine: (PeerId, string) -> bool, garbageAt: nat)

  datatype Packet = Packet(to: PeerId, wire: Wire)

  datatype Reply = Reply(id: StoreKey, from: PeerId)

  /** A put that returned: how many replies it waited for and who had replied. */
  datatype Ack = Ack(waitFor: nat, repliers: set<PeerId>)

  /** A peer handled a write of its slice without being able to store it: a child of a directory
      it did not have, or a file under the key of a directory and vice versa. */
  datatype Refusal = Refusal(peer: PeerId, id: StoreKey)

  datatype State = State(
    clocks: map<ClientId, nat>,          // clock_vv of each client
    known: set<Version>,                 // versions clients have read
    issued: seq<Request>,                // every write so far, in order of issue
    peers: map<PeerId, Peer>,
    packets: set<Packet>,                // requests in the network
    transfers: set<Request>,             // anti-entropy replies in the network
    refused: set<Refusal>,               // writes that peers handled without storing them
    replies: set<Reply>,                 // put replies in the network
    pending: map<StoreKey, set<PeerId>>, // put_replies of the clients
    acked: map<StoreKey, Ack>)

  /** The body of a write, before a version is attached. */
  datatype Body = WholeValue(payload: Payload) | OneChild(child: string, isCreate: bool, isDir: bool)

  datatype Step =
    | Issue(client: ClientId, key: string, base: Version, body: Body, targets: set<PeerId>)
    | Resend(id: StoreKey, targets: set<PeerId>)
    | Deliver(packet: Packet, lucky: bool, targets: set<PeerId>)
    | ReadVersions(from: PeerId, key: string)
    | Offer(from: PeerId, transfer: Request)
    | Accept(to: PeerId, transfer: Request)
    | DeliverReply(reply: Reply)
    | Return(id: StoreKey, waitFor: nat)
    | Abandon(id: StoreKey)

  function Init(cfg: Config): State {
    State(map[], {}, [], map p | p in cfg.peers :: Peer(map[], Log({}, 0)), {}, {}, {}, {}, map[], map[])
  }

  function ClockOf(s: State, c: ClientId): nat {
    if c in s.clocks then s.clocks[c] else 0
  }

  function MakeRequest(key: string, v: Version, body: Body): Request {
    match body
    case WholeValue(payload) => PutRequest(key, v, payload)
    case OneChild(child, isCreate, isDir) => ChildRequest(key, v, child, isCreate, isDir)
  }

  /** The request an issue step creates: the incremented clock joined into the base. */
  function NewRequest(s: State, c: ClientId, key: string, base: Version, body: Body): Request {
    MakeRequest(key, Issued(c, ClockOf(s, c) + 1, base), body)
  }

  function Packets(targets: set<PeerId>, w: Wire): set<Packet> {
    set p | p in targets :: Packet(p, w)
  }

  /** The entries of a database that anti-entropy can send as they are. */
  ghost predicate Holds(db: Db, t: Request) {
    t.PutRequest? && t.key in db &&
    match db[t.key]
    case FileValue(s) => t.payload.FilePayload? && Sibling(t.version, t.payload.bytes) in s
    case DirValue(e) => t.payload.DirPayload? && e == DirEntry(t.version, t.payload.met)
  }

  ghost predicate Enabled(cfg: Config, s: State, step: Step) {
    match step
    case Issue(c, key, base, body, _) =>
      && (base.vv == map[] || base in s.known)
      && NewRequest(s, c, key, base, body).Id() !in s.pending
    case Resend(id, _) => id in s.pending && exists r :: r in s.issued && r.Id() == id
    case Deliver(packet, _, _) => packet in s.packets && packet.to in s.peers
    case ReadVersions(from, key) => from in s.peers && key in s.peers[from].db
    case Offer(from, t) => from in s.peers && Holds(s.peers[from].db, t)
    case Accept(to, t) =>
      && to in s.peers && t in s.transfers
      && (t.Id().fileType == Directory || t.Id() !in s.peers[to].seen.keys)
    case DeliverReply(reply) => reply in s.replies && reply.id in s.pending
    case Return(id, waitFor) => id in s.pending && |s.pending[id]| >= waitFor
    case Abandon(id) => id in s.pending
  }

  function HandledBy(cfg: Config, s: State, packet: Packet, lucky: bool): Handled
    requires cfg.garbageAt > 0 && packet.to in s.peers
  {
    Handle(s.peers[packet.to], cfg.mine(packet.to, packet.wire.req.key), cfg.garbageAt, packet.wire, lucky)
  }

  /** The writes refused once `p` has tried to store `req`. */
  function RefusedBy(cfg: Config, s: State, p: PeerId, req: Request): set<Refusal>
    requires p in s.peers
  {
    if cfg.mine(p, req.key) && !StoreDb(s.peers[p].db, req).ok then s.refused + {Refusal(p, req.Id())} else s.refused
  }

  function AcceptedBy(cfg: Config, p: PeerId, peer: Peer, t: Request): Peer
    requires cfg.garbageAt > 0
  {
    Peer(if cfg.mine(p, t.key) then StoreDb(peer.db, t).db else peer.db,
         Logged(peer.seen, cfg.garbageAt, t.Id()))
  }

  /** The state after a step; a step that is not enabled changes nothing. */
  ghost function After(cfg: Config, s: State, step: Step): State
    requires cfg.garbageAt > 0
  {
    if !Enabled(cfg, s, step) then s
    else match step
      case Issue(c, key, base, body, targets) =>
        var req := NewRequest(s, c, key, base, body);
        s.(clocks := s.clocks[c := ClockOf(s, c) + 1],
           issued := s.issued + [req],
           pending := s.pending[req.Id() := {}],
           packets := s.packets + Packets(targets, Wire(req, false, false)))
      case Resend(id, targets) =>
        var req :| req in s.issued && req.Id() == id;
        s.(packets := s.packets + Packets(targets, Wire(req, true, false)))
      case Deliver(packet, lucky, targets) =>
        var h := HandledBy(cfg, s, packet, lucky);
        s.(peers := s.peers[packet.to := h.peer],
           refused := if packet.wire.req.Id() in s.peers[packet.to].seen.keys then s.refused
                      else RefusedBy(cfg, s, packet.to, packet.wire.req),
           replies := if h.replied then s.replies + {Reply(packet.wire.req.Id(), packet.to)} else s.replies,
           packets := if h.forward.Nowhere? then s.packets else s.packets + Packets(targets, h.forward.wire))
      case ReadVersions(from, key) =>
        s.(known := s.known + set v | v in VersionsOf(s.peers[from].db[key]))
      case Offer(_, t) => s.(transfers := s.transfers + {t})
      case Accept(to, t) =>
        s.(peers := s.peers[to := AcceptedBy(cfg, to, s.peers[to], t)], refused := RefusedBy(cfg, s, to, t))
      case DeliverReply(reply) =>
        s.(pending := s.pending[reply.id := s.pending[reply.id] + {reply.from}])
      case Return(id, waitFor) =>
        s.(acked := s.acked[id := Ack(waitFor, s.pending[id])], pending := s.pending - {id})
      case Abandon(id) => s.(pending := s.pending - {id})
  }

  /** The state at the end of a run. */
  ghost function Reached(cfg: Config, run: seq<Step>): State
    requires cfg.garbageAt > 0
  {
    if run == [] then Init(cfg) else After(cfg, Reached(cfg, run[..|run| - 1]), run[|run| - 1])
  }
}

/** Freshness of issued versions: no two writes of a run share a vector. */
module Freshness {
  import opened Versions
  import opened Siblings
  import opened Directories
  import opened Store
  import opened Handlers
  import opened Protocol

  /** Every entry of the vector is at or below the clock of its client. */
  ghost predicate Bounded(v: VersionVector, clocks: map<ClientId, nat>) {
    forall c :: c in v ==> c in clocks && v[c] <= clocks[c]
  }

  ghost predicate ValueBounded(value: Value, clocks: map<ClientId, nat>) {
    match value
    case FileValue(s) => forall x :: x in s ==> Bounded(x.version.vv, clocks)
    case DirValue(e) => Bounded(e.version.vv, clocks)
  }

  ghost predicate DbBounded(db: Db, clocks: map<ClientId, nat>) {
    forall k :: k in db ==> ValueBounded(db[k], clocks)
  }

  /** All vectors in circulation are bounded by the clocks. */
  ghost predicate CirculationBounded(s: State) {
    && (forall v :: v in s.known ==> Bounded(v.vv, s.clocks))
    && (forall r :: r in s.issued ==> Bounded(r.version.vv, s.clocks))
    && (forall t :: t in s.transfers ==> Bounded(t.version.vv, s.clocks))
    && (forall p :: p in s.peers ==> DbBounded(s.peers[p].db, s.clocks))
  }

  /** Packets carry issued requests, and replies are awaited only for issued requests. */
  ghost predicate TracedToIssue(s: State) {
    && (forall k :: k in s.packets ==> k.wire.req in s.issued)
    && (forall id :: id in s.pending ==> exists r :: r in s.issued && r.Id() == id)
  }

  /** A later write is never at or below an earlier one. */
  ghost predicate IssuedInOrder(s: State) {
    forall i, j :: 0 <= i < j < |s.issued| ==> !Leq(s.issued[j].version.vv, s.issued[i].version.vv)
  }

  ghost predicate Fresh(s: State) {
    CirculationBounded(s) && TracedToIssue(s) && IssuedInOrder(s)
  }

  lemma BoundedByMore(v: VersionVector, clocks: map<ClientId, nat>, c: ClientId, n: nat)
    requires Bounded(v, clocks) && (c in clocks ==> clocks[c] <= n)
    ensures Bounded(v, clocks[c := n])
  {
  }

  lemma StoreStaysBounded(db: Db, req: Request, clocks: map<ClientId, nat>)
    requires DbBounded(db, clocks) && Bounded(req.version.vv, clocks)
    ensures DbBounded(StoreDb(db, req).db, clocks)
  {
    var db' := StoreDb(db, req).db;
    forall k | k in db' ensures ValueBounded(db'[k], clocks) {
      if k == req.key && db' != db {
        if k !in db {
        } else if db[k].FileValue? {
          var e := Sibling(req.version, req.payload.bytes);
          forall x | x in Placed(db[k].siblings, e) ensures Bounded(x.version.vv, clocks) {
            PlacedOnlyAdds(db[k].siblings, e, x);
          }
        } else {
          var op := if req.PutRequest? then PutDir(req.version, req.payload.met)
                    else PutChild(req.version, req.child, req.isCreate, req.isDir);
          AppliedJoins(db[k].entry, op);
          JoinStaysBounded(db[k].entry.version.vv, req.version.vv, clocks);
        }
      }
    }
  }

  lemma JoinStaysBounded(a: VersionVector, b: VersionVector, clocks: map<ClientId, nat>)
    requires Bounded(a, clocks) && Bounded(b, clocks)
    ensures Bounded(Join(a, b), clocks)
  {
  }

  /** What an issue step adds: a version strictly above its base and not at or below anything
      already in circulation. */
  lemma IssueIsFresh(s: State, c: ClientId, key: string, base: Version, body: Body, other: VersionVector)
    requires Bounded(base.vv, s.clocks) && Bounded(other, s.clocks)
    ensures var v := NewRequest(s, c, key, base, body).version;
            Compare(v, base) == Bigger && !Leq(v.vv, other) && Bounded(v.vv, s.clocks[c := ClockOf(s, c) + 1])
  {
  }

  lemma DbBoundedByMore(db: Db, clocks: map<ClientId, nat>, c: ClientId, n: nat)
    requires DbBounded(db, clocks) && (c in clocks ==> clocks[c] <= n)
    ensures DbBounded(db, clocks[c := n])
  {
  }

  /** One more request and one more tick of its client's clock. */
  lemma TickKeepsBounds(s: State, s': State, c: ClientId, req: Request)
    requires CirculationBounded(s) && Bounded(req.version.vv, s'.clocks)
    requires s'.clocks == s.clocks[c := ClockOf(s, c) + 1] && s'.issued == s.issued + [req]
    requires s'.known == s.known && s'.transfers == s.transfers && s'.peers == s.peers
    ensures CirculationBounded(s')
  {
    forall v: VersionVector | Bounded(v, s.clocks) ensures Bounded(v, s'.clocks) {
      BoundedByMore(v, s.clocks, c, ClockOf(s, c) + 1);
    }
    forall p | p in s.peers ensures DbBounded(s.peers[p].db, s'.clocks) {
      DbBoundedByMore(s.peers[p].db, s.clocks, c, ClockOf(s, c) + 1);
    }
  }

  lemma IssueKeepsBounds(cfg: Config, s: State, step: Step)
    requires cfg.garbageAt > 0 && Fresh(s) && step.Issue? && Enabled(cfg, s, step)
    ensures CirculationBounded(After(cfg, s, step))
  {
    var req := NewRequest(s, step.client, step.key, step.base, step.body);
    IssueIsFresh(s, step.client, step.key, step.base, step.body, step.base.vv);
    TickKeepsBounds(s, After(cfg, s, step), step.client, req);
  }

  lemma IssueKeepsOrder(cfg: Config, s: State, step: Step)
    requires cfg.garbageAt > 0 && Fresh(s) && step.Issue? && Enabled(cfg, s, step)
    ensures IssuedInOrder(After(cfg, s, step))
  {
    var req := NewRequest(s, step.client, step.key, step.base, step.body);
    forall i | 0 <= i < |s.issued| ensures !Leq(req.version.vv, s.issued[i].version.vv) {
      assert s.issued[i] in s.issued;
      IssueIsFresh(s, step.client, step.key, step.base, step.body, s.issued[i].version.vv);
    }
  }

  lemma IssueKeepsTraces(cfg: Config, s: State, step: Step)
    requires cfg.garbageAt > 0 && Fresh(s) && step.Issue? && Enabled(cfg, s, step)
    ensures TracedToIssue(After(cfg, s, step))
  {
  }

  lemma PeerStepKeepsFresh(cfg: Config, s: State, step: Step)
    requires cfg.garbageAt > 0 && Fresh(s) && Enabled(cfg, s, step)
    requires step.Deliver? || step.Accept?
    ensures Fresh(After(cfg, s, step))
  {
    var (p, req) := if step.Deliver? then (step.packet.to, step.packet.wire.req) else (step.to, step.transfer);
    assert Bounded(req.version.vv, s.clocks);
    assert DbBounded(s.peers[p].db, s.clocks);
    StoreStaysBounded(s.peers[p].db, req, s.clocks);
  }

  lemma OtherStepKeepsFresh(cfg: Config, s: State, step: Step)
    requires cfg.garbageAt > 0 && Fresh(s) && Enabled(cfg, s, step)
    requires !step.Issue? && !step.Deliver? && !step.Accept?
    ensures Fresh(After(cfg, s, step))
  {
    if step.ReadVersions? {
      assert ValueBounded(s.peers[step.from].db[step.key], s.clocks);
      var value := s.peers[step.from].db[step.key];
      forall v | v in VersionsOf(value) ensures Bounded(v.vv, s.clocks) {
        if value.FileValue? {
          var i :| 0 <= i < |value.siblings| && v == value.siblings[i].version;
          assert value.siblings[i] in value.siblings;
        }
      }
    } else if step.Offer? {
      assert ValueBounded(s.peers[step.from].db[step.transfer.key], s.clocks);
    }
  }

  lemma StepKeepsFresh(cfg: Config, s: State, step: Step)
    requires cfg.garbageAt > 0 && Fresh(s)
    ensures Fresh(After(cfg, s, step))
  {
    if Enabled(cfg, s, step) {
      if step.Issue? { IssueKeepsBounds(cfg, s, step); IssueKeepsOrder(cfg, s, step); IssueKeepsTraces(cfg, s, step); }
      else if step.Deliver? || step.Accept? { PeerStepKeepsFresh(cfg, s, step); }
      else { OtherStepKeepsFresh(cfg, s, step); }
    }
  }

  lemma {:induction false} FreshnessOverRuns(cfg: Config, run: seq<Step>)
    requires cfg.garbageAt > 0
    ensures Fresh(Reached(cfg, run))
  {
    if run == [] {
    } else {
      FreshnessOverRuns(cfg, run[..|run| - 1]);
      StepKeepsFresh(cfg, Reached(cfg, run[..|run| - 1]), run[|run| - 1]);
    }
  }

  /** In every run no two writes carry the same vector. */
  lemma WritesHaveDistinctVectors(cfg: Config, run: seq<Step>, i: nat, j: nat)
    requires cfg.garbageAt > 0
    requires i < |Reached(cfg, run).issued| && j < |Reached(cfg, run).issued| && i != j
    ensures Reached(cfg, run).issued[i].version.vv != Reached(cfg, run).issued[j].version.vv
  {
    FreshnessOverRuns(cfg, run);
    var issued := Reached(cfg, run).issued;
    assert !Leq(issued[if i < j then j else i].version.vv, issued[if i < j then i else j].version.vv);
  }

  /** `register_put` never finds its key registered: the exception for concurrent writes of one
      client to the same key and version is unreachable. */
  lemma RegistrationNeverCollides(cfg: Config, run: seq<Step>, c: ClientId, key: string, base: Version, body: Body)
    requires cfg.garbageAt > 0
    requires base.vv == map[] || base in Reached(cfg, run).known
    ensures NewRequest(Reached(cfg, run), c, key, base, body).Id() !in Reached(cfg, run).pending
  {
    FreshnessOverRuns(cfg, run);
    var s := Reached(cfg, run);
    var req := NewRequest(s, c, key, base, body);
    if req.Id() in s.pending {
      var r :| r in s.issued && r.Id() == req.Id();
      IssueIsFresh(s, c, key, base, body, r.version.vv);
    }
  }
}
