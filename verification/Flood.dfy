/** Flooding of write and read requests: forwarding stops, and when it has stopped every request has
reached whoever the peers that handled it forward to.

Here a delivery consumes its message, writes are not retransmitted, and no log is emptied.
*/
module Flood {
  import opened Common
  import opened Versions
  import opened Store
  import opened Handlers
  import opened ReadHandlers

  /** A write as the seen log knows it, or a read as the request log knows it. */
  datatype FloodId = WriteId(key: StoreKey) | ReadId(id: ReqId)

  datatype Content = AWrite(write: Wire) | ARead(read: ReadWire) {
    function Id(): FloodId {
      match this
      case AWrite(w) => WriteId(w.req.Id())
      case ARead(w) => ReadId(w.read.id)
    }

    /** Reads for one version are not passed on by a peer outside the slice that can answer them. */
    predicate AlwaysRelayed() {
      ARead? ==> read.read.query.LatestVersions?
    }
  }

  datatype Msg = Msg(to: PeerId, content: Content)

  datatype Node = Node(peer: Peer, requests: RequestLog)

  datatype Net = Net(nodes: map<PeerId, Node>, inFlight: multiset<Msg>)

  datatype Delivery = Delivery(msg: Msg, lucky: bool, smart: bool, targets: set<PeerId>)

  /** When the seen logs and the request logs are emptied, and which keys a peer answers for. */
  datatype Limits = Limits(mine: (PeerId, string) -> bool, seenAt: nat, requestsAt: nat)

  predicate Sane(lim: Limits) {
    lim.seenAt > 0 && lim.requestsAt > 0
  }

  ghost predicate CanDeliver(lim: Limits, s: Net, d: Delivery)
    requires Sane(lim)
  {
    && d.msg in s.inFlight && d.msg.to in s.nodes
    && match d.msg.content
       case AWrite(w) => !w.extra && (s.nodes[d.msg.to].peer.seen.count + 1) % lim.seenAt != 0
       case ARead(_) => (s.nodes[d.msg.to].requests.count + 1) % lim.requestsAt != 0
  }

  /** What handling a message leaves at the node, and what is passed on. */
  datatype Effect = Effect(node: Node, passed: Option<Content>)

  function EffectOf(lim: Limits, s: Net, d: Delivery): Effect
    requires Sane(lim) && d.msg.to in s.nodes
  {
    var node, to := s.nodes[d.msg.to], d.msg.to;
    match d.msg.content
    case AWrite(w) =>
      var h := Handle(node.peer, lim.mine(to, w.req.key), lim.seenAt, w, d.lucky);
      Effect(node.(peer := h.peer), if h.forward.Nowhere? then None else Some(AWrite(h.forward.wire)))
    case ARead(w) =>
      var h := HandleRead(node.peer.db, node.requests, lim.mine(to, w.read.key), lim.requestsAt, w, d.lucky, d.smart);
      Effect(node.(requests := h.log), if h.forward.Nowhere? then None else Some(ARead(h.forward.wire)))
  }

  function Copies(targets: set<PeerId>, content: Content): set<Msg> {
    set p | p in targets :: Msg(p, content)
  }

  /** The messages a delivery sends. */
  function Sent(lim: Limits, s: Net, d: Delivery): set<Msg>
    requires Sane(lim) && d.msg.to in s.nodes
  {
    var passed := EffectOf(lim, s, d).passed;
    if passed.None? then {} else Copies(d.targets, passed.value)
  }

  function Deliver(lim: Limits, s: Net, d: Delivery): Net
    requires Sane(lim) && d.msg.to in s.nodes
  {
    Net(s.nodes[d.msg.to := EffectOf(lim, s, d).node],
        s.inFlight - multiset{d.msg} + multiset(Sent(lim, s, d)))
  }

  ghost predicate IsRun(lim: Limits, s: Net, run: seq<Delivery>)
    requires Sane(lim)
    decreases run
  {
    run == [] || (CanDeliver(lim, s, run[0]) && IsRun(lim, Deliver(lim, s, run[0]), run[1..]))
  }

  ghost function RunTo(lim: Limits, s: Net, run: seq<Delivery>): Net
    requires Sane(lim) && IsRun(lim, s, run)
    decreases run
  {
    if run == [] then s else RunTo(lim, Deliver(lim, s, run[0]), run[1..])
  }

  predicate HasSeen(s: Net, p: PeerId, id: FloodId) {
    && p in s.nodes
    && match id
       case WriteId(key) => key in s.nodes[p].peer.seen.keys
       case ReadId(r) => r in s.nodes[p].requests.keys
  }

  // ----- termination

  /** Only requests from `ids` are in flight. */
  ghost predicate Carries(s: Net, ids: set<FloodId>) {
    forall k :: k in s.inFlight ==> k.content.Id() in ids
  }

  /** The pairs of a peer and a request that the peer has not seen. */
  ghost function Unseen(s: Net, ids: set<FloodId>): set<(PeerId, FloodId)> {
    set p, id | p in s.nodes && id in ids && !HasSeen(s, p, id) :: (p, id)
  }

  lemma HandledNode(lim: Limits, s: Net, d: Delivery)
    requires Sane(lim) && CanDeliver(lim, s, d)
    ensures var node, node', id := s.nodes[d.msg.to], EffectOf(lim, s, d).node, d.msg.content.Id();
            && node'.peer.seen.keys == node.peer.seen.keys + (if id.WriteId? then {id.key} else {})
            && node'.requests.keys == node.requests.keys + (if id.ReadId? then {id.id} else {})
    ensures var passed := EffectOf(lim, s, d).passed;
            && (passed.Some? ==> passed.value.Id() == d.msg.content.Id())
            && (HasSeen(s, d.msg.to, d.msg.content.Id()) ==> passed.None?)
            && (!HasSeen(s, d.msg.to, d.msg.content.Id()) && d.msg.content.AlwaysRelayed() ==> passed.Some?)
  {
  }

  /** A delivery only adds its own request to the receiver's log, and sends nothing when the
      request was there already. */
  lemma DeliveryEffect(lim: Limits, s: Net, d: Delivery)
    requires Sane(lim) && CanDeliver(lim, s, d)
    ensures Deliver(lim, s, d).nodes.Keys == s.nodes.Keys
    ensures forall p, id :: HasSeen(Deliver(lim, s, d), p, id) <==>
              HasSeen(s, p, id) || (p == d.msg.to && id == d.msg.content.Id())
    ensures HasSeen(s, d.msg.to, d.msg.content.Id()) ==> Sent(lim, s, d) == {}
    ensures forall k :: k in Sent(lim, s, d) ==> k.content.Id() == d.msg.content.Id()
    ensures !HasSeen(s, d.msg.to, d.msg.content.Id()) && d.msg.content.AlwaysRelayed() ==>
              forall q :: q in d.targets ==> exists k :: k in Sent(lim, s, d) && k.to == q
  {
    HandledNode(lim, s, d);
    var passed := EffectOf(lim, s, d).passed;
    if passed.Some? {
      forall q | q in d.targets ensures exists k :: k in Sent(lim, s, d) && k.to == q {
        assert Msg(q, passed.value) in Sent(lim, s, d);
      }
    }
  }

  lemma {:induction false} SentAtMostTargets(targets: set<PeerId>, content: Content)
    ensures |Copies(targets, content)| <= |targets|
  {
    if targets == {} {
    } else {
      var p :| p in targets;
      SentAtMostTargets(targets - {p}, content);
      assert Copies(targets, content) == Copies(targets - {p}, content) + {Msg(p, content)};
    }
  }

  lemma UnseenShrinks(s: Net, s': Net, to: PeerId, id: FloodId, ids: set<FloodId>)
    requires to in s.nodes && id in ids && s'.nodes.Keys == s.nodes.Keys
    requires forall p, i :: HasSeen(s', p, i) <==> HasSeen(s, p, i) || (p == to && i == id)
    ensures if HasSeen(s, to, id) then Unseen(s', ids) == Unseen(s, ids)
            else |Unseen(s', ids)| < |Unseen(s, ids)|
  {
    if HasSeen(s, to, id) {
      assert Unseen(s', ids) == Unseen(s, ids);
    } else {
      assert (to, id) in Unseen(s, ids);
      assert Unseen(s', ids) <= Unseen(s, ids) - {(to, id)};
      CardinalityDecides(Unseen(s', ids), Unseen(s, ids) - {(to, id)});
    }
  }

  /** The lexicographic measure: each delivery shrinks the unseen pairs, or leaves them alone and
      shrinks the messages in flight. */
  lemma DeliveryDecreases(lim: Limits, s: Net, d: Delivery, ids: set<FloodId>)
    requires Sane(lim) && CanDeliver(lim, s, d) && Carries(s, ids)
    ensures Carries(Deliver(lim, s, d), ids)
    ensures if HasSeen(s, d.msg.to, d.msg.content.Id())
            then |Unseen(Deliver(lim, s, d), ids)| == |Unseen(s, ids)| &&
                 |Deliver(lim, s, d).inFlight| == |s.inFlight| - 1
            else |Unseen(Deliver(lim, s, d), ids)| < |Unseen(s, ids)| &&
                 |Deliver(lim, s, d).inFlight| <= |s.inFlight| - 1 + |d.targets|
  {
    DeliveryEffect(lim, s, d);
    var s', passed := Deliver(lim, s, d), EffectOf(lim, s, d).passed;
    UnseenShrinks(s, s', d.msg.to, d.msg.content.Id(), ids);
    if passed.Some? { SentAtMostTargets(d.targets, passed.value); }
  }

  /** Messages in flight, and `fanout` more for each pair not yet seen. */
  ghost function Budget(s: Net, ids: set<FloodId>, fanout: nat): nat {
    |s.inFlight| + |Unseen(s, ids)| * fanout
  }

  lemma DeliverySpendsBudget(lim: Limits, s: Net, d: Delivery, ids: set<FloodId>, fanout: nat)
    requires Sane(lim) && CanDeliver(lim, s, d) && Carries(s, ids) && |d.targets| <= fanout
    ensures Carries(Deliver(lim, s, d), ids)
    ensures Budget(Deliver(lim, s, d), ids, fanout) < Budget(s, ids, fanout)
  {
    DeliveryDecreases(lim, s, d, ids);
    var before, after := |Unseen(s, ids)|, |Unseen(Deliver(lim, s, d), ids)|;
    if after < before { FewerTimes(after, before, fanout); }
  }

  lemma FewerTimes(after: nat, before: nat, fanout: nat)
    requires after < before
    ensures after * fanout + fanout <= before * fanout
  {
    assert (after + 1) * fanout == after * fanout + fanout;
    assert (after + 1) * fanout <= before * fanout;
  }

  /** Every run is finite: with at most `fanout` targets per forward it delivers no more messages
      than were in flight plus `fanout` for each pair not yet seen. */
  lemma {:induction false} FloodTerminates(lim: Limits, s: Net, run: seq<Delivery>, ids: set<FloodId>, fanout: nat)
    requires Sane(lim) && IsRun(lim, s, run) && Carries(s, ids)
    requires forall d :: d in run ==> |d.targets| <= fanout
    ensures |run| <= Budget(s, ids, fanout)
    decreases run
  {
    if run == [] {
    } else {
      var s' := Deliver(lim, s, run[0]);
      assert run[0] in run && forall d :: d in run[1..] ==> d in run;
      DeliverySpendsBudget(lim, s, run[0], ids, fanout);
      FloodTerminates(lim, s', run[1..], ids, fanout);
    }
  }

  // ----- each peer forwards a request at most once

  lemma {:induction false} SeenStays(lim: Limits, s: Net, run: seq<Delivery>, p: PeerId, id: FloodId)
    requires Sane(lim) && IsRun(lim, s, run) && HasSeen(s, p, id)
    ensures HasSeen(RunTo(lim, s, run), p, id)
    decreases run
  {
    if run == [] {
    } else {
      DeliveryEffect(lim, s, run[0]);
      SeenStays(lim, Deliver(lim, s, run[0]), run[1..], p, id);
    }
  }

  /** After a peer has handled a request, handling it again later in the run sends nothing. */
  lemma ForwardsAtMostOnce(lim: Limits, s: Net, d: Delivery, run: seq<Delivery>, again: Delivery)
    requires Sane(lim) && CanDeliver(lim, s, d) && IsRun(lim, Deliver(lim, s, d), run)
    requires CanDeliver(lim, RunTo(lim, Deliver(lim, s, d), run), again)
    requires again.msg.to == d.msg.to && again.msg.content.Id() == d.msg.content.Id()
    ensures Sent(lim, RunTo(lim, Deliver(lim, s, d), run), again) == {}
  {
    DeliveryEffect(lim, s, d);
    SeenStays(lim, Deliver(lim, s, d), run, d.msg.to, d.msg.content.Id());
    DeliveryEffect(lim, RunTo(lim, Deliver(lim, s, d), run), again);
  }

  // ----- what a finished flood has reached

  /** The request has reached `q` or is on its way there. */
  ghost predicate Reaches(s: Net, q: PeerId, id: FloodId) {
    HasSeen(s, q, id) || exists k :: k in s.inFlight && k.to == q && k.content.Id() == id
  }

  /** Every peer that has seen the request has passed it on to its whole view. */
  ghost predicate PassedOn(s: Net, view: PeerId -> set<PeerId>, id: FloodId) {
    forall p, q :: HasSeen(s, p, id) && q in view(p) ==> Reaches(s, q, id)
  }

  /** The delivery is not of this request, or the request is one that is always passed on, to the
      receiver's whole view. */
  ghost predicate Relays(d: Delivery, view: PeerId -> set<PeerId>, id: FloodId) {
    d.msg.content.Id() == id ==> d.msg.content.AlwaysRelayed() && d.targets >= view(d.msg.to)
  }

  lemma DeliveryReaches(lim: Limits, s: Net, d: Delivery, q: PeerId, id: FloodId)
    requires Sane(lim) && CanDeliver(lim, s, d)
    requires Reaches(s, q, id)
    ensures Reaches(Deliver(lim, s, d), q, id)
  {
    DeliveryEffect(lim, s, d);
    if !HasSeen(s, q, id) {
      var k :| k in s.inFlight && k.to == q && k.content.Id() == id;
      if k != d.msg { assert k in Deliver(lim, s, d).inFlight; }
    }
  }

  lemma DeliveryPassesOn(lim: Limits, s: Net, d: Delivery, view: PeerId -> set<PeerId>, id: FloodId)
    requires Sane(lim) && CanDeliver(lim, s, d) && Relays(d, view, id)
    requires PassedOn(s, view, id)
    ensures PassedOn(Deliver(lim, s, d), view, id)
  {
    var s' := Deliver(lim, s, d);
    DeliveryEffect(lim, s, d);
    forall p, q | HasSeen(s', p, id) && q in view(p) ensures Reaches(s', q, id) {
      if HasSeen(s, p, id) {
        DeliveryReaches(lim, s, d, q, id);
      } else {
        var k :| k in Sent(lim, s, d) && k.to == q;
        assert k in s'.inFlight;
      }
    }
  }

  /** When nothing is in flight any more, the peers that have seen a request are closed under the
      views: the flood has reached everyone it could. */
  lemma {:induction false} QuiescentFloodIsClosed(lim: Limits, s: Net, run: seq<Delivery>,
                                                  view: PeerId -> set<PeerId>, id: FloodId)
    requires Sane(lim) && IsRun(lim, s, run)
    requires forall d :: d in run ==> Relays(d, view, id)
    requires PassedOn(s, view, id)
    requires RunTo(lim, s, run).inFlight == multiset{}
    ensures forall p, q :: HasSeen(RunTo(lim, s, run), p, id) && q in view(p) ==>
              HasSeen(RunTo(lim, s, run), q, id)
    decreases run
  {
    if run == [] {
      forall p, q | HasSeen(s, p, id) && q in view(p) ensures HasSeen(s, q, id) {
        assert Reaches(s, q, id);
      }
    } else {
      var d := run[0];
      assert d in run && forall x :: x in run[1..] ==> x in run;
      DeliveryPassesOn(lim, s, d, view, id);
      QuiescentFloodIsClosed(lim, Deliver(lim, s, d), run[1..], view, id);
    }
  }
}
