/** Completion of writes: in every run, delivering a write to peers of its slice that can store it, and
their replies to the client, enables its return, and so does sending it again. The durability results
are about such writes.
*/
module Completion {
  import opened Common
  import opened Versions
  import opened Store
  import opened Handlers
  import opened Protocol
  import opened Freshness
  import opened Durability

  // ----- deliveries that are answered

  /** The peer answers for the key, and can store a request that it has not seen; of one that it has
      seen, it stores a version at or below the asked one, and the request is a retransmission. */
  predicate Accepts(cfg: Config, s: State, p: PeerId, req: Request, extra: bool) {
    && p in s.peers && cfg.mine(p, req.key)
    && if req.Id() !in s.peers[p].seen.keys then CanStore(s.peers[p].db, req)
       else extra && Compares(s.peers[p].db, req.key, req.version, Bigger)
  }

  /** The delivery of a request in the network to a peer that accepts it, unless the group has
      answered and the draw is unlucky. */
  predicate WillAnswer(cfg: Config, s: State, id: StoreKey, step: Step) {
    && step.Deliver? && step.packet in s.packets && step.packet.wire.req.Id() == id
    && Accepts(cfg, s, step.packet.to, step.packet.wire.req, step.packet.wire.extra)
    && (!step.packet.wire.forwarded || step.lucky)
  }

  predicate AllDeliver(steps: seq<Step>) {
    forall step :: step in steps ==> step.Deliver?
  }

  function Receivers(steps: seq<Step>): set<PeerId>
    requires AllDeliver(steps)
  {
    set step | step in steps :: step.packet.to
  }

  /** No peer receives two of the deliveries. */
  ghost predicate ToDifferentPeers(steps: seq<Step>)
    requires AllDeliver(steps)
  {
    forall i, j :: 0 <= i < j < |steps| ==> steps[i].packet.to != steps[j].packet.to
  }

  /** The replies of the receivers reach the client. */
  function Answers(id: StoreKey, steps: seq<Step>): seq<Step>
    requires AllDeliver(steps)
  {
    seq(|steps|, i requires 0 <= i < |steps| => DeliverReply(Reply(id, steps[i].packet.to)))
  }

  lemma {:induction false} ReceiverCount(steps: seq<Step>)
    requires AllDeliver(steps) && ToDifferentPeers(steps)
    ensures |Receivers(steps)| == |steps|
  {
    if steps == [] {
    } else {
      var front, last := steps[..|steps| - 1], steps[|steps| - 1];
      ReceiverCount(front);
      ReceiversSnoc(front, last);
      assert steps == front + [last];
      assert last.packet.to !in Receivers(front);
    }
  }

  lemma ReceiversSnoc(front: seq<Step>, last: Step)
    requires AllDeliver(front) && last.Deliver?
    ensures AllDeliver(front + [last]) && Receivers(front + [last]) == Receivers(front) + {last.packet.to}
  {
    assert forall step :: step in front + [last] <==> step in front || step == last;
  }

  lemma RunSnoc(cfg: Config, run: seq<Step>, front: seq<Step>, last: Step)
    requires cfg.garbageAt > 0
    ensures Reached(cfg, run + (front + [last])) == After(cfg, Reached(cfg, run + front), last)
  {
    var all := run + (front + [last]);
    assert all[..|all| - 1] == run + front && all[|all| - 1] == last;
  }

  /** One answered delivery: the reply is in the network, and no other peer notices. */
  lemma DeliveryIsAnswered(cfg: Config, s: State, id: StoreKey, step: Step)
    requires cfg.garbageAt > 0 && WillAnswer(cfg, s, id, step)
    ensures var s' := After(cfg, s, step);
            && Reply(id, step.packet.to) in s'.replies && s.replies <= s'.replies
            && s'.pending == s.pending
            && forall x :: WillAnswer(cfg, s, id, x) && x.packet.to != step.packet.to ==> WillAnswer(cfg, s', id, x)
  {
    var peer, wire := s.peers[step.packet.to], step.packet.wire;
    if id in peer.seen.keys { LoggedAnswerIff(peer, true, cfg.garbageAt, wire, step.lucky); }
    else { FirstAnswerIff(peer, true, cfg.garbageAt, wire, step.lucky); }
  }

  /** What the deliveries leave. */
  ghost predicate Answered(cfg: Config, s: State, s': State, id: StoreKey, steps: seq<Step>)
    requires AllDeliver(steps)
  {
    && s'.pending == s.pending
    && (forall p :: p in Receivers(steps) ==> Reply(id, p) in s'.replies)
    && (forall x :: WillAnswer(cfg, s, id, x) && x.packet.to !in Receivers(steps) ==> WillAnswer(cfg, s', id, x))
  }

  lemma {:induction false} DeliveriesAreAnswered(cfg: Config, run: seq<Step>, id: StoreKey, steps: seq<Step>)
    requires cfg.garbageAt > 0 && AllDeliver(steps) && ToDifferentPeers(steps)
    requires forall step :: step in steps ==> WillAnswer(cfg, Reached(cfg, run), id, step)
    ensures Answered(cfg, Reached(cfg, run), Reached(cfg, run + steps), id, steps)
  {
    if steps == [] {
      assert run + steps == run;
    } else {
      var front, last := steps[..|steps| - 1], steps[|steps| - 1];
      assert steps == front + [last] && last in steps;
      DeliveriesAreAnswered(cfg, run, id, front);
      RunSnoc(cfg, run, front, last);
      AnsweredOneMore(cfg, Reached(cfg, run), Reached(cfg, run + front), id, front, last);
    }
  }

  lemma AnsweredOneMore(cfg: Config, s: State, mid: State, id: StoreKey, front: seq<Step>, last: Step)
    requires cfg.garbageAt > 0 && AllDeliver(front) && Answered(cfg, s, mid, id, front)
    requires WillAnswer(cfg, s, id, last) && last.packet.to !in Receivers(front)
    ensures AllDeliver(front + [last]) && Answered(cfg, s, After(cfg, mid, last), id, front + [last])
  {
    ReceiversSnoc(front, last);
    DeliveryIsAnswered(cfg, mid, id, last);
  }

  /** The replies are counted, each receiver once and nobody else. */
  lemma {:induction false} AnswersAreCounted(cfg: Config, run: seq<Step>, id: StoreKey, steps: seq<Step>)
    requires cfg.garbageAt > 0 && AllDeliver(steps) && id in Reached(cfg, run).pending
    requires forall p :: p in Receivers(steps) ==> Reply(id, p) in Reached(cfg, run).replies
    ensures var s, s' := Reached(cfg, run), Reached(cfg, run + Answers(id, steps));
            s'.replies == s.replies && id in s'.pending && s'.pending[id] == s.pending[id] + Receivers(steps)
  {
    if steps == [] {
      assert run + Answers(id, steps) == run;
    } else {
      var front, last := steps[..|steps| - 1], steps[|steps| - 1];
      assert steps == front + [last] && last in steps;
      ReceiversSnoc(front, last);
      AnswersAreCounted(cfg, run, id, front);
      AnswersSnoc(id, front, last);
      RunSnoc(cfg, run, Answers(id, front), DeliverReply(Reply(id, last.packet.to)));
      ReplyIsCounted(cfg, Reached(cfg, run + Answers(id, front)), Reply(id, last.packet.to));
    }
  }

  lemma AnswersSnoc(id: StoreKey, front: seq<Step>, last: Step)
    requires AllDeliver(front) && last.Deliver?
    ensures Answers(id, front + [last]) == Answers(id, front) + [DeliverReply(Reply(id, last.packet.to))]
  {
  }

  lemma ReplyIsCounted(cfg: Config, s: State, reply: Reply)
    requires cfg.garbageAt > 0 && reply in s.replies && reply.id in s.pending
    ensures var s' := After(cfg, s, DeliverReply(reply));
            && s'.replies == s.replies && reply.id in s'.pending
            && s'.pending[reply.id] == s.pending[reply.id] + {reply.from}
  {
  }

  /** From any reached state in which a write is waited for: once it has been delivered to different
      peers that accept it, and their replies to the client, exactly they are counted in addition,
      and the write can return with that many replies. */
  lemma AnsweredWriteReturns(cfg: Config, run: seq<Step>, id: StoreKey, steps: seq<Step>)
    requires cfg.garbageAt > 0 && id in Reached(cfg, run).pending
    requires AllDeliver(steps) && ToDifferentPeers(steps)
    requires forall step :: step in steps ==> WillAnswer(cfg, Reached(cfg, run), id, step)
    ensures var s' := Reached(cfg, run + steps + Answers(id, steps));
            && Enabled(cfg, s', Return(id, |steps|))
            && s'.pending[id] == Reached(cfg, run).pending[id] + Receivers(steps)
  {
    DeliveriesAreAnswered(cfg, run, id, steps);
    AnswersAreCounted(cfg, run + steps, id, steps);
    ReceiverCount(steps);
    var counted := Reached(cfg, run).pending[id] + Receivers(steps);
    CardinalityDecides(Receivers(steps), counted);
  }

  // ----- a write from its issue to its return

  /** Seen logs hold only versions within the clocks, so nobody has seen a write before its issue. */
  ghost predicate SeenIsBounded(s: State) {
    forall p, id :: p in s.peers && id in s.peers[p].seen.keys ==> Bounded(id.version.vv, s.clocks)
  }

  lemma StepKeepsSeenBounded(cfg: Config, s: State, step: Step)
    requires cfg.garbageAt > 0 && Fresh(s) && SeenIsBounded(s)
    ensures SeenIsBounded(After(cfg, s, step))
  {
    var s' := After(cfg, s, step);
    forall p, id | p in s'.peers && id in s'.peers[p].seen.keys ensures Bounded(id.version.vv, s'.clocks) {
      if p in s.peers && id in s.peers[p].seen.keys {
        if step.Issue? { BoundedByMore(id.version.vv, s.clocks, step.client, ClockOf(s, step.client) + 1); }
      } else {
        NewlySeen(cfg, s, step, p, id);
      }
    }
  }

  lemma {:induction false} SeenBoundedOverRuns(cfg: Config, run: seq<Step>)
    requires cfg.garbageAt > 0
    ensures SeenIsBounded(Reached(cfg, run))
  {
    if run == [] {
    } else {
      var before := run[..|run| - 1];
      SeenBoundedOverRuns(cfg, before);
      FreshnessOverRuns(cfg, before);
      StepKeepsSeenBounded(cfg, Reached(cfg, before), run[|run| - 1]);
    }
  }

  /** The transmissions of a request to the given peers, with the draws and the targets of their
      forwards. */
  function Deliveries(w: Wire, to: seq<PeerId>, lucky: PeerId -> bool, fan: PeerId -> set<PeerId>): (r: seq<Step>)
    ensures AllDeliver(r) && |r| == |to| && forall i :: 0 <= i < |to| ==> r[i].packet.to == to[i]
  {
    seq(|to|, i requires 0 <= i < |to| => Deliver(Packet(to[i], w), lucky(to[i]), fan(to[i])))
  }

  /** An issued write has not been seen by anyone. */
  lemma IssuedWillAnswer(cfg: Config, run: seq<Step>, issue: Step, req: Request, p: PeerId, lucky: bool, fan: set<PeerId>)
    requires cfg.garbageAt > 0 && issue.Issue? && Enabled(cfg, Reached(cfg, run), issue) && p in issue.targets
    requires req == NewRequest(Reached(cfg, run), issue.client, issue.key, issue.base, issue.body)
    requires Responsible(cfg, Reached(cfg, run), p, req)
    ensures WillAnswer(cfg, After(cfg, Reached(cfg, run), issue), req.Id(),
                       Deliver(Packet(p, Wire(req, false, false)), lucky, fan))
  {
    var s := Reached(cfg, run);
    FreshnessOverRuns(cfg, run);
    SeenBoundedOverRuns(cfg, run);
    if req.Id() in s.peers[p].seen.keys {
      assert Bounded(req.version.vv, s.clocks);
      IssueIsFresh(s, issue.client, issue.key, issue.base, issue.body, req.version.vv);
    }
    assert Packet(p, Wire(req, false, false)) in Packets(issue.targets, Wire(req, false, false));
  }

  /** The peer answers for the key and can store the write. */
  predicate Responsible(cfg: Config, s: State, p: PeerId, req: Request) {
    p in s.peers && cfg.mine(p, req.key) && CanStore(s.peers[p].db, req)
  }

  /** In every run a client can issue a write, have it delivered to any different peers of the slice
      that can store it, and return with exactly their replies. */
  lemma IssuedWriteReturns(cfg: Config, run: seq<Step>, issue: Step, req: Request, to: seq<PeerId>,
                           lucky: PeerId -> bool, fan: PeerId -> set<PeerId>)
    requires cfg.garbageAt > 0 && issue.Issue?
    requires issue.base.vv == map[] || issue.base in Reached(cfg, run).known
    requires req == NewRequest(Reached(cfg, run), issue.client, issue.key, issue.base, issue.body)
    requires forall i, j :: 0 <= i < j < |to| ==> to[i] != to[j]
    requires forall p :: p in to ==> p in issue.targets && Responsible(cfg, Reached(cfg, run), p, req)
    ensures var steps := Deliveries(Wire(req, false, false), to, lucky, fan);
            var s' := Reached(cfg, run + [issue] + steps + Answers(req.Id(), steps) + [Return(req.Id(), |to|)]);
            req.Id() in s'.acked && s'.acked[req.Id()] == Ack(|to|, set p | p in to)
  {
    var s, id, steps := Reached(cfg, run), req.Id(), Deliveries(Wire(req, false, false), to, lucky, fan);
    RegistrationNeverCollides(cfg, run, issue.client, issue.key, issue.base, issue.body);
    OneStep(cfg, run, issue);
    forall step | step in steps ensures WillAnswer(cfg, Reached(cfg, run + [issue]), id, step) {
      var i :| 0 <= i < |steps| && steps[i] == step;
      IssuedWillAnswer(cfg, run, issue, req, to[i], lucky(to[i]), fan(to[i]));
    }
    SentWriteReturns(cfg, run + [issue], Wire(req, false, false), to, lucky, fan);
  }

  /** In every run a client can read the versions of a key from a peer and base a write on any of them,
      which is then strictly above that one and not at or below any version stored anywhere. */
  lemma ReadVersionCanBeOverwritten(cfg: Config, run: seq<Step>, p: PeerId, key: string, base: Version,
                                    c: ClientId, body: Body, targets: set<PeerId>)
    requires cfg.garbageAt > 0 && p in Reached(cfg, run).peers && key in Reached(cfg, run).peers[p].db
    requires base in VersionsOf(Reached(cfg, run).peers[p].db[key])
    ensures var s := Reached(cfg, run + [ReadVersions(p, key)]);
            var v := NewRequest(s, c, key, base, body).version;
            && Enabled(cfg, s, Issue(c, key, base, body, targets)) && Less(base.vv, v.vv)
            && forall q, k, w :: q in s.peers && k in s.peers[q].db && w in VersionsOf(s.peers[q].db[k]) ==>
                 !Leq(v.vv, w.vv)
  {
    var after := run + [ReadVersions(p, key)];
    var s := Reached(cfg, after);
    OneStep(cfg, run, ReadVersions(p, key));
    FreshnessOverRuns(cfg, after);
    RegistrationNeverCollides(cfg, after, c, key, base, body);
    IssueIsFresh(s, c, key, base, body, base.vv);
    forall q, k, w | q in s.peers && k in s.peers[q].db && w in VersionsOf(s.peers[q].db[k])
      ensures !Leq(NewRequest(s, c, key, base, body).version.vv, w.vv)
    {
      StoredIsBounded(s.peers[q].db[k], s.clocks, w);
      IssueIsFresh(s, c, key, base, body, w.vv);
    }
  }

  lemma StoredIsBounded(value: Value, clocks: map<ClientId, nat>, w: Version)
    requires ValueBounded(value, clocks) && w in VersionsOf(value)
    ensures Bounded(w.vv, clocks)
  {
    if value.FileValue? {
      var i :| 0 <= i < |value.siblings| && value.siblings[i].version == w;
      assert value.siblings[i] in value.siblings;
    }
  }

  /** Whenever a write is waited for, it can be sent again and return, with those counted so far
      and the peers that accept it now. */
  lemma ResentWriteReturns(cfg: Config, run: seq<Step>, targets: set<PeerId>, req: Request, to: seq<PeerId>,
                           lucky: PeerId -> bool, fan: PeerId -> set<PeerId>)
    requires cfg.garbageAt > 0 && req in Reached(cfg, run).issued && req.Id() in Reached(cfg, run).pending
    requires forall i, j :: 0 <= i < j < |to| ==> to[i] != to[j]
    requires forall p :: p in to ==> p in targets && Accepts(cfg, Reached(cfg, run), p, req, true)
    ensures var steps := Deliveries(Wire(req, true, false), to, lucky, fan);
            var resent := run + [Resend(req.Id(), targets)];
            var s' := Reached(cfg, resent + steps + Answers(req.Id(), steps) + [Return(req.Id(), |to|)]);
            && req.Id() in s'.acked
            && s'.acked[req.Id()] == Ack(|to|, Reached(cfg, run).pending[req.Id()] + set p | p in to)
  {
    var s, w, resend := Reached(cfg, run), Wire(req, true, false), Resend(req.Id(), targets);
    var steps := Deliveries(w, to, lucky, fan);
    OneStep(cfg, run, resend);
    ResendSends(cfg, run, targets, req);
    forall step | step in steps ensures WillAnswer(cfg, Reached(cfg, run + [resend]), req.Id(), step) {
      var i :| 0 <= i < |steps| && steps[i] == step;
      assert to[i] in to && Packet(to[i], w) in Packets(targets, w);
    }
    SentWriteReturns(cfg, run + [resend], w, to, lucky, fan);
  }

  /** A retransmission carries the write it is for: no other has its key and version. */
  lemma ResendSends(cfg: Config, run: seq<Step>, targets: set<PeerId>, req: Request)
    requires cfg.garbageAt > 0 && req in Reached(cfg, run).issued && req.Id() in Reached(cfg, run).pending
    ensures var s := Reached(cfg, run);
            After(cfg, s, Resend(req.Id(), targets)) ==
            s.(packets := s.packets + Packets(targets, Wire(req, true, false)))
  {
    var s := Reached(cfg, run);
    forall r | r in s.issued && r.Id() == req.Id() ensures r == req {
      var i :| 0 <= i < |s.issued| && s.issued[i] == req;
      var j :| 0 <= j < |s.issued| && s.issued[j] == r;
      if i != j { WritesHaveDistinctVectors(cfg, run, i, j); }
    }
  }

  lemma OneStep(cfg: Config, run: seq<Step>, step: Step)
    requires cfg.garbageAt > 0
    ensures Reached(cfg, run + [step]) == After(cfg, Reached(cfg, run), step)
  {
    assert (run + [step])[..|run|] == run;
  }

  lemma SentWriteReturns(cfg: Config, run: seq<Step>, w: Wire, to: seq<PeerId>, lucky: PeerId -> bool,
                         fan: PeerId -> set<PeerId>)
    requires cfg.garbageAt > 0 && w.req.Id() in Reached(cfg, run).pending
    requires forall i, j :: 0 <= i < j < |to| ==> to[i] != to[j]
    requires forall step :: step in Deliveries(w, to, lucky, fan) ==> WillAnswer(cfg, Reached(cfg, run), w.req.Id(), step)
    ensures var id, steps := w.req.Id(), Deliveries(w, to, lucky, fan);
            var s' := Reached(cfg, run + steps + Answers(id, steps) + [Return(id, |to|)]);
            id in s'.acked && s'.acked[id] == Ack(|to|, Reached(cfg, run).pending[id] + set p | p in to)
  {
    var id, steps := w.req.Id(), Deliveries(w, to, lucky, fan);
    AnsweredWriteReturns(cfg, run, id, steps);
    ReceiversOf(w, to, lucky, fan);
    OneStep(cfg, run + steps + Answers(id, steps), Return(id, |to|));
  }

  lemma ReceiversOf(w: Wire, to: seq<PeerId>, lucky: PeerId -> bool, fan: PeerId -> set<PeerId>)
    ensures Receivers(Deliveries(w, to, lucky, fan)) == set p | p in to
  {
    var steps := Deliveries(w, to, lucky, fan);
    forall p | p in to ensures p in Receivers(steps) {
      var i :| 0 <= i < |to| && to[i] == p;
      assert steps[i] in steps;
    }
  }
}
