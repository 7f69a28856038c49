/** Quorum durability over whole runs: when a write returns, every peer it counted stores a version
at or above the written one, and keeps doing so whatever happens afterwards. If the write was
retransmitted, a counted peer may instead be one that refused it when it first handled it.
*/
module Durability {
  import opened Common
  import opened Store
  import opened Handlers
  import opened Protocol
  import opened Freshness

  ghost predicate Covered(s: State, p: PeerId, id: StoreKey) {
    p in s.peers && DbCovers(s.peers[p].db, id.key, id.version.vv)
  }

  ghost predicate Refused(s: State, p: PeerId, id: StoreKey) {
    Refusal(p, id) in s.refused
  }

  /** The peer answers for the key, and stores the write unless it once refused it. */
  ghost predicate Vouched(cfg: Config, s: State, p: PeerId, id: StoreKey) {
    p in s.peers && cfg.mine(p, id.key) && (Covered(s, p, id) || Refused(s, p, id))
  }

  /** Whoever is said to have a write has it, or refused it before. */
  ghost predicate Durable(cfg: Config, s: State) {
    && (forall r :: r in s.replies ==> Vouched(cfg, s, r.from, r.id))
    && (forall id, p :: id in s.pending && p in s.pending[id] ==> Vouched(cfg, s, p, id))
    && (forall id, p :: id in s.acked && p in s.acked[id].repliers ==> Vouched(cfg, s, p, id))
    && (forall id :: id in s.acked ==> |s.acked[id].repliers| >= s.acked[id].waitFor)
  }

  /** A request in the seen log of a peer that answers for its key is stored there, or refused. */
  ghost predicate SeenIsVouched(cfg: Config, s: State) {
    forall p, id :: p in s.peers && id in s.peers[p].seen.keys && cfg.mine(p, id.key) ==> Vouched(cfg, s, p, id)
  }

  ghost predicate Safe(cfg: Config, s: State) {
    Fresh(s) && s.peers.Keys == cfg.peers && SeenIsVouched(cfg, s) && Durable(cfg, s)
  }

  // ----- what every step keeps

  lemma StepKeepsCovered(cfg: Config, s: State, step: Step, p: PeerId, id: StoreKey)
    requires cfg.garbageAt > 0 && Covered(s, p, id)
    ensures Covered(After(cfg, s, step), p, id)
  {
    if Enabled(cfg, s, step) {
      if step.Deliver? && step.packet.to == p {
        HandleKeepsCover(s.peers[p], cfg.mine(p, step.packet.wire.req.key), cfg.garbageAt, step.packet.wire,
                         step.lucky, id.key, id.version.vv);
      } else if step.Accept? && step.to == p {
        StoreKeepsCover(s.peers[p].db, step.transfer, id.key, id.version.vv);
      }
    }
  }

  lemma StepKeepsPeers(cfg: Config, s: State, step: Step)
    requires cfg.garbageAt > 0
    ensures After(cfg, s, step).peers.Keys == s.peers.Keys
  {
  }

  lemma StepKeepsVouched(cfg: Config, s: State, step: Step, p: PeerId, id: StoreKey)
    requires cfg.garbageAt > 0 && Vouched(cfg, s, p, id)
    ensures Vouched(cfg, After(cfg, s, step), p, id)
  {
    if Covered(s, p, id) {
      StepKeepsCovered(cfg, s, step, p, id);
    }
  }

  /** Only a delivery or an accepted transfer enters a request into a seen log. */
  lemma NewlySeen(cfg: Config, s: State, step: Step, p: PeerId, id: StoreKey)
    requires cfg.garbageAt > 0 && p in After(cfg, s, step).peers
    requires id in After(cfg, s, step).peers[p].seen.keys && !(p in s.peers && id in s.peers[p].seen.keys)
    ensures Enabled(cfg, s, step) && p in s.peers
    ensures || (step.Deliver? && step.packet.to == p && step.packet.wire.req.Id() == id)
            || (step.Accept? && step.to == p && step.transfer.Id() == id)
  {
  }

  /** And then the request has been stored or refused, if it belongs to the peer's slice. */
  lemma NewlySeenIsVouched(cfg: Config, s: State, step: Step, p: PeerId, id: StoreKey)
    requires cfg.garbageAt > 0 && cfg.mine(p, id.key)
    requires p in After(cfg, s, step).peers
    requires id in After(cfg, s, step).peers[p].seen.keys && !(p in s.peers && id in s.peers[p].seen.keys)
    ensures Vouched(cfg, After(cfg, s, step), p, id)
  {
    NewlySeen(cfg, s, step, p, id);
    var req := if step.Deliver? then step.packet.wire.req else step.transfer;
    if StoreDb(s.peers[p].db, req).ok { StoreCovers(s.peers[p].db, req); }
  }

  lemma StepKeepsSeen(cfg: Config, s: State, step: Step)
    requires cfg.garbageAt > 0 && SeenIsVouched(cfg, s)
    ensures SeenIsVouched(cfg, After(cfg, s, step))
  {
    var s' := After(cfg, s, step);
    forall p, id | p in s'.peers && id in s'.peers[p].seen.keys && cfg.mine(p, id.key)
      ensures Vouched(cfg, s', p, id)
    {
      if p in s.peers && id in s.peers[p].seen.keys {
        StepKeepsVouched(cfg, s, step, p, id);
      } else {
        NewlySeenIsVouched(cfg, s, step, p, id);
      }
    }
  }

  /** A reply comes from a peer that answers for the key, and is truthful, to a first transmission
      and to a retry alike, unless the peer refused the write before. */
  lemma ReplyIsTruthful(cfg: Config, s: State, packet: Packet, lucky: bool)
    requires cfg.garbageAt > 0 && SeenIsVouched(cfg, s)
    requires packet.to in s.peers && HandledBy(cfg, s, packet, lucky).replied
    ensures cfg.mine(packet.to, packet.wire.req.key)
    ensures || DbCovers(HandledBy(cfg, s, packet, lucky).peer.db, packet.wire.req.key, packet.wire.req.version.vv)
            || Refused(s, packet.to, packet.wire.req.Id())
  {
    var p, w := s.peers[packet.to], packet.wire;
    var mine := cfg.mine(packet.to, w.req.key);
    if w.req.Id() in p.seen.keys {
      assert mine ==> Vouched(cfg, s, packet.to, w.req.Id());
    } else {
      FirstReplyIsTruthful(p, mine, cfg.garbageAt, w, lucky);
    }
  }

  /** A reply in the network after a step was there before, or its sender has just stored. */
  lemma StepKeepsReplies(cfg: Config, s: State, step: Step, r: Reply)
    requires cfg.garbageAt > 0 && Safe(cfg, s) && r in After(cfg, s, step).replies
    ensures Vouched(cfg, After(cfg, s, step), r.from, r.id)
  {
    if r in s.replies {
      StepKeepsVouched(cfg, s, step, r.from, r.id);
    } else {
      ReplyIsTruthful(cfg, s, step.packet, step.lucky);
    }
  }

  /** What clients count comes from replies. */
  lemma CountedReplied(cfg: Config, s: State, step: Step, id: StoreKey, p: PeerId)
    requires cfg.garbageAt > 0 && Durable(cfg, s)
    ensures id in After(cfg, s, step).pending && p in After(cfg, s, step).pending[id] ==> Vouched(cfg, s, p, id)
    ensures id in After(cfg, s, step).acked && p in After(cfg, s, step).acked[id].repliers ==> Vouched(cfg, s, p, id)
  {
  }

  lemma StepKeepsDurable(cfg: Config, s: State, step: Step)
    requires cfg.garbageAt > 0 && Safe(cfg, s)
    ensures Durable(cfg, After(cfg, s, step))
  {
    var s' := After(cfg, s, step);
    forall r | r in s'.replies ensures Vouched(cfg, s', r.from, r.id) {
      StepKeepsReplies(cfg, s, step, r);
    }
    forall id, p | id in s'.pending && p in s'.pending[id] ensures Vouched(cfg, s', p, id) {
      CountedReplied(cfg, s, step, id, p);
      StepKeepsVouched(cfg, s, step, p, id);
    }
    forall id, p | id in s'.acked && p in s'.acked[id].repliers ensures Vouched(cfg, s', p, id) {
      CountedReplied(cfg, s, step, id, p);
      StepKeepsVouched(cfg, s, step, p, id);
    }
  }

  lemma {:induction false} SafetyOverRuns(cfg: Config, run: seq<Step>)
    requires cfg.garbageAt > 0
    ensures Safe(cfg, Reached(cfg, run))
  {
    FreshnessOverRuns(cfg, run);
    if run == [] {
    } else {
      var s, step := Reached(cfg, run[..|run| - 1]), run[|run| - 1];
      SafetyOverRuns(cfg, run[..|run| - 1]);
      StepKeepsPeers(cfg, s, step);
      StepKeepsSeen(cfg, s, step);
      StepKeepsDurable(cfg, s, step);
    }
  }

  // ----- the theorem

  /** What a peer covers it covers for the rest of the run. */
  lemma {:induction false} RunExtends(cfg: Config, run: seq<Step>, more: seq<Step>, p: PeerId, id: StoreKey)
    requires cfg.garbageAt > 0 && Covered(Reached(cfg, run), p, id)
    ensures Covered(Reached(cfg, run + more), p, id)
  {
    if more == [] {
      assert run + more == run;
    } else {
      var before := more[..|more| - 1];
      assert (run + more)[..|run + more| - 1] == run + before;
      RunExtends(cfg, run, before, p, id);
      StepKeepsCovered(cfg, Reached(cfg, run + before), more[|more| - 1], p, id);
    }
  }

  /** If a write returned in a run, retransmitted or not, at least `waitFor` distinct peers of the
      key's slice replied, and every one of them that did not refuse it stores a version at or
      above it, then and after any continuation of the run. */
  lemma QuorumDurability(cfg: Config, run: seq<Step>, more: seq<Step>, id: StoreKey)
    requires cfg.garbageAt > 0 && id in Reached(cfg, run).acked
    ensures var s := Reached(cfg, run);
            var ack := s.acked[id];
            && |ack.repliers| >= ack.waitFor
            && (forall p :: p in ack.repliers ==> p in cfg.peers && cfg.mine(p, id.key))
            && (forall p :: p in ack.repliers && !Refused(s, p, id) ==>
                  Covered(s, p, id) && Covered(Reached(cfg, run + more), p, id))
  {
    var s := Reached(cfg, run);
    SafetyOverRuns(cfg, run);
    forall p | p in s.acked[id].repliers ensures p in cfg.peers && cfg.mine(p, id.key) {
      assert Vouched(cfg, s, p, id);
    }
    forall p | p in s.acked[id].repliers && !Refused(s, p, id)
      ensures Covered(s, p, id) && Covered(Reached(cfg, run + more), p, id)
    {
      RunExtends(cfg, run, more, p, id);
    }
  }

  // ----- writes that are not retransmitted

  /** The write is never sent again after a timeout. */
  ghost predicate NeverResent(run: seq<Step>, id: StoreKey) {
    forall step :: step in run && step.Resend? ==> step.id != id
  }

  /** No retransmission of the write is in the network, and whoever is said to have it has it. */
  ghost predicate FirstTry(s: State, id: StoreKey) {
    && (forall k :: k in s.packets && k.wire.req.Id() == id ==> !k.wire.extra)
    && (forall r :: r in s.replies && r.id == id ==> Covered(s, r.from, id))
    && (id in s.pending ==> forall p :: p in s.pending[id] ==> Covered(s, p, id))
    && (id in s.acked ==> forall p :: p in s.acked[id].repliers ==> Covered(s, p, id))
  }

  lemma NoExtraPackets(cfg: Config, s: State, step: Step, id: StoreKey, k: Packet)
    requires cfg.garbageAt > 0 && FirstTry(s, id) && !(step.Resend? && step.id == id)
    requires k in After(cfg, s, step).packets && k.wire.req.Id() == id
    ensures !k.wire.extra
  {
  }

  lemma FirstRepliesCover(cfg: Config, s: State, step: Step, id: StoreKey, r: Reply)
    requires cfg.garbageAt > 0 && FirstTry(s, id) && r in After(cfg, s, step).replies && r.id == id
    ensures Covered(After(cfg, s, step), r.from, id)
  {
    if r in s.replies {
      StepKeepsCovered(cfg, s, step, r.from, id);
    } else {
      var to, w := step.packet.to, step.packet.wire;
      FirstReplyIsTruthful(s.peers[to], cfg.mine(to, w.req.key), cfg.garbageAt, w, step.lucky);
    }
  }

  /** What clients count for the write comes from replies to it. */
  lemma CountedCover(cfg: Config, s: State, step: Step, id: StoreKey, p: PeerId)
    requires cfg.garbageAt > 0 && FirstTry(s, id)
    ensures id in After(cfg, s, step).pending && p in After(cfg, s, step).pending[id] ==> Covered(s, p, id)
    ensures id in After(cfg, s, step).acked && p in After(cfg, s, step).acked[id].repliers ==> Covered(s, p, id)
  {
  }

  lemma StepKeepsFirstTry(cfg: Config, s: State, step: Step, id: StoreKey)
    requires cfg.garbageAt > 0 && FirstTry(s, id) && !(step.Resend? && step.id == id)
    ensures FirstTry(After(cfg, s, step), id)
  {
    var s' := After(cfg, s, step);
    forall k | k in s'.packets && k.wire.req.Id() == id ensures !k.wire.extra {
      NoExtraPackets(cfg, s, step, id, k);
    }
    forall r | r in s'.replies && r.id == id ensures Covered(s', r.from, id) {
      FirstRepliesCover(cfg, s, step, id, r);
    }
    forall p
      ensures id in s'.pending && p in s'.pending[id] ==> Covered(s', p, id)
      ensures id in s'.acked && p in s'.acked[id].repliers ==> Covered(s', p, id)
    {
      CountedCover(cfg, s, step, id, p);
      if Covered(s, p, id) { StepKeepsCovered(cfg, s, step, p, id); }
    }
  }

  lemma {:induction false} FirstTryOverRuns(cfg: Config, run: seq<Step>, id: StoreKey)
    requires cfg.garbageAt > 0 && NeverResent(run, id)
    ensures FirstTry(Reached(cfg, run), id)
  {
    if run == [] {
    } else {
      var before, step := run[..|run| - 1], run[|run| - 1];
      assert step in run && forall x :: x in before ==> x in run;
      FirstTryOverRuns(cfg, before, id);
      StepKeepsFirstTry(cfg, Reached(cfg, before), step, id);
    }
  }

  /** If a write of any kind returned in a run without having been retransmitted, at least `waitFor`
      distinct peers of the key's slice store a version at or above it, then and after any
      continuation of the run. */
  lemma QuorumDurabilityWithoutResend(cfg: Config, run: seq<Step>, more: seq<Step>, id: StoreKey)
    requires cfg.garbageAt > 0 && NeverResent(run, id) && id in Reached(cfg, run).acked
    ensures var ack := Reached(cfg, run).acked[id];
            && |ack.repliers| >= ack.waitFor
            && forall p :: p in ack.repliers ==>
                 && p in cfg.peers && cfg.mine(p, id.key)
                 && Covered(Reached(cfg, run), p, id) && Covered(Reached(cfg, run + more), p, id)
  {
    QuorumDurability(cfg, run, more, id);
    FirstTryOverRuns(cfg, run, id);
    forall p | p in Reached(cfg, run).acked[id].repliers ensures Covered(Reached(cfg, run + more), p, id) {
      RunExtends(cfg, run, more, p, id);
    }
  }

  // ----- whole puts are never refused

  /** All writes of the key so far are of one file type. */
  ghost predicate IssuedAs(s: State, key: string, t: FileType) {
    forall r :: r in s.issued && r.key == key ==> r.Id().fileType == t
  }

  /** What follows for the rest of the system: only child writes of the key are refused. */
  ghost predicate KeptAs(s: State, key: string, t: FileType) {
    && IssuedAs(s, key, t)
    && (forall r :: r in s.transfers && r.key == key ==> r.PutRequest? && r.Id().fileType == t)
    && (forall p :: p in s.peers && key in s.peers[p].db ==> (s.peers[p].db[key].FileValue? <==> t == File))
    && (forall x :: x in s.refused && x.id.key == key ==>
          exists r :: r in s.issued && r.ChildRequest? && r.Id() == x.id)
  }

  lemma StoreKeepsType(db: Db, req: Request, key: string, t: FileType)
    requires key in db ==> (db[key].FileValue? <==> t == File)
    requires req.key == key ==> req.Id().fileType == t
    ensures key in StoreDb(db, req).db ==> (StoreDb(db, req).db[key].FileValue? <==> t == File)
    ensures req.key == key && req.PutRequest? ==> StoreDb(db, req).ok
  {
  }

  lemma RefusalIsChild(cfg: Config, s: State, step: Step, key: string, t: FileType, x: Refusal)
    requires cfg.garbageAt > 0 && Fresh(s) && KeptAs(s, key, t) && x.id.key == key
    requires x in After(cfg, s, step).refused
    ensures exists r :: r in After(cfg, s, step).issued && r.ChildRequest? && r.Id() == x.id
  {
    var s' := After(cfg, s, step);
    if x in s.refused {
      var r :| r in s.issued && r.ChildRequest? && r.Id() == x.id;
      assert r in s'.issued;
    } else if step.Deliver? {
      StoreKeepsType(s.peers[step.packet.to].db, step.packet.wire.req, key, t);
      assert step.packet.wire.req in s'.issued;
    } else {
      StoreKeepsType(s.peers[step.to].db, step.transfer, key, t);
    }
  }

  lemma StepKeepsType(cfg: Config, s: State, step: Step, key: string, t: FileType)
    requires cfg.garbageAt > 0 && Fresh(s) && KeptAs(s, key, t) && IssuedAs(After(cfg, s, step), key, t)
    ensures KeptAs(After(cfg, s, step), key, t)
  {
    var s' := After(cfg, s, step);
    forall x | x in s'.refused && x.id.key == key
      ensures exists r :: r in s'.issued && r.ChildRequest? && r.Id() == x.id
    {
      RefusalIsChild(cfg, s, step, key, t, x);
    }
    if Enabled(cfg, s, step) {
      if step.Deliver? {
        StoreKeepsType(s.peers[step.packet.to].db, step.packet.wire.req, key, t);
      } else if step.Accept? {
        StoreKeepsType(s.peers[step.to].db, step.transfer, key, t);
      }
    }
  }

  lemma {:induction false} TypesOverRuns(cfg: Config, run: seq<Step>, key: string, t: FileType)
    requires cfg.garbageAt > 0 && IssuedAs(Reached(cfg, run), key, t)
    ensures KeptAs(Reached(cfg, run), key, t)
  {
    if run == [] {
    } else {
      var s, step := Reached(cfg, run[..|run| - 1]), run[|run| - 1];
      assert forall r :: r in s.issued ==> r in After(cfg, s, step).issued;
      FreshnessOverRuns(cfg, run[..|run| - 1]);
      TypesOverRuns(cfg, run[..|run| - 1], key, t);
      StepKeepsType(cfg, s, step, key, t);
    }
  }

  /** Two issued requests with one identity are the same request. */
  lemma IdentityIsUnique(s: State, a: Request, b: Request)
    requires IssuedInOrder(s) && a in s.issued && b in s.issued && a.Id() == b.Id()
    ensures a == b
  {
  }

  /** On a key that is used with one file type no peer refuses a whole put, so every peer that is
      counted for it stores it. */
  lemma PutsAreNeverRefused(cfg: Config, run: seq<Step>, req: Request, p: PeerId)
    requires cfg.garbageAt > 0 && req in Reached(cfg, run).issued && req.PutRequest?
    requires IssuedAs(Reached(cfg, run), req.key, req.Id().fileType)
    ensures !Refused(Reached(cfg, run), p, req.Id())
  {
    var s := Reached(cfg, run);
    TypesOverRuns(cfg, run, req.key, req.Id().fileType);
    FreshnessOverRuns(cfg, run);
    if Refused(s, p, req.Id()) {
      assert Refusal(p, req.Id()) in s.refused;
      var r :| r in s.issued && r.ChildRequest? && r.Id() == req.Id();
      IdentityIsUnique(s, r, req);
    }
  }

  // ----- who refuses a child write

  ghost predicate HoldsDirectory(s: State, p: PeerId, key: string) {
    p in s.peers && key in s.peers[p].db && s.peers[p].db[key].DirValue?
  }

  lemma StoreKeepsDirectory(db: Db, req: Request, key: string)
    requires key in db && db[key].DirValue?
    ensures key in StoreDb(db, req).db && StoreDb(db, req).db[key].DirValue?
    ensures req.key == key && req.Id().fileType == Directory ==> StoreDb(db, req).ok
  {
  }

  lemma HolderDoesNotRefuse(cfg: Config, s: State, step: Step, p: PeerId, id: StoreKey)
    requires cfg.garbageAt > 0 && id.fileType == Directory && HoldsDirectory(s, p, id.key)
    ensures HoldsDirectory(After(cfg, s, step), p, id.key)
    ensures Refused(After(cfg, s, step), p, id) ==> Refused(s, p, id)
  {
    if Enabled(cfg, s, step) {
      if step.Deliver? && step.packet.to == p {
        StoreKeepsDirectory(s.peers[p].db, step.packet.wire.req, id.key);
      } else if step.Accept? && step.to == p {
        StoreKeepsDirectory(s.peers[p].db, step.transfer, id.key);
      }
    }
  }

  /** A peer that holds the directory refuses no further write of it, so its acknowledgements can be
      trusted in every continuation of the run. */
  lemma {:induction false} HoldersNeverRefuse(cfg: Config, run: seq<Step>, more: seq<Step>, p: PeerId, id: StoreKey)
    requires cfg.garbageAt > 0 && id.fileType == Directory
    requires HoldsDirectory(Reached(cfg, run), p, id.key) && !Refused(Reached(cfg, run), p, id)
    ensures HoldsDirectory(Reached(cfg, run + more), p, id.key) && !Refused(Reached(cfg, run + more), p, id)
  {
    if more == [] {
      assert run + more == run;
    } else {
      var before := more[..|more| - 1];
      assert (run + more)[..|run + more| - 1] == run + before;
      HoldersNeverRefuse(cfg, run, before, p, id);
      HolderDoesNotRefuse(cfg, Reached(cfg, run + before), more[|more| - 1], p, id);
    }
  }
}
