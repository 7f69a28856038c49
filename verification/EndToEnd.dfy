/** Results that span the components: quorum reads see acknowledged writes, a store of many keys
refines the history of each of them, and keys are routed to peers that answer for them.
*/
module EndToEnd {
  import opened Common
  import opened Versions
  import opened Siblings
  import opened Slices
  import opened Store
  import opened Handlers
  import opened ReadHandlers
  import opened Protocol
  import opened Durability
  import opened Convergence
  import opened ClientReads
  import opened Groups
  import opened LB = LoadBalancer
  import GC = GroupConstruction

  // ----- reads after writes

  lemma QuorumsMeet(w: set<PeerId>, r: set<PeerId>, all: set<PeerId>) returns (p: PeerId)
    requires w <= all && r <= all && |w| + |r| > |all|
    ensures p in w && p in r
  {
    CardinalityDecides(w + r, all);
    assert |w + r| == |w| + |r| - |w * r|;
    p :| p in w * r;
  }

  /** The peers that answer for the key. */
  function Slice(cfg: Config, key: string): set<PeerId> {
    set p | p in cfg.peers && cfg.mine(p, key)
  }

  /** The peers counted for an acknowledged write that did not refuse it. */
  ghost function NotRefusing(s: State, id: StoreKey): set<PeerId>
    requires id in s.acked
  {
    set p | p in s.acked[id].repliers && !Refused(s, p, id)
  }

  /** What a peer can answer to a query for the latest versions of the key. */
  function LatestAt(cfg: Config, s: State, p: PeerId, key: string): Option<Answer>
    requires p in s.peers
  {
    Lookup(s.peers[p].db, cfg.mine(p, key), Read(ReqId(""), key, LatestVersions))
  }

  lemma AnswerCovers(cfg: Config, s: State, p: PeerId, id: StoreKey) returns (v: Version)
    requires Covered(s, p, id) && LatestAt(cfg, s, p, id.key).Some?
    ensures v in LatestAt(cfg, s, p, id.key).value.versions && Leq(id.version.vv, v.vv)
  {
    var value := s.peers[p].db[id.key];
    match value
    case DirValue(e) => v := e.version; assert VersionsOf(value)[0] == v;
    case FileValue(siblings) =>
      var i :| 0 <= i < |siblings| && Leq(id.version.vv, siblings[i].version.vv);
      v := siblings[i].version;
      assert VersionsOf(value)[i] == v;
  }

  /** The replies to a read hold what each of `readers` answered at some time after the run: peer
      `p` answered when `at(p)` of the later steps had been taken. */
  ghost predicate RepliesHold(cfg: Config, run: seq<Step>, more: seq<Step>, at: PeerId -> nat,
                              readers: set<PeerId>, key: string, replies: seq<Version>)
    requires cfg.garbageAt > 0
  {
    forall p :: p in readers ==> at(p) <= |more| && AnsweredAt(cfg, Reached(cfg, run + more[..at(p)]), p, key, replies)
  }

  ghost predicate AnsweredAt(cfg: Config, s: State, p: PeerId, key: string, replies: seq<Version>) {
    && p in s.peers && LatestAt(cfg, s, p, key).Some?
    && forall v :: v in LatestAt(cfg, s, p, key).value.versions ==> v in replies
  }

  lemma ReadersAreInSlice(cfg: Config, run: seq<Step>, more: seq<Step>, at: PeerId -> nat,
                          readers: set<PeerId>, key: string, replies: seq<Version>)
    requires cfg.garbageAt > 0 && RepliesHold(cfg, run, more, at, readers, key, replies)
    ensures readers <= Slice(cfg, key)
  {
    forall p | p in readers ensures p in Slice(cfg, key) {
      SafetyOverRuns(cfg, run + more[..at(p)]);
      assert AnsweredAt(cfg, Reached(cfg, run + more[..at(p)]), p, key, replies);
    }
  }

  /** Peers of the key's slice that store the write or a newer version. */
  ghost predicate Hold(cfg: Config, s: State, holders: set<PeerId>, id: StoreKey) {
    forall p :: p in holders ==> p in Slice(cfg, id.key) && Covered(s, p, id)
  }

  lemma SomeReplyCovers(cfg: Config, run: seq<Step>, more: seq<Step>, at: PeerId -> nat, holders: set<PeerId>,
                        readers: set<PeerId>, id: StoreKey, replies: seq<Version>) returns (v: Version)
    requires cfg.garbageAt > 0 && Hold(cfg, Reached(cfg, run), holders, id)
    requires |holders| + |readers| > |Slice(cfg, id.key)|
    requires RepliesHold(cfg, run, more, at, readers, id.key, replies)
    ensures v in replies && Leq(id.version.vv, v.vv)
  {
    ReadersAreInSlice(cfg, run, more, at, readers, id.key, replies);
    var p := QuorumsMeet(holders, readers, Slice(cfg, id.key));
    RunExtends(cfg, run, more[..at(p)], p, id);
    assert AnsweredAt(cfg, Reached(cfg, run + more[..at(p)]), p, id.key, replies);
    v := AnswerCovers(cfg, Reached(cfg, run + more[..at(p)]), p, id);
  }

  /** A read that hears from peers which, with the holders of a write, exceed the key's slice finds
      the write or a newer one among its candidates, and returns such a version if the replies form
      a chain. */
  lemma QuorumReadSeesHeldWrite(cfg: Config, run: seq<Step>, more: seq<Step>, at: PeerId -> nat, holders: set<PeerId>,
                                readers: set<PeerId>, id: StoreKey, replies: seq<Version>)
    requires cfg.garbageAt > 0 && Hold(cfg, Reached(cfg, run), holders, id)
    requires |holders| + |readers| > |Slice(cfg, id.key)|
    requires RepliesHold(cfg, run, more, at, readers, id.key, replies)
    ensures Covers(Candidates(replies, []), id.version.vv)
    ensures Chain(Alive(replies, [])) ==> Leq(id.version.vv, Selected(replies, []).vv)
  {
    var v := SomeReplyCovers(cfg, run, more, at, holders, readers, id, replies);
    ReadOf(replies, v, id.version.vv);
  }

  /** For a write of any kind that was not retransmitted the number of replies it waited for is
      enough: a read of more than the rest of the slice sees it. */
  lemma QuorumReadSeesAckedWrite(cfg: Config, run: seq<Step>, more: seq<Step>, at: PeerId -> nat,
                                 readers: set<PeerId>, id: StoreKey, replies: seq<Version>)
    requires cfg.garbageAt > 0 && NeverResent(run, id) && id in Reached(cfg, run).acked
    requires Reached(cfg, run).acked[id].waitFor + |readers| > |Slice(cfg, id.key)|
    requires RepliesHold(cfg, run, more, at, readers, id.key, replies)
    ensures Covers(Candidates(replies, []), id.version.vv)
    ensures Chain(Alive(replies, [])) ==> Leq(id.version.vv, Selected(replies, []).vv)
  {
    QuorumDurabilityWithoutResend(cfg, run, [], id);
    QuorumReadSeesHeldWrite(cfg, run, more, at, Reached(cfg, run).acked[id].repliers, readers, id, replies);
  }

  /** So it is for a whole put on a key of one file type, retransmitted or not. */
  lemma QuorumReadSeesAckedPut(cfg: Config, run: seq<Step>, more: seq<Step>, at: PeerId -> nat,
                               readers: set<PeerId>, req: Request, replies: seq<Version>)
    requires cfg.garbageAt > 0 && req in Reached(cfg, run).issued && req.PutRequest?
    requires IssuedAs(Reached(cfg, run), req.key, req.Id().fileType) && req.Id() in Reached(cfg, run).acked
    requires Reached(cfg, run).acked[req.Id()].waitFor + |readers| > |Slice(cfg, req.key)|
    requires RepliesHold(cfg, run, more, at, readers, req.key, replies)
    ensures Covers(Candidates(replies, []), req.version.vv)
    ensures Chain(Alive(replies, [])) ==> Leq(req.version.vv, Selected(replies, []).vv)
  {
    var s, id := Reached(cfg, run), req.Id();
    forall p ensures !Refused(s, p, id) { PutsAreNeverRefused(cfg, run, req, p); }
    QuorumDurability(cfg, run, [], id);
    QuorumReadSeesHeldWrite(cfg, run, more, at, s.acked[id].repliers, readers, id, replies);
  }

  /** And for any other write the counted peers that did not refuse it take the place of all. */
  lemma QuorumReadSeesResentWrite(cfg: Config, run: seq<Step>, more: seq<Step>, at: PeerId -> nat,
                                  readers: set<PeerId>, id: StoreKey, replies: seq<Version>)
    requires cfg.garbageAt > 0 && id in Reached(cfg, run).acked
    requires |NotRefusing(Reached(cfg, run), id)| + |readers| > |Slice(cfg, id.key)|
    requires RepliesHold(cfg, run, more, at, readers, id.key, replies)
    ensures Covers(Candidates(replies, []), id.version.vv)
    ensures Chain(Alive(replies, [])) ==> Leq(id.version.vv, Selected(replies, []).vv)
  {
    QuorumDurability(cfg, run, [], id);
    QuorumReadSeesHeldWrite(cfg, run, more, at, NotRefusing(Reached(cfg, run), id), readers, id, replies);
  }

  lemma ReadOf(replies: seq<Version>, v: Version, w: VersionVector)
    requires v in replies && Leq(w, v.vv)
    ensures Covers(Candidates(replies, []), w)
    ensures Chain(Alive(replies, [])) ==> Leq(w, Selected(replies, []).vv)
  {
    var c := Candidates(replies, []);
    assert Covers(c, v.vv) by { CandidatesCoverReplies(replies, []); }
    var i :| 0 <= i < |c| && Leq(v.vv, c[i].version.vv);
    assert Leq(w, c[i].version.vv);
    AliveIsFilter(replies, [], v);
    if Chain(Alive(replies, [])) { ChainSelectsGreatest(replies, []); }
  }

  /** Every file payload that a peer answers to a read of one version, in every run, is that of the
      issued put with this key and version. */
  lemma AnsweredPayloadWasIssued(cfg: Config, run: seq<Step>, p: PeerId, log: RequestLog, requestsAt: nat,
                                 w: ReadWire, lucky: bool, smart: bool, bytes: Bytes)
    requires cfg.garbageAt > 0 && requestsAt > 0 && p in Reached(cfg, run).peers && w.read.query.DataOfVersion?
    requires HandleRead(Reached(cfg, run).peers[p].db, log, cfg.mine(p, w.read.key), requestsAt, w, lucky, smart).answer
             == Some(Data(FilePayload(bytes)))
    ensures PutRequest(w.read.key, w.read.query.version, FilePayload(bytes)) in Reached(cfg, run).issued
  {
    var db := Reached(cfg, run).peers[p].db;
    DataAnswerIsStored(db, log, cfg.mine(p, w.read.key), requestsAt, w, lucky, smart);
    StoredDataWasIssued(cfg, run, p, w.read.key, w.read.query.version, bytes);
  }

  // ----- a store of many keys

  /** A file put as it reaches the store. */
  datatype FilePut = FilePut(key: string, sibling: Sibling<Bytes>)

  function DbAfter(puts: seq<FilePut>): Db {
    if puts == [] then map[]
    else
      var p := puts[|puts| - 1];
      PutDb(DbAfter(puts[..|puts| - 1]), p.key, p.sibling.version, FilePayload(p.sibling.data)).db
  }

  /** The puts of one key, in order. */
  function History(puts: seq<FilePut>, key: string): seq<Sibling<Bytes>> {
    if puts == [] then []
    else
      var before, p := History(puts[..|puts| - 1], key), puts[|puts| - 1];
      if p.key == key then before + [p.sibling] else before
  }

  /** Under each key the store holds exactly the sibling list of that key's own history. */
  lemma {:induction false} StoreRefinesHistories(puts: seq<FilePut>, key: string)
    ensures key in DbAfter(puts) <==> History(puts, key) != []
    ensures key in DbAfter(puts) ==> DbAfter(puts)[key] == FileValue(AfterPuts(History(puts, key)))
  {
    if puts == [] {
    } else {
      var front, p := puts[..|puts| - 1], puts[|puts| - 1];
      StoreRefinesHistories(front, key);
      if p.key == key {
        var before := History(front, key);
        assert (before + [p.sibling])[..|before|] == before;
        if before == [] { assert AfterPuts([p.sibling]) == [p.sibling]; }
      }
    }
  }

  /** Two replicas whose puts on a key are the same, whatever else they stored and in whatever
      order, answer reads of the key with the same maximal vectors. */
  lemma ReplicasAgreeOnFrontier(puts: seq<FilePut>, puts': seq<FilePut>, key: string)
    requires forall x :: x in History(puts, key) <==> x in History(puts', key)
    ensures key in DbAfter(puts) <==> key in DbAfter(puts')
    ensures key in DbAfter(puts) ==>
      && DbAfter(puts)[key].FileValue? && DbAfter(puts')[key].FileValue?
      && Frontier(Vectors(DbAfter(puts)[key].siblings)) == Frontier(Vectors(DbAfter(puts')[key].siblings))
  {
    StoreRefinesHistories(puts, key);
    StoreRefinesHistories(puts', key);
    var h, h' := History(puts, key), History(puts', key);
    assert h != [] ==> h[0] in h;
    assert h' != [] ==> h'[0] in h';
    SameWritesSameFrontier(h, h');
  }

  // ----- routing

  /** A client and a peer that agree on the number of groups agree on who answers for a key: every
      peer in the slot the client picks has the key in its slice. */
  lemma RoutedPeerIsResponsible(lb: LB.SmartLoadBalancer, peer: GC.GroupConstruction, key: string, p: PeerData)
    requires lb.Valid() && peer.Valid() && lb.nrGroups == peer.nrGroups
    requires p.pos == peer.position
    requires peer.store.Routes(key)
    requires var slice := SliceOf(peer.store.hash(key), lb.nrGroups);
             1 <= slice <= |lb.view| && p in lb.view[slice - 1]
    ensures peer.store.Mine(key)
  {
  }
}
