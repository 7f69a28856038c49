/** Convergence over whole runs: peers that cover every write of a key agree on its frontier, if it is
a file, and on its vector, if it is a directory, whatever they received and in which order.
*/
module Convergence {
  import opened Common
  import opened Versions
  import opened Siblings
  import opened Directories
  import opened Store
  import opened Handlers
  import opened Protocol
  import opened Freshness
  import opened Durability

  // ----- everything stored goes back to issued writes

  /** The vector is below every upper bound of the issued writes of the key. */
  ghost predicate BelowIssued(issued: seq<Request>, key: string, v: VersionVector) {
    forall w: VersionVector :: BoundsIssued(issued, key, w) ==> Leq(v, w)
  }

  ghost predicate BoundsIssued(issued: seq<Request>, key: string, w: VersionVector) {
    forall r :: r in issued && r.key == key ==> Leq(r.version.vv, w)
  }

  /** A file is sent as it was issued, a directory with a join of issued vectors. */
  ghost predicate RequestTraced(issued: seq<Request>, req: Request) {
    if req.PutRequest? && req.payload.FilePayload? then req in issued
    else BelowIssued(issued, req.key, req.version.vv)
  }

  ghost predicate ValueTraced(issued: seq<Request>, key: string, value: Value) {
    match value
    case FileValue(s) => forall x :: x in s ==> PutRequest(key, x.version, FilePayload(x.data)) in issued
    case DirValue(e) => BelowIssued(issued, key, e.version.vv)
  }

  ghost predicate DbTraced(issued: seq<Request>, db: Db) {
    forall k :: k in db ==> ValueTraced(issued, k, db[k])
  }

  ghost predicate Traced(s: State) {
    && (forall p :: p in s.peers ==> DbTraced(s.issued, s.peers[p].db))
    && (forall t :: t in s.transfers ==> RequestTraced(s.issued, t))
  }

  lemma IssuedIsTraced(issued: seq<Request>, req: Request)
    requires req in issued
    ensures RequestTraced(issued, req)
  {
  }

  lemma JoinBelowIssued(issued: seq<Request>, key: string, a: VersionVector, b: VersionVector)
    requires BelowIssued(issued, key, a) && BelowIssued(issued, key, b)
    ensures BelowIssued(issued, key, Join(a, b))
  {
    forall w: VersionVector | BoundsIssued(issued, key, w) ensures Leq(Join(a, b), w) {
      JoinIsLub(a, b, w);
    }
  }

  lemma FilePutTraced(issued: seq<Request>, s: seq<Sibling<Bytes>>, key: string, e: Sibling<Bytes>)
    requires ValueTraced(issued, key, FileValue(s)) && PutRequest(key, e.version, FilePayload(e.data)) in issued
    ensures ValueTraced(issued, key, FileValue(Placed(s, e)))
  {
    forall x | x in Placed(s, e) ensures PutRequest(key, x.version, FilePayload(x.data)) in issued {
      PlacedOnlyAdds(s, e, x);
    }
  }

  lemma DirWriteTraced(issued: seq<Request>, e: DirEntry, key: string, op: DirOp)
    requires BelowIssued(issued, key, e.version.vv) && BelowIssued(issued, key, op.version.vv)
    ensures BelowIssued(issued, key, Applied(e, op).version.vv)
  {
    AppliedJoins(e, op);
    JoinBelowIssued(issued, key, e.version.vv, op.version.vv);
  }

  lemma StoreStaysTraced(issued: seq<Request>, db: Db, req: Request)
    requires DbTraced(issued, db) && RequestTraced(issued, req)
    ensures DbTraced(issued, StoreDb(db, req).db)
  {
    if req.key in db {
      assert ValueTraced(issued, req.key, db[req.key]);
      match db[req.key]
      case FileValue(s) =>
        if req.PutRequest? && req.payload.FilePayload? {
          FilePutTraced(issued, s, req.key, Sibling(req.version, req.payload.bytes));
        }
      case DirValue(e) =>
        match req
        case PutRequest(key, v, DirPayload(met)) => DirWriteTraced(issued, e, key, PutDir(v, met));
        case PutRequest(_, _, FilePayload(_)) =>
        case ChildRequest(key, v, child, isCreate, isDir) =>
          DirWriteTraced(issued, e, key, PutChild(v, child, isCreate, isDir));
    }
  }

  lemma MoreIssued(issued: seq<Request>, req: Request, db: Db)
    requires DbTraced(issued, db)
    ensures DbTraced(issued + [req], db)
  {
    forall k | k in db ensures ValueTraced(issued + [req], k, db[k]) {
      assert ValueTraced(issued, k, db[k]);
      MoreBounds(issued, req, k);
    }
  }

  lemma MoreBounds(issued: seq<Request>, req: Request, key: string)
    ensures forall v: VersionVector :: BelowIssued(issued, key, v) ==> BelowIssued(issued + [req], key, v)
  {
    forall w: VersionVector | BoundsIssued(issued + [req], key, w) ensures BoundsIssued(issued, key, w) {
      forall r | r in issued && r.key == key ensures Leq(r.version.vv, w) { assert r in issued + [req]; }
    }
  }

  lemma HeldIsTraced(issued: seq<Request>, db: Db, t: Request)
    requires DbTraced(issued, db) && Holds(db, t)
    ensures RequestTraced(issued, t)
  {
    assert ValueTraced(issued, t.key, db[t.key]);
  }

  lemma IssueKeepsTraced(cfg: Config, s: State, step: Step)
    requires cfg.garbageAt > 0 && Traced(s) && step.Issue? && Enabled(cfg, s, step)
    ensures Traced(After(cfg, s, step))
  {
    var req := NewRequest(s, step.client, step.key, step.base, step.body);
    forall p | p in s.peers ensures DbTraced(s.issued + [req], s.peers[p].db) {
      MoreIssued(s.issued, req, s.peers[p].db);
    }
    forall t | t in s.transfers ensures RequestTraced(s.issued + [req], t) {
      MoreBounds(s.issued, req, t.key);
    }
  }

  lemma StepKeepsTraced(cfg: Config, s: State, step: Step)
    requires cfg.garbageAt > 0 && Fresh(s) && Traced(s)
    ensures Traced(After(cfg, s, step))
  {
    if Enabled(cfg, s, step) {
      if step.Issue? {
        IssueKeepsTraced(cfg, s, step);
      } else if step.Deliver? {
        IssuedIsTraced(s.issued, step.packet.wire.req);
        StoreStaysTraced(s.issued, s.peers[step.packet.to].db, step.packet.wire.req);
      } else if step.Accept? {
        StoreStaysTraced(s.issued, s.peers[step.to].db, step.transfer);
      } else if step.Offer? {
        HeldIsTraced(s.issued, s.peers[step.from].db, step.transfer);
      }
    }
  }

  lemma {:induction false} TracedOverRuns(cfg: Config, run: seq<Step>)
    requires cfg.garbageAt > 0
    ensures Traced(Reached(cfg, run))
  {
    if run == [] {
    } else {
      var before := run[..|run| - 1];
      TracedOverRuns(cfg, before);
      FreshnessOverRuns(cfg, before);
      StepKeepsTraced(cfg, Reached(cfg, before), run[|run| - 1]);
    }
  }

  // ----- what reads return

  /** In every run, the bytes that a peer stores first under a version of a file are those of the
      issued put with this version. */
  lemma StoredDataWasIssued(cfg: Config, run: seq<Step>, p: PeerId, key: string, v: Version, bytes: Bytes)
    requires cfg.garbageAt > 0 && p in Reached(cfg, run).peers
    requires IsFirstStored(Reached(cfg, run).peers[p].db, key, v, FilePayload(bytes))
    ensures PutRequest(key, v, FilePayload(bytes)) in Reached(cfg, run).issued
  {
    var s := Reached(cfg, run);
    TracedOverRuns(cfg, run);
    assert ValueTraced(s.issued, key, s.peers[p].db[key]);
    var list := s.peers[p].db[key].siblings;
    var i :| FirstWith(list, v, i) && bytes == list[i].data;
    assert list[i] in list;
  }

  /** So a read of the version of an issued file put returns the bytes of that put, whichever peer
      answers it. */
  lemma ReadReturnsWrittenBytes(cfg: Config, run: seq<Step>, p: PeerId, req: Request, bytes: Bytes)
    requires cfg.garbageAt > 0 && p in Reached(cfg, run).peers
    requires req in Reached(cfg, run).issued && req.PutRequest?
    requires IsFirstStored(Reached(cfg, run).peers[p].db, req.key, req.version, FilePayload(bytes))
    ensures req.payload == FilePayload(bytes)
  {
    var issued := Reached(cfg, run).issued;
    StoredDataWasIssued(cfg, run, p, req.key, req.version, bytes);
    var i :| 0 <= i < |issued| && issued[i] == req;
    var j :| 0 <= j < |issued| && issued[j] == PutRequest(req.key, req.version, FilePayload(bytes));
    if i != j { WritesHaveDistinctVectors(cfg, run, i, j); }
  }

  // ----- peers that have caught up

  ghost function IssuedVectors(s: State, key: string): set<VersionVector> {
    set r | r in s.issued && r.key == key :: r.version.vv
  }

  /** The peer covers every write of the key issued so far. */
  ghost predicate CaughtUp(s: State, p: PeerId, key: string) {
    && p in s.peers && key in s.peers[p].db
    && forall r :: r in s.issued && r.key == key ==> DbCovers(s.peers[p].db, key, r.version.vv)
  }

  /** In every run, the maximal vectors of a file at a peer that has caught up are the maximal
      vectors of all writes of the key. */
  lemma CaughtUpFile(cfg: Config, run: seq<Step>, p: PeerId, key: string)
    requires cfg.garbageAt > 0 && CaughtUp(Reached(cfg, run), p, key) && Reached(cfg, run).peers[p].db[key].FileValue?
    ensures Frontier(Vectors(Reached(cfg, run).peers[p].db[key].siblings)) ==
            Frontier(IssuedVectors(Reached(cfg, run), key))
  {
    var s := Reached(cfg, run);
    var list := s.peers[p].db[key].siblings;
    TracedOverRuns(cfg, run);
    assert ValueTraced(s.issued, key, s.peers[p].db[key]);
    forall v | v in Vectors(list) ensures v in IssuedVectors(s, key) {
      var x :| x in list && x.version.vv == v;
      assert PutRequest(key, x.version, FilePayload(x.data)).version.vv in IssuedVectors(s, key);
    }
    forall v | v in IssuedVectors(s, key) ensures exists w :: w in Vectors(list) && Leq(v, w) {
      var r :| r in s.issued && r.key == key && r.version.vv == v;
      assert Covers(list, v);
      var i :| 0 <= i < |list| && Leq(v, list[i].version.vv);
      assert list[i].version.vv in Vectors(list);
    }
    FrontierOfCover(Vectors(list), IssuedVectors(s, key));
  }

  /** And the vector of a directory is the join of all writes of the key. */
  lemma CaughtUpDirectory(cfg: Config, run: seq<Step>, p: PeerId, key: string)
    requires cfg.garbageAt > 0 && CaughtUp(Reached(cfg, run), p, key) && Reached(cfg, run).peers[p].db[key].DirValue?
    ensures IsLub(Reached(cfg, run).peers[p].db[key].entry.version.vv, IssuedVectors(Reached(cfg, run), key))
  {
    var s := Reached(cfg, run);
    var e := s.peers[p].db[key].entry;
    TracedOverRuns(cfg, run);
    assert ValueTraced(s.issued, key, s.peers[p].db[key]);
    forall w: VersionVector | forall v :: v in IssuedVectors(s, key) ==> Leq(v, w) ensures Leq(e.version.vv, w) {
      forall r | r in s.issued && r.key == key ensures Leq(r.version.vv, w) {
        assert r.version.vv in IssuedVectors(s, key);
      }
      assert BoundsIssued(s.issued, key, w);
    }
  }

  /** So two such peers agree. */
  lemma CaughtUpPeersAgree(cfg: Config, run: seq<Step>, p: PeerId, q: PeerId, key: string)
    requires cfg.garbageAt > 0 && CaughtUp(Reached(cfg, run), p, key) && CaughtUp(Reached(cfg, run), q, key)
    ensures match (Reached(cfg, run).peers[p].db[key], Reached(cfg, run).peers[q].db[key])
            case (FileValue(a), FileValue(b)) => Frontier(Vectors(a)) == Frontier(Vectors(b))
            case (DirValue(a), DirValue(b)) => a.version.vv == b.version.vv
            case _ => true
  {
    var s := Reached(cfg, run);
    match (s.peers[p].db[key], s.peers[q].db[key])
    case (FileValue(_), FileValue(_)) =>
      CaughtUpFile(cfg, run, p, key);
      CaughtUpFile(cfg, run, q, key);
    case (DirValue(a), DirValue(b)) =>
      CaughtUpDirectory(cfg, run, p, key);
      CaughtUpDirectory(cfg, run, q, key);
      LubIsUnique(a.version.vv, b.version.vv, IssuedVectors(s, key));
    case _ =>
  }

  // ----- catching up

  /** What a peer can send of a key by anti-entropy: each of its siblings, or its directory. */
  ghost function Sendable(key: string, value: Value): seq<Request> {
    match value
    case FileValue(s) =>
      seq(|s|, i requires 0 <= i < |s| => PutRequest(key, s[i].version, FilePayload(s[i].data)))
    case DirValue(e) => [PutRequest(key, e.version, DirPayload(e.met))]
  }

  /** The steps by which peer `q` takes over the entries `ts` of peer `p`. */
  ghost function TakeOver(p: PeerId, q: PeerId, ts: seq<Request>): seq<Step> {
    if ts == [] then [] else TakeOver(p, q, ts[..|ts| - 1]) + [Offer(p, ts[|ts| - 1]), Accept(q, ts[|ts| - 1])]
  }

  predicate IsPut(x: Request, key: string, t: FileType) {
    x.PutRequest? && x.key == key && x.Id().fileType == t
  }

  /** The peer answers for the key, can store the transfer, and has not refused it before. */
  ghost predicate Welcomes(cfg: Config, s: State, q: PeerId, t: Request) {
    && q in s.peers && cfg.mine(q, t.key) && CanStore(s.peers[q].db, t) && !Refused(s, q, t.Id())
  }

  lemma TwoSteps(cfg: Config, run: seq<Step>, before: seq<Step>, a: Step, b: Step)
    requires cfg.garbageAt > 0
    ensures Reached(cfg, run + (before + [a, b])) == After(cfg, After(cfg, Reached(cfg, run + before), a), b)
  {
    var all := run + (before + [a, b]);
    assert all[..|all| - 1] == run + before + [a] && all[|all| - 1] == b;
    assert (run + before + [a])[..|run + before|] == run + before;
  }

  /** An accepted transfer is covered afterwards, and so is one that had been accepted before; the
      database of the sender stays, and nothing that was welcome becomes unwelcome. */
  lemma TransferIsTakenOver(cfg: Config, s: State, p: PeerId, q: PeerId, t: Request, key: string)
    requires cfg.garbageAt > 0 && Safe(cfg, s) && p in s.peers && p != q && t.PutRequest? && t.key == key
    requires Holds(s.peers[p].db, t) && Welcomes(cfg, s, q, t)
    ensures var s' := After(cfg, After(cfg, s, Offer(p, t)), Accept(q, t));
            && Covered(s', q, t.Id()) && s'.peers.Keys == s.peers.Keys && s'.peers[p] == s.peers[p]
            && forall u :: IsPut(u, key, t.Id().fileType) && Welcomes(cfg, s, q, u) ==> Welcomes(cfg, s', q, u)
  {
    var mid := After(cfg, s, Offer(p, t));
    StoreAccepted(s.peers[q].db, t);
    StoreCovers(s.peers[q].db, t);
    if t.Id() in s.peers[q].seen.keys { assert Vouched(cfg, s, q, t.Id()); }
  }

  /** All of them, one after the other. */
  lemma {:induction false} TakenOverAreCovered(cfg: Config, run: seq<Step>, p: PeerId, q: PeerId, key: string,
                                               t: FileType, ts: seq<Request>)
    requires cfg.garbageAt > 0 && p in Reached(cfg, run).peers && p != q
    requires forall x :: x in ts ==> IsEntry(Reached(cfg, run), p, key, t, x) && Welcomes(cfg, Reached(cfg, run), q, x)
    ensures var s, s' := Reached(cfg, run), Reached(cfg, run + TakeOver(p, q, ts));
            && s'.peers.Keys == s.peers.Keys && s'.peers[p] == s.peers[p]
            && (forall x :: x in ts ==> Covered(s', q, x.Id()))
            && forall u :: IsEntry(s, p, key, t, u) && Welcomes(cfg, s, q, u) ==> Welcomes(cfg, s', q, u)
  {
    if ts == [] {
      assert run + TakeOver(p, q, ts) == run;
    } else {
      var front, last := ts[..|ts| - 1], ts[|ts| - 1];
      assert ts == front + [last] && last in ts;
      TakenOverAreCovered(cfg, run, p, q, key, t, front);
      var s := Reached(cfg, run + TakeOver(p, q, front));
      TwoSteps(cfg, run, TakeOver(p, q, front), Offer(p, last), Accept(q, last));
      SafetyOverRuns(cfg, run + TakeOver(p, q, front));
      TransferIsTakenOver(cfg, s, p, q, last, key);
      forall x | x in ts ensures Covered(Reached(cfg, run + TakeOver(p, q, ts)), q, x.Id()) {
        if x in front {
          StepKeepsCovered(cfg, s, Offer(p, last), q, x.Id());
          StepKeepsCovered(cfg, After(cfg, s, Offer(p, last)), Accept(q, last), q, x.Id());
        }
      }
    }
  }

  ghost predicate IsEntry(s: State, p: PeerId, key: string, t: FileType, x: Request) {
    p in s.peers && IsPut(x, key, t) && Holds(s.peers[p].db, x)
  }

  /** One exchange of a key by anti-entropy: a peer of the slice that welcomes the entries of another
      covers afterwards all that the other covered. */
  lemma AntiEntropyCatchesUp(cfg: Config, run: seq<Step>, p: PeerId, q: PeerId, key: string, v: VersionVector)
    requires cfg.garbageAt > 0 && p in Reached(cfg, run).peers && p != q
    requires DbCovers(Reached(cfg, run).peers[p].db, key, v)
    requires forall x :: x in Sendable(key, Reached(cfg, run).peers[p].db[key]) ==> Welcomes(cfg, Reached(cfg, run), q, x)
    ensures var value := Reached(cfg, run).peers[p].db[key];
            var s' := Reached(cfg, run + TakeOver(p, q, Sendable(key, value)));
            q in s'.peers && DbCovers(s'.peers[q].db, key, v)
  {
    var s := Reached(cfg, run);
    var value := s.peers[p].db[key];
    var ts, t := Sendable(key, value), if value.FileValue? then File else Directory;
    forall x | x in ts ensures IsEntry(s, p, key, t, x) {
      var i :| 0 <= i < |ts| && ts[i] == x;
      if value.FileValue? { assert value.siblings[i] in value.siblings; }
    }
    TakenOverAreCovered(cfg, run, p, q, key, t, ts);
    var i := CoveringEntry(key, value, v);
    assert ts[i] in ts;
    CoversMore(Reached(cfg, run + TakeOver(p, q, ts)).peers[q].db, key, v, ts[i].version.vv);
  }

  lemma CoveringEntry(key: string, value: Value, v: VersionVector) returns (i: nat)
    requires match value case FileValue(s) => Covers(s, v) case DirValue(e) => Leq(v, e.version.vv)
    ensures i < |Sendable(key, value)| && Leq(v, Sendable(key, value)[i].version.vv)
    ensures Sendable(key, value)[i].key == key
  {
    match value
    case FileValue(s) => i :| 0 <= i < |s| && Leq(v, s[i].version.vv);
    case DirValue(_) => i := 0;
  }

  lemma CoversMore(db: Db, key: string, v: VersionVector, w: VersionVector)
    requires DbCovers(db, key, w) && Leq(v, w)
    ensures DbCovers(db, key, v)
  {
    match db[key]
    case FileValue(s) =>
      var i :| 0 <= i < |s| && Leq(w, s[i].version.vv);
      assert Leq(v, s[i].version.vv);
    case DirValue(_) =>
  }
}
