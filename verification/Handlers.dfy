/** How a peer answers one write request: store it, reply to the client, forward it. */
module Handlers {
  import opened Common
  import opened Versions
  import opened DirMetadata
  import opened Directories
  import opened Siblings
  import opened Store

  /** A client's write: a whole value (`client::put`) or a directory child (`client::put_child`). */
  datatype Request =
    | PutRequest(key: string, version: Version, payload: Payload)
    | ChildRequest(key: string, version: Version, child: string, isCreate: bool, isDir: bool)
  {
    function Id(): StoreKey {
      StoreKey(key, version, if PutRequest? then payload.FileType() else Directory)
    }
  }

  /** A request on its way to a peer. `extra` marks a retransmission after a timeout, `forwarded`
      one that a peer of the group has already answered. */
  datatype Wire = Wire(req: Request, extra: bool, forwarded: bool)

  datatype Peer = Peer(db: Db, seen: SeenLog)

  datatype Forward = Nowhere | ToSliceView(wire: Wire) | ToDecider(wire: Wire)

  datatype Handled = Handled(peer: Peer, replied: bool, forward: Forward)

  function StoreDb(db: Db, req: Request): Outcome {
    match req
    case PutRequest(key, v, payload) => PutDb(db, key, v, payload)
    case ChildRequest(key, v, child, isCreate, isDir) => ChildDb(db, key, v, child, isCreate, isDir)
  }

  /** One handler step. `mine` says whether the key is in the peer's slice and `lucky` is the draw
      against the reply chance. */
  function Handle(p: Peer, mine: bool, garbageAt: nat, w: Wire, lucky: bool): Handled
    requires garbageAt > 0
  {
    var id := w.req.Id();
    if id !in p.seen.keys then
      var out := if mine then StoreDb(p.db, w.req) else Outcome(false, p.db);
      var p' := Peer(out.db, Logged(p.seen, garbageAt, id));
      var replied := out.ok && (!w.forwarded || lucky);
      Handled(p', replied,
              if out.ok then ToSliceView(w.(forwarded := w.forwarded || replied)) else ToDecider(w))
    else if !w.extra then Handled(p, false, Nowhere)
    else if mine && ClaimsVersion(p.db, w.req.key, w.req.version) then
      Handled(p, !w.forwarded || lucky, Nowhere)
    else Handled(p, false, ToDecider(w))
  }

  /** The peer's database admits the write: a whole value where the key is absent or of its type, a
      child where there is a directory. */
  predicate CanStore(db: Db, req: Request) {
    match req
    case PutRequest(key, _, payload) => Admits(db, key, payload.FileType())
    case ChildRequest(key, _, _, _, _) => key in db && db[key].DirValue?
  }

  /** The version is equal to a stored version of the key, or compares with it as given. */
  predicate Compares(db: Db, key: string, v: Version, strict: Comparison) {
    && key in db
    && exists i :: 0 <= i < |VersionsOf(db[key])| && Compare(v, VersionsOf(db[key])[i]) in {Equal, strict}
  }

  lemma StoreAccepted(db: Db, req: Request)
    ensures StoreDb(db, req).ok <==> CanStore(db, req)
    ensures OnlyAt(db, StoreDb(db, req), req.key)
  {
    match req
    case PutRequest(key, v, payload) => PutAccepted(db, key, v, payload);
    case ChildRequest(key, v, child, isCreate, isDir) => ChildAccepted(db, key, v, child, isCreate, isDir);
  }

  /** A request that the peer has not seen is answered exactly if it is stored, and the group has not
      answered it yet or the draw is lucky. Stored, it goes on to the slice marked as answered: the
      mark is set with the reply, and without a reply it was there before. Otherwise it goes to the
      decider as it came. It is logged either way. */
  lemma FirstAnswerIff(p: Peer, mine: bool, garbageAt: nat, w: Wire, lucky: bool)
    requires garbageAt > 0 && w.req.Id() !in p.seen.keys
    ensures var h := Handle(p, mine, garbageAt, w, lucky);
            var stored := mine && CanStore(p.db, w.req);
            && (h.replied <==> stored && (!w.forwarded || lucky))
            && h.forward == (if stored then ToSliceView(Wire(w.req, w.extra, true)) else ToDecider(w))
            && h.peer.seen == Logged(p.seen, garbageAt, w.req.Id()) && w.req.Id() in h.peer.seen.keys
            && h.peer.db == (if !stored then p.db else match w.req
                             case PutRequest(key, v, payload) => PutDb(p.db, key, v, payload).db
                             case ChildRequest(key, v, child, isCreate, isDir) =>
                               ChildDb(p.db, key, v, child, isCreate, isDir).db)
  {
    StoreAccepted(p.db, w.req);
  }

  /** A request that the peer has seen changes nothing there. It is answered exactly if it is a
      retransmission for the peer's slice that is equal to or bigger than a stored version, and the
      group has not answered it yet or the draw is lucky; a retransmission that is not goes to the
      decider. */
  lemma LoggedAnswerIff(p: Peer, mine: bool, garbageAt: nat, w: Wire, lucky: bool)
    requires garbageAt > 0 && w.req.Id() in p.seen.keys
    ensures var h := Handle(p, mine, garbageAt, w, lucky);
            var claimed := mine && Compares(p.db, w.req.key, w.req.version, Bigger);
            && h.peer == p
            && (h.replied <==> w.extra && claimed && (!w.forwarded || lucky))
            && h.forward == (if w.extra && !claimed then ToDecider(w) else Nowhere)
  {
    ClaimIsComparison(p.db, w.req.key, w.req.version);
  }

  /** `process_put_message` and `process_put_child_message`, on the store of the peer. */
  class DataHandler {
    const store: KvStore

    constructor (store: KvStore)
      ensures this.store == store
    {
      this.store := store;
    }

    method ProcessPutMessage(w: Wire, lucky: bool) returns (replied: bool, forward: Forward)
      requires w.req.PutRequest? && store.garbageAt > 0 && store.Routes(w.req.key)
      modifies store`db, store`seen
      ensures Handled(Peer(store.db, store.seen), replied, forward) ==
              Handle(Peer(old(store.db), old(store.seen)), old(store.Mine(w.req.key)), store.garbageAt, w, lucky)
      ensures w.req.Id() !in old(store.seen.keys) ==>
        var stored := old(store.Mine(w.req.key)) && CanStore(old(store.db), w.req);
        && (replied <==> stored && (!w.forwarded || lucky))
        && forward == if stored then ToSliceView(Wire(w.req, w.extra, true)) else ToDecider(w)
      ensures w.req.Id() in old(store.seen.keys) && !w.extra ==> !replied && forward == Nowhere
    {
      if w.req.Id() !in store.seen.keys { StoreAccepted(store.db, w.req); }
      replied, forward := false, Nowhere;
      var msg := w;
      var key, version := w.req.key, w.req.version;
      var have := store.HaveSeen(w.req.Id());
      if !have {
        var stored := store.Put(key, version, w.req.payload);
        if stored {
          if !w.forwarded || lucky {
            replied := true;
            msg := msg.(forwarded := true);
          }
          forward := ToSliceView(msg);
        } else {
          forward := ToDecider(msg);
        }
      } else if w.extra {
        var exists' := store.VerifyIfVersionExists(key, version);
        if store.Mine(key) && exists' {
          replied := !w.forwarded || lucky;
        } else {
          forward := ToDecider(msg);
        }
      }
    }

    method ProcessPutChildMessage(w: Wire, lucky: bool) returns (replied: bool, forward: Forward)
      requires w.req.ChildRequest? && store.garbageAt > 0 && store.Routes(w.req.key)
      modifies store`db, store`seen
      ensures Handled(Peer(store.db, store.seen), replied, forward) ==
              Handle(Peer(old(store.db), old(store.seen)), old(store.Mine(w.req.key)), store.garbageAt, w, lucky)
      ensures w.req.Id() !in old(store.seen.keys) ==>
        var stored := old(store.Mine(w.req.key)) && CanStore(old(store.db), w.req);
        && (replied <==> stored && (!w.forwarded || lucky))
        && forward == if stored then ToSliceView(Wire(w.req, w.extra, true)) else ToDecider(w)
      ensures w.req.Id() in old(store.seen.keys) && !w.extra ==> !replied && forward == Nowhere
    {
      if w.req.Id() !in store.seen.keys { StoreAccepted(store.db, w.req); }
      replied, forward := false, Nowhere;
      var msg := w;
      var key, version := w.req.key, w.req.version;
      var have := store.HaveSeen(w.req.Id());
      if !have {
        var stored := store.PutMetadataChild(key, version, w.req.child, w.req.isCreate, w.req.isDir);
        if stored {
          if !w.forwarded || lucky {
            replied := true;
            msg := msg.(forwarded := true);
          }
          forward := ToSliceView(msg);
        } else {
          forward := ToDecider(msg);
        }
      } else if w.extra {
        var exists' := store.VerifyIfVersionExists(key, version);
        if store.Mine(key) && exists' {
          replied := !w.forwarded || lucky;
        } else {
          forward := ToDecider(msg);
        }
      }
    }
  }

  // ----- what one step guarantees

  lemma StoreCovers(db: Db, req: Request)
    requires StoreDb(db, req).ok
    ensures DbCovers(StoreDb(db, req).db, req.key, req.version.vv)
  {
    match req
    case PutRequest(key, v, payload) => PutCovers(db, key, v, payload);
    case ChildRequest(key, v, child, isCreate, isDir) => ChildCovers(db, key, v, child, isCreate, isDir);
  }

  lemma StoreKeepsCover(db: Db, req: Request, k: string, w: VersionVector)
    requires DbCovers(db, k, w)
    ensures DbCovers(StoreDb(db, req).db, k, w)
  {
    match req
    case PutRequest(key, v, payload) => PutKeepsCover(db, key, v, payload, k, w);
    case ChildRequest(key, v, child, isCreate, isDir) => ChildKeepsCover(db, key, v, child, isCreate, isDir, k, w);
  }

  lemma HandleKeepsCover(p: Peer, mine: bool, garbageAt: nat, w: Wire, lucky: bool, k: string, v: VersionVector)
    requires garbageAt > 0 && DbCovers(p.db, k, v)
    ensures DbCovers(Handle(p, mine, garbageAt, w, lucky).peer.db, k, v)
  {
    StoreKeepsCover(p.db, w.req, k, v);
  }

  /** A reply to a first transmission is always truthful. */
  lemma FirstReplyIsTruthful(p: Peer, mine: bool, garbageAt: nat, w: Wire, lucky: bool)
    requires garbageAt > 0 && Handle(p, mine, garbageAt, w, lucky).replied
    requires w.req.Id() !in p.seen.keys || !w.extra
    ensures DbCovers(Handle(p, mine, garbageAt, w, lucky).peer.db, w.req.key, w.req.version.vv)
  {
    StoreCovers(p.db, w.req);
  }

  /** A logged write is acknowledged on retransmission only where it is equal to or bigger than a
      stored version, and the acknowledgement is truthful exactly where it is equal to or lower
      than one. On a directory, which has one version, that leaves equality. */
  lemma RetryIsTruthfulIff(p: Peer, mine: bool, garbageAt: nat, w: Wire, lucky: bool)
    requires garbageAt > 0 && Handle(p, mine, garbageAt, w, lucky).replied && w.req.Id() in p.seen.keys
    ensures Compares(p.db, w.req.key, w.req.version, Bigger)
    ensures DbCovers(Handle(p, mine, garbageAt, w, lucky).peer.db, w.req.key, w.req.version.vv) <==>
            Compares(p.db, w.req.key, w.req.version, Lower)
    ensures p.db[w.req.key].DirValue? ==>
              (Compares(p.db, w.req.key, w.req.version, Lower) <==>
               p.db[w.req.key].entry.version.vv == w.req.version.vv)
  {
    ClaimIsComparison(p.db, w.req.key, w.req.version);
    CoverIsComparison(p.db, w.req.key, w.req.version);
  }

  lemma ClaimIsComparison(db: Db, key: string, v: Version)
    ensures ClaimsVersion(db, key, v) <==> Compares(db, key, v, Bigger)
  {
    if key in db {
      forall i | 0 <= i < |VersionsOf(db[key])|
        ensures Leq(VersionsOf(db[key])[i].vv, v.vv) <==> Compare(v, VersionsOf(db[key])[i]) in {Equal, Bigger}
      {
        CompareIsDual(v, VersionsOf(db[key])[i]);
      }
    }
  }

  lemma CoverIsComparison(db: Db, key: string, v: Version)
    ensures DbCovers(db, key, v.vv) <==> Compares(db, key, v, Lower)
    ensures key in db && db[key].DirValue? ==> VersionsOf(db[key]) == [db[key].entry.version]
  {
    if DbCovers(db, key, v.vv) {
      var i := match db[key] {
        case DirValue(_) => 0
        case FileValue(s) => var i :| 0 <= i < |s| && Leq(v.vv, s[i].version.vv); i
      };
      assert Leq(v.vv, VersionsOf(db[key])[i].vv);
    }
    if Compares(db, key, v, Lower) {
      var i :| 0 <= i < |VersionsOf(db[key])| && Leq(v.vv, VersionsOf(db[key])[i].vv);
      assert db[key].FileValue? ==> Leq(v.vv, db[key].siblings[i].version.vv);
    }
  }

  /** A reply to a retransmission need not be: a child write that failed because the directory was
      missing is acknowledged on retry once an older version of the directory has arrived. */
  lemma RetriedChildCanBeAckedUncovered()
    returns (dir: Request, child: Request, p: Peer)
    ensures dir.PutRequest? && child.ChildRequest? && dir.key == child.key
    ensures
      var p0 := Peer(map[], Log({}, 0));
      var p1 := Handle(p0, true, 100, Wire(child, false, false), false).peer;
      var p2 := Handle(p1, true, 100, Wire(dir, false, false), false).peer;
      var h := Handle(p2, true, 100, Wire(child, true, false), false);
      p == h.peer && h.replied && !DbCovers(p.db, child.key, child.version.vv)
  {
    var c, d := ClientId(1), ClientId(2);
    var v1, v2 := Version(map[c := 1], c), Version(map[c := 1, d := 1], d);
    var now := Time(0, 0);
    var met := Metadata(Attr(now, now, now, []), map[]);
    dir, child := PutRequest("/d", v1, DirPayload(met)), ChildRequest("/d", v2, "f", true, false);
    var p0 := Peer(map[], Log({}, 0));
    var p1 := Handle(p0, true, 100, Wire(child, false, false), false).peer;
    assert p1.db == map[] && p1.seen.keys == {child.Id()};
    assert dir.Id() != child.Id() by { assert d !in v1.vv && d in v2.vv; }
    var p2 := Handle(p1, true, 100, Wire(dir, false, false), false).peer;
    assert p2.db["/d"] == DirValue(DirEntry(v1, met)) && child.Id() in p2.seen.keys;
    assert VersionsOf(p2.db["/d"])[0] == v1 && Leq(v1.vv, v2.vv);
    assert d in v2.vv && d !in v1.vv;
    p := Handle(p2, true, 100, Wire(child, true, false), false).peer;
    assert p == p2;
  }

  /** Nor for a whole put: a directory put on a key that holds a file is refused, and acknowledged
      on retry because the file's version is older. */
  lemma RetriedPutCanBeAckedUncovered()
    returns (file: Request, dir: Request, p: Peer)
    ensures file.PutRequest? && dir.PutRequest? && file.key == dir.key
    ensures
      var p0 := Peer(map[], Log({}, 0));
      var p1 := Handle(p0, true, 100, Wire(file, false, false), false).peer;
      var p2 := Handle(p1, true, 100, Wire(dir, false, false), false).peer;
      var h := Handle(p2, true, 100, Wire(dir, true, false), false);
      p == h.peer && h.replied && !DbCovers(p.db, dir.key, dir.version.vv)
  {
    var c, d := ClientId(1), ClientId(2);
    var v1, v2 := Version(map[c := 1], c), Version(map[c := 1, d := 1], d);
    var now := Time(0, 0);
    file, dir := PutRequest("/d", v1, FilePayload([])), PutRequest("/d", v2, DirPayload(Metadata(Attr(now, now, now, []), map[])));
    var p0 := Peer(map[], Log({}, 0));
    var p1 := Handle(p0, true, 100, Wire(file, false, false), false).peer;
    assert p1.db == map["/d" := FileValue([Sibling(v1, [])])] && p1.seen.keys == {file.Id()};
    var p2 := Handle(p1, true, 100, Wire(dir, false, false), false).peer;
    assert p2.db == p1.db && dir.Id() in p2.seen.keys;
    assert VersionsOf(p2.db["/d"]) == [v1];
    assert VersionsOf(p2.db["/d"])[0] == v1 && Leq(v1.vv, v2.vv);
    assert d in v2.vv && d !in v1.vv;
    p := Handle(p2, true, 100, Wire(dir, true, false), false).peer;
    assert p == p2;
    CoverIsComparison(p.db, "/d", v2);
  }
}
