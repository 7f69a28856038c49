/** How a peer answers one read request: look the key up, reply to the client, forward. */
module ReadHandlers {
  import opened Common
  import opened Versions
  import opened Store

  /** The latest versions of a key (`get_latest_version`), or the data of one version (`get`). */
  datatype Query = LatestVersions | DataOfVersion(version: Version)

  datatype Read = Read(id: ReqId, key: string, query: Query)

  /** A read on its way to a peer; `forwarded` as for writes. */
  datatype ReadWire = ReadWire(read: Read, forwarded: bool)

  datatype Answer = Versions(versions: seq<Version>) | Data(payload: Payload)

  /** To the peers of the own group, or to known peers of the key's slice and else the whole view. */
  datatype ReadForward = Nowhere | ToLocalView(wire: ReadWire) | ToOthers(wire: ReadWire)

  datatype HandledRead = HandledRead(log: RequestLog, answer: Option<Answer>, forward: ReadForward)

  /** What the peer could answer. A peer of the key's slice always answers a query for the latest
      versions, with none if it does not know the key. */
  function Lookup(db: Db, mine: bool, read: Read): Option<Answer> {
    match read.query
    case LatestVersions =>
      if !mine then None else Some(Versions(if read.key in db then VersionsOf(db[read.key]) else []))
    case DataOfVersion(v) =>
      var data := DataOf(db, read.key, v);
      if data.None? then None else Some(Data(data.value))
  }

  /** One handler step. `lucky` is the draw against the reply chance and `smart` says that smart
      forwarding is on and peers of the own group are known. */
  function HandleRead(db: Db, log: RequestLog, mine: bool, garbageAt: nat, w: ReadWire, lucky: bool, smart: bool)
    : HandledRead
    requires garbageAt > 0
  {
    var found := Lookup(db, mine, w.read);
    if w.read.id in log.keys then HandledRead(log, None, Nowhere)
    else
      var log' := Logged(log, garbageAt, w.read.id);
      if found.None? then HandledRead(log', None, ToOthers(w))
      else if !w.forwarded || lucky then
        HandledRead(log', found, if mine then ToLocalView(w.(forwarded := true)) else Nowhere)
      else
        var local := if w.read.query.LatestVersions? then smart else mine;
        HandledRead(log', None, if local then ToLocalView(w) else ToOthers(w))
  }

  class ReadHandler {
    const store: KvStore

    constructor (store: KvStore)
      ensures this.store == store
    {
      this.store := store;
    }

    method ProcessGetMessage(w: ReadWire, lucky: bool, smart: bool)
      returns (answer: Option<Answer>, forward: ReadForward)
      requires w.read.query.DataOfVersion? && store.requestsAt > 0 && store.Routes(w.read.key)
      modifies store`requests
      ensures HandledRead(store.requests, answer, forward) ==
              HandleRead(store.db, old(store.requests), store.Mine(w.read.key), store.requestsAt, w, lucky, smart)
    {
      answer, forward := None, Nowhere;
      var logged := store.InLog(w.read.id);
      if logged { return; }
      store.LogReq(w.read.id);
      var data := store.GetData(w.read.key, w.read.query.version);
      if data.Some? {
        if !w.forwarded || lucky {
          answer := Some(Data(data.value));
          if store.Mine(w.read.key) { forward := ToLocalView(w.(forwarded := true)); }
        } else if store.Mine(w.read.key) {
          forward := ToLocalView(w);
        } else {
          forward := ToOthers(w);
        }
      } else {
        forward := ToOthers(w);
      }
    }

    method ProcessGetLatestVersionMessage(w: ReadWire, lucky: bool, smart: bool)
      returns (answer: Option<Answer>, forward: ReadForward)
      requires w.read.query.LatestVersions? && store.requestsAt > 0 && store.Routes(w.read.key)
      modifies store`requests
      ensures HandledRead(store.requests, answer, forward) ==
              HandleRead(store.db, old(store.requests), store.Mine(w.read.key), store.requestsAt, w, lucky, smart)
    {
      answer, forward := None, Nowhere;
      var logged := store.InLog(w.read.id);
      if logged { return; }
      store.LogReq(w.read.id);
      if !store.Mine(w.read.key) { return None, ToOthers(w); }
      var versions := store.GetLatestVersion(w.read.key);
      if !w.forwarded || lucky {
        answer := Some(Versions(if versions.Some? then versions.value else []));
        forward := ToLocalView(w.(forwarded := true));
      } else if smart {
        forward := ToLocalView(w);
      } else {
        forward := ToOthers(w);
      }
    }
  }

  // ----- what one step guarantees

  /** A peer can answer a query for the latest versions if the key is in its slice, and a read of one
      version if it stores that version. */
  predicate CanAnswer(db: Db, mine: bool, read: Read) {
    match read.query
    case LatestVersions => mine
    case DataOfVersion(v) => read.key in db && v in VersionsOf(db[read.key])
  }

  /** Where a new read goes after it has been answered or not. */
  function ForwardOf(can: bool, answered: bool, mine: bool, w: ReadWire, smart: bool): ReadForward {
    if !can then ToOthers(w)
    else if answered then if mine then ToLocalView(ReadWire(w.read, true)) else Nowhere
    else if (if w.read.query.LatestVersions? then smart else mine) then ToLocalView(w)
    else ToOthers(w)
  }

  /** A new read is logged, and answered exactly if the peer can, and the group has not answered it
      yet or the draw is lucky. A logged one is dropped. */
  lemma ReadAnswerIff(db: Db, log: RequestLog, mine: bool, garbageAt: nat, w: ReadWire, lucky: bool, smart: bool)
    requires garbageAt > 0
    ensures var h := HandleRead(db, log, mine, garbageAt, w, lucky, smart);
            if w.read.id in log.keys then h == HandledRead(log, None, Nowhere)
            else
              && (h.answer.Some? <==> CanAnswer(db, mine, w.read) && (!w.forwarded || lucky))
              && h.forward == ForwardOf(CanAnswer(db, mine, w.read), h.answer.Some?, mine, w, smart)
              && h.log == Logged(log, garbageAt, w.read.id) && w.read.id in h.log.keys
  {
  }

  /** And a read of one version with the payload of the first value stored under it. */
  lemma DataAnswerIsStored(db: Db, log: RequestLog, mine: bool, garbageAt: nat, w: ReadWire, lucky: bool, smart: bool)
    requires garbageAt > 0 && w.read.query.DataOfVersion?
    requires HandleRead(db, log, mine, garbageAt, w, lucky, smart).answer.Some?
    ensures var answer := HandleRead(db, log, mine, garbageAt, w, lucky, smart).answer.value;
            answer.Data? && IsFirstStored(db, w.read.key, w.read.query.version, answer.payload)
  {
    DataIsFirstStored(db, w.read.key, w.read.query.version, DataOf(db, w.read.key, w.read.query.version).value);
  }

  /** A peer answers a query for the latest versions only for keys of its slice, and then with all
      versions it stores. */
  lemma LatestAnswerIsComplete(db: Db, log: RequestLog, mine: bool, garbageAt: nat, w: ReadWire, lucky: bool, smart: bool)
    requires garbageAt > 0 && w.read.query.LatestVersions?
    requires HandleRead(db, log, mine, garbageAt, w, lucky, smart).answer.Some?
    ensures mine
    ensures HandleRead(db, log, mine, garbageAt, w, lucky, smart).answer.value ==
            Versions(if w.read.key in db then VersionsOf(db[w.read.key]) else [])
  {
  }
}
