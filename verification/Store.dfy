/** The key-value store of one peer: file siblings and directory entries by key, the log of seen
requests, and the partition the peer answers for. Each method is proved against a function of
the database, and the functions are what the protocol modules reason about.
*/
module Store {
  import opened Common
  import opened Versions
  import opened Siblings
  import opened DirMetadata
  import opened Directories
  import opened Slices

  datatype Value = FileValue(siblings: seq<Sibling<Bytes>>) | DirValue(entry: DirEntry)

  type Db = map<string, Value>

  datatype Payload = FilePayload(bytes: Bytes) | DirPayload(met: Metadata) {
    function FileType(): FileType {
      if FilePayload? then File else Directory
    }
  }

  /** A request as the seen logs and the client's reply tables know it. */
  datatype StoreKey = StoreKey(key: string, version: Version, fileType: FileType)

  /** The answer of a store operation and the database after it. */
  datatype Outcome = Outcome(ok: bool, db: Db)

  // ----- database operations

  function PutDb(db: Db, key: string, v: Version, payload: Payload): Outcome {
    match payload
    case FilePayload(bytes) =>
      if key !in db then Outcome(true, db[key := FileValue([Sibling(v, bytes)])])
      else (
        match db[key]
        case FileValue(s) => Outcome(true, db[key := FileValue(Placed(s, Sibling(v, bytes)))])
        case DirValue(_) => Outcome(false, db)
      )
    case DirPayload(met) =>
      if key !in db then Outcome(true, db[key := DirValue(DirEntry(v, met))])
      else DirDb(db, key, PutDir(v, met))
  }

  /** A directory write on a key that is present. */
  function DirDb(db: Db, key: string, op: DirOp): Outcome
    requires key in db
  {
    match db[key]
    case FileValue(_) => Outcome(false, db)
    case DirValue(e) => Outcome(true, db[key := DirValue(Applied(e, op))])
  }

  function ChildDb(db: Db, key: string, v: Version, child: string, isCreate: bool, isDir: bool): Outcome {
    if key !in db then Outcome(false, db) else DirDb(db, key, PutChild(v, child, isCreate, isDir))
  }

  /** The key is absent or holds a value of the payload's type. */
  predicate Admits(db: Db, key: string, t: FileType) {
    key in db ==> (db[key].FileValue? <==> t == File)
  }

  /** A put is refused exactly where the key holds a value of the other type, a child write exactly
      where there is no directory; no other key changes, and a refused write changes nothing. */
  lemma PutAccepted(db: Db, key: string, v: Version, payload: Payload)
    ensures PutDb(db, key, v, payload).ok <==> Admits(db, key, payload.FileType())
    ensures OnlyAt(db, PutDb(db, key, v, payload), key)
  {
  }

  lemma ChildAccepted(db: Db, key: string, v: Version, child: string, isCreate: bool, isDir: bool)
    ensures ChildDb(db, key, v, child, isCreate, isDir).ok <==> key in db && db[key].DirValue?
    ensures OnlyAt(db, ChildDb(db, key, v, child, isCreate, isDir), key)
  {
  }

  ghost predicate OnlyAt(db: Db, out: Outcome, key: string) {
    && (forall k :: k != key ==> (k in out.db <==> k in db) && (k in db ==> out.db[k] == db[k]))
    && (!out.ok ==> out.db == db)
  }

  /** The directory after a child write that is not at or below its version, child by child. */
  lemma ChildDbEdits(db: Db, key: string, v: Version, child: string, isCreate: bool, isDir: bool, p: string)
    requires key in db && db[key].DirValue?
    ensures var e, out := db[key].entry, ChildDb(db, key, v, child, isCreate, isDir).db;
            && key in out && out[key].DirValue?
            && if Leq(v.vv, e.version.vv) then out == db
               else ChildWritten(e, out[key].entry, v, child, isCreate, isDir, p)
  {
    ChildWriteEdits(db[key].entry, v, child, isCreate, isDir, p);
    if Leq(v.vv, db[key].entry.version.vv) { assert db[key := DirValue(db[key].entry)] == db; }
  }

  /** The key holds a version at or above `v`. */
  ghost predicate DbCovers(db: Db, key: string, v: VersionVector) {
    key in db &&
    match db[key]
    case FileValue(s) => Covers(s, v)
    case DirValue(e) => Leq(v, e.version.vv)
  }

  lemma PutCovers(db: Db, key: string, v: Version, payload: Payload)
    requires PutDb(db, key, v, payload).ok
    ensures DbCovers(PutDb(db, key, v, payload).db, key, v.vv)
  {
    match payload
    case FilePayload(bytes) =>
      if key in db { PlacedCovers(db[key].siblings, Sibling(v, bytes)); }
      else { assert [Sibling(v, bytes)][0].version.vv == v.vv; }
    case DirPayload(met) =>
      if key in db { AppliedIsUpperBound(db[key].entry, PutDir(v, met)); }
  }

  lemma ChildCovers(db: Db, key: string, v: Version, child: string, isCreate: bool, isDir: bool)
    requires ChildDb(db, key, v, child, isCreate, isDir).ok
    ensures DbCovers(ChildDb(db, key, v, child, isCreate, isDir).db, key, v.vv)
  {
  }

  /** Whatever is covered stays covered by every later put, of any key and type. */
  lemma PutKeepsCover(db: Db, key: string, v: Version, payload: Payload, k: string, w: VersionVector)
    requires DbCovers(db, k, w)
    ensures DbCovers(PutDb(db, key, v, payload).db, k, w)
  {
    if k == key {
      match (payload, db[key])
      case (FilePayload(bytes), FileValue(s)) => PlacedKeepsCover(s, Sibling(v, bytes), w);
      case (DirPayload(met), DirValue(e)) => AppliedIsUpperBound(e, PutDir(v, met));
      case _ =>
    }
  }

  lemma ChildKeepsCover(db: Db, key: string, v: Version, child: string, isCreate: bool, isDir: bool,
                        k: string, w: VersionVector)
    requires DbCovers(db, k, w)
    ensures DbCovers(ChildDb(db, key, v, child, isCreate, isDir).db, k, w)
  {
  }

  /** The condition for two directory puts to commute, from what the key holds. */
  ghost predicate DirectoryPutsCommute(db: Db, key: string, a: DirEntry, b: DirEntry) {
    if key !in db then OrderDoesNotMatter(a, b)
    else match db[key]
      case FileValue(_) => true
      case DirValue(e) => CommuteFrom(e, a, b)
  }

  function PutDirDb(db: Db, key: string, w: DirEntry): Outcome {
    PutDb(db, key, w.version, DirPayload(w.met))
  }

  /** Two directory puts, in opposite orders and on any database, give the same answer and the same
      database exactly under that condition. */
  lemma TwoDirectoryPutsConvergeIff(db: Db, key: string, a: DirEntry, b: DirEntry)
    ensures PutDirDb(PutDirDb(db, key, a).db, key, b) == PutDirDb(PutDirDb(db, key, b).db, key, a)
            <==> DirectoryPutsCommute(db, key, a, b)
  {
    PutDirTwice(db, key, a, b);
    PutDirTwice(db, key, b, a);
    if key !in db {
      TwoWritesConvergeIff(a, b);
      OneEntryApart(db, key, Written(a, b), Written(b, a));
    } else if db[key].DirValue? {
      var e := db[key].entry;
      TwoWritesFromAnyStartIff(e, a, b);
      OneEntryApart(db, key, Written(Written(e, a), b), Written(Written(e, b), a));
    }
  }

  lemma PutDirTwice(db: Db, key: string, a: DirEntry, b: DirEntry)
    ensures PutDirDb(PutDirDb(db, key, a).db, key, b) ==
            if key !in db then Outcome(true, db[key := DirValue(Written(a, b))])
            else match db[key]
              case FileValue(_) => Outcome(false, db)
              case DirValue(e) => Outcome(true, db[key := DirValue(Written(Written(e, a), b))])
  {
    var first := PutDirDb(db, key, a).db;
    if key !in db || db[key].DirValue? {
      var x, y := first[key].entry, Written(first[key].entry, b);
      assert first == db[key := DirValue(x)];
      assert db[key := DirValue(x)][key := DirValue(y)] == db[key := DirValue(y)];
    }
  }

  lemma OneEntryApart(db: Db, key: string, x: DirEntry, y: DirEntry)
    ensures db[key := DirValue(x)] == db[key := DirValue(y)] <==> x == y
  {
    assert db[key := DirValue(x)][key] == DirValue(x) && db[key := DirValue(y)][key] == DirValue(y);
  }

  // ----- queries

  function VersionsOf(value: Value): seq<Version> {
    match value
    case FileValue(s) => seq(|s|, i requires 0 <= i < |s| => s[i].version)
    case DirValue(e) => [e.version]
  }

  /** The answer of `verify_if_version_exists`: some stored version is at or below the asked one. */
  predicate ClaimsVersion(db: Db, key: string, v: Version) {
    key in db && exists i :: 0 <= i < |VersionsOf(db[key])| && Leq(VersionsOf(db[key])[i].vv, v.vv)
  }

  /** `get_data`: the value stored under exactly this version, if there is one. */
  function DataOf(db: Db, key: string, v: Version): (r: Option<Payload>)
    ensures r.Some? <==> key in db && v in VersionsOf(db[key])
  {
    if key !in db then None
    else match db[key]
      case DirValue(e) => if e.version == v then Some(DirPayload(e.met)) else None
      case FileValue(s) =>
        var i := IndexOfVersion(s, v);
        assert i == |s| ==> v !in VersionsOf(db[key]);
        assert i < |s| ==> VersionsOf(db[key])[i] == v;
        if i < |s| then Some(FilePayload(s[i].data)) else None
  }

  function IndexOfVersion(s: seq<Sibling<Bytes>>, v: Version): (i: nat)
    ensures i <= |s|
    ensures i < |s| ==> s[i].version == v
    ensures forall j :: 0 <= j < i ==> s[j].version != v
  {
    if s == [] || s[0].version == v then 0 else 1 + IndexOfVersion(s[1..], v)
  }

  /** The payload found under a version is that of the first stored sibling with exactly this
      version, or the metadata of a directory with exactly this version. */
  lemma DataIsFirstStored(db: Db, key: string, v: Version, payload: Payload)
    ensures DataOf(db, key, v) == Some(payload) <==> IsFirstStored(db, key, v, payload)
  {
    if key in db && db[key].FileValue? {
      var s := db[key].siblings;
      var k := IndexOfVersion(s, v);
      assert k < |s| ==> FirstWith(s, v, k);
      assert forall i :: FirstWith(s, v, i) ==> i == k;
    }
  }

  ghost predicate IsFirstStored(db: Db, key: string, v: Version, payload: Payload) {
    && key in db
    && match db[key]
       case DirValue(e) => e.version == v && payload == DirPayload(e.met)
       case FileValue(s) => exists i :: FirstWith(s, v, i) && payload == FilePayload(s[i].data)
  }

  predicate FirstWith(s: seq<Sibling<Bytes>>, v: Version, i: int) {
    0 <= i < |s| && s[i].version == v && forall j :: 0 <= j < i ==> s[j].version != v
  }

  /** The put stores its own payload where reads of its version find it: under an absent key, in the
      place of the first sibling it dominates or after siblings that are all concurrent with it, if
      no earlier sibling has the same version, and on a directory that it replaces. */
  predicate Lands(db: Db, key: string, v: Version, payload: Payload) {
    key !in db ||
    match (payload, db[key])
    case (FilePayload(_), FileValue(s)) =>
      var i := FirstBelow(s, v);
      (i < |s| || AllConcurrent(s, v)) && forall j :: 0 <= j < i ==> s[j].version != v
    case (DirPayload(_), DirValue(e)) => Less(e.version.vv, v.vv)
    case _ => false
  }

  lemma PutFileThenGet(s: seq<Sibling<Bytes>>, e: Sibling<Bytes>)
    ensures var r, i, k := Placed(s, e), FirstBelow(s, e.version), IndexOfVersion(s, e.version);
            if (i < |s| || AllConcurrent(s, e.version)) && k >= i
            then i < |r| && IndexOfVersion(r, e.version) == i && r[i] == e
            else IndexOfVersion(r, e.version) == k && |r| == |s| && (k < |s| ==> r[k] == s[k])
  {
    var r, i, k := Placed(s, e), FirstBelow(s, e.version), IndexOfVersion(s, e.version);
    var at := IndexOfVersion(r, e.version);
    if (i < |s| || AllConcurrent(s, e.version)) && k >= i {
      assert r[i] == e && forall j :: 0 <= j < i ==> r[j] == s[j];
    } else if i < |s| {
      assert r[k] == s[k] && forall j :: 0 <= j < k ==> r[j] == s[j];
    } else {
      assert r == s;
    }
  }

  /** A read of the written version after a put gives what was put, exactly if the put landed or the
      read gave that before; and it does whenever the put is what brought the version in. */
  lemma PutThenGetIff(db: Db, key: string, v: Version, payload: Payload)
    ensures var db' := PutDb(db, key, v, payload).db;
            && (DataOf(db', key, v) == Some(payload) <==>
                Lands(db, key, v, payload) || DataOf(db, key, v) == Some(payload))
            && (DataOf(db, key, v).None? && DataOf(db', key, v).Some? ==> DataOf(db', key, v) == Some(payload))
  {
    if key in db {
      match (payload, db[key])
      case (FilePayload(bytes), FileValue(s)) => PutFileThenGet(s, Sibling(v, bytes));
      case (DirPayload(met), DirValue(e)) =>
        DirWriteMerges(e, v, met);
        JoinIsLub(e.version.vv, v.vv, v.vv);
      case _ =>
    }
  }

  // ----- the logs

  /** Id of a read request. */
  datatype ReqId = ReqId(text: string)

  /** The requests handled so far, and how many since the log was emptied. */
  datatype Log<K> = Log(keys: set<K>, count: nat)

  type SeenLog = Log<StoreKey>

  type RequestLog = Log<ReqId>

  /** `seen_it` and `log_req`: every `garbageAt` requests the log is emptied before the new key goes
      in. */
  function Logged<K>(log: Log<K>, garbageAt: nat, k: K): Log<K>
    requires garbageAt > 0
  {
    if (log.count + 1) % garbageAt == 0 then Log({k}, 0)
    else Log(log.keys + {k}, log.count + 1)
  }

  function LoggedAll<K>(garbageAt: nat, ks: seq<K>): Log<K>
    requires garbageAt > 0
  {
    if ks == [] then Log({}, 0) else Logged(LoggedAll(garbageAt, ks[..|ks| - 1]), garbageAt, ks[|ks| - 1])
  }

  function Latest<K>(ks: seq<K>, m: nat): seq<K>
    requires m <= |ks|
  {
    ks[|ks| - m..]
  }

  ghost predicate HoldsLatest<K(!new)>(log: Log<K>, ks: seq<K>, m: nat) {
    m <= |ks| && forall k :: k in log.keys <==> k in Latest(ks, m)
  }

  lemma OneMoreLogged<K(!new)>(garbageAt: nat, log: Log<K>, ks: seq<K>, m: nat, k: K)
    requires log.count < garbageAt && HoldsLatest(log, ks, m)
    ensures var log' := Logged(log, garbageAt, k);
            if log.count + 1 == garbageAt then log'.count == 0 && HoldsLatest(log', ks + [k], 1)
            else log'.count == log.count + 1 && HoldsLatest(log', ks + [k], m + 1)
  {
    assert Latest(ks + [k], m + 1) == Latest(ks, m) + [k];
    assert Latest(ks + [k], 1) == [k];
  }

  lemma PositiveRounds(q: nat, n: nat)
    ensures if q == 0 then q * n == 0 else q * n == (q - 1) * n + n && (q - 1) * n >= 0
  {
  }

  /** After `q` rounds of `garbageAt` requests and `r` more a log holds exactly the latest of
      them: those of the unfinished round and the one that emptied the log, if there was one. */
  lemma {:induction false} LogHoldsLatest<K(!new)>(garbageAt: nat, ks: seq<K>, q: nat, r: nat)
    requires |ks| == q * garbageAt + r && r < garbageAt
    ensures LoggedAll(garbageAt, ks).count == r
    ensures HoldsLatest(LoggedAll(garbageAt, ks), ks, if q == 0 then r else r + 1)
    decreases q, r
  {
    PositiveRounds(q, garbageAt);
    if q > 0 || r > 0 {
      var front, last := ks[..|ks| - 1], ks[|ks| - 1];
      var q', r' := if r > 0 then q else q - 1, if r > 0 then r - 1 else garbageAt - 1;
      assert |front| == q' * garbageAt + r';
      LogHoldsLatest(garbageAt, front, q', r');
      assert ks == front + [last];
      OneMoreLogged(garbageAt, LoggedAll(garbageAt, front), front, if q' == 0 then r' else r' + 1, last);
    }
  }

  // ----- the class

  class KvStore {
    const hash: string -> nat
    const garbageAt: nat
    const requestsAt: nat
    var slice: int
    var nrSlices: int
    var db: Db
    var seen: SeenLog
    var requests: RequestLog

    constructor (hash: string -> nat, garbageAt: nat, requestsAt: nat)
      ensures this.hash == hash && this.garbageAt == garbageAt && this.requestsAt == requestsAt
      ensures slice == nrSlices == 1 && db == map[] && seen == Log({}, 0) && requests == Log({}, 0)
    {
      this.hash, this.garbageAt, this.requestsAt := hash, garbageAt, requestsAt;
      slice, nrSlices, db, seen, requests := 1, 1, map[], Log({}, 0), Log({}, 0);
    }

    /** The partition is defined and the key's hash lies in the routed range. */
    predicate Routes(key: string)
      reads this
    {
      nrSlices >= 1 && Routable(hash(key), nrSlices)
    }

    /** The key belongs to this peer's slice. */
    predicate Mine(key: string)
      requires Routes(key)
      reads this
    {
      SliceOf(hash(key), nrSlices) == slice
    }

    method UpdatePartition(p: int, np: int)
      modifies this`slice, this`nrSlices, this`seen
      ensures nrSlices == np
      ensures slice == if np != old(nrSlices) then p else old(slice)
      ensures seen == if np != old(nrSlices) then Log({}, 0) else old(seen)
    {
      if np != nrSlices {
        nrSlices := np;
        slice := p;
        seen := Log({}, 0);
      }
    }

    method HaveSeen(k: StoreKey) returns (r: bool)
      ensures r <==> k in seen.keys
    {
      r := k in seen.keys;
    }

    method SeenIt(k: StoreKey)
      requires garbageAt > 0
      modifies this`seen
      ensures seen == Logged(old(seen), garbageAt, k)
    {
      seen := seen.(count := seen.count + 1);
      if seen.count % garbageAt == 0 {
        seen := Log({}, 0);
      }
      seen := seen.(keys := seen.keys + {k});
    }

    method InLog(id: ReqId) returns (r: bool)
      ensures r <==> id in requests.keys
    {
      r := id in requests.keys;
    }

    method LogReq(id: ReqId)
      requires requestsAt > 0
      modifies this`requests
      ensures requests == Logged(old(requests), requestsAt, id)
    {
      requests := requests.(count := requests.count + 1);
      if requests.count % requestsAt == 0 {
        requests := Log({}, 0);
      }
      requests := requests.(keys := requests.keys + {id});
    }

    method Put(key: string, v: Version, payload: Payload) returns (ok: bool)
      requires garbageAt > 0 && Routes(key)
      modifies this`seen, this`db
      ensures seen == Logged(old(seen), garbageAt, StoreKey(key, v, payload.FileType()))
      ensures Outcome(ok, db) == if Mine(key) then PutDb(old(db), key, v, payload) else Outcome(false, old(db))
    {
      SeenIt(StoreKey(key, v, payload.FileType()));
      var keySlice := PeerSlice(hash(key), nrSlices);
      if slice != keySlice { return false; }
      match payload
      case DirPayload(met) =>
        ok := PutWithMerge(key, v, met);
      case FilePayload(bytes) =>
        var vd := Sibling(v, bytes);
        if key !in db {
          db := db[key := FileValue([vd])];
        } else if db[key].FileValue? {
          var siblings := Place(db[key].siblings, vd);
          db := db[key := FileValue(siblings)];
        } else {
          return false;
        }
        ok := true;
    }

    method PutWithMerge(key: string, v: Version, met: Metadata) returns (ok: bool)
      requires Routes(key)
      modifies this`db
      ensures Outcome(ok, db) ==
              if Mine(key) then PutDb(old(db), key, v, DirPayload(met)) else Outcome(false, old(db))
    {
      var keySlice := PeerSlice(hash(key), nrSlices);
      if slice != keySlice { return false; }
      if key !in db {
        db := db[key := DirValue(DirEntry(v, met))];
        return true;
      }
      if db[key].FileValue? { return false; }
      var e := db[key].entry;
      var vcomp := CompVersion(v, e.version);
      if vcomp == Concurrent {
        var merged;
        if v.clientId.n <= e.version.clientId.n {
          merged := MergeMetadata(met, e.met);
        } else {
          merged := MergeMetadata(e.met, met);
        }
        var version := MergeKv(e.version, v);
        e := DirEntry(version, merged);
      } else if vcomp == Bigger {
        e := DirEntry(v, met);
      } else {
        return true; // lower or equal: skipped
      }
      db := db[key := DirValue(e)];
      ok := true;
    }

    method PutMetadataChild(key: string, v: Version, child: string, isCreate: bool, isDir: bool)
      returns (ok: bool)
      requires garbageAt > 0 && Routes(key)
      modifies this`seen, this`db
      ensures seen == Logged(old(seen), garbageAt, StoreKey(key, v, Directory))
      ensures Outcome(ok, db) ==
              if Mine(key) then ChildDb(old(db), key, v, child, isCreate, isDir) else Outcome(false, old(db))
      ensures ok <==> Mine(key) && key in old(db) && old(db)[key].DirValue?
      ensures ok ==>
        && key in db && db[key].DirValue?
        && var e := old(db)[key].entry;
           if Leq(v.vv, e.version.vv) then db == old(db)
           else forall p :: ChildWritten(e, db[key].entry, v, child, isCreate, isDir, p)
    {
      forall p | key in db && db[key].DirValue? { ChildDbEdits(db, key, v, child, isCreate, isDir, p); }
      SeenIt(StoreKey(key, v, Directory));
      var keySlice := PeerSlice(hash(key), nrSlices);
      if slice != keySlice { return false; }
      if key !in db || db[key].FileValue? { return false; }
      var e := db[key].entry;
      var vcomp := CompVersion(v, e.version);
      if vcomp == Lower || vcomp == Equal { return true; }
      var childs := new MetadataChilds(e.met.childs);
      if isCreate { childs.AddChild(child, isDir); } else { childs.RemoveChild(child); }
      var version := MergeKv(e.version, v);
      db := db[key := DirValue(DirEntry(version, e.met.(childs := childs.childs)))];
      ok := true;
    }

    method GetLatestVersion(key: string) returns (r: Option<seq<Version>>)
      ensures r == if key in db then Some(VersionsOf(db[key])) else None
    {
      if key !in db { return None; }
      match db[key]
      case DirValue(e) => r := Some([e.version]);
      case FileValue(s) =>
        var out: seq<Version> := [];
        for i := 0 to |s|
          invariant |out| == i && forall j :: 0 <= j < i ==> out[j] == s[j].version
        {
          out := out + [s[i].version];
        }
        assert out == VersionsOf(db[key]);
        r := Some(out);
    }

    method GetData(key: string, v: Version) returns (r: Option<Payload>)
      ensures r == DataOf(db, key, v)
      ensures forall payload :: r == Some(payload) <==> IsFirstStored(db, key, v, payload)
    {
      forall payload { DataIsFirstStored(db, key, v, payload); }
      if key !in db { return None; }
      match db[key]
      case DirValue(e) =>
        var same := VersionEquals(e.version, v);
        r := if same then Some(DirPayload(e.met)) else None;
      case FileValue(s) =>
        for i := 0 to |s|
          invariant forall j :: 0 <= j < i ==> s[j].version != v
        {
          var same := VersionEquals(s[i].version, v);
          if same { return Some(FilePayload(s[i].data)); }
        }
        r := None;
    }

    method VerifyIfVersionExists(key: string, v: Version) returns (exists': bool)
      ensures exists' <==> ClaimsVersion(db, key, v)
    {
      var versions := GetLatestVersion(key);
      if versions.None? { return false; }
      for i := 0 to |versions.value|
        invariant forall j :: 0 <= j < i ==> !Leq(versions.value[j].vv, v.vv)
      {
        var comparison := CompVersion(v, versions.value[i]);
        CompareIsDual(v, versions.value[i]);
        if comparison == Equal || comparison == Bigger { return true; }
      }
      return false;
    }
  }
}
