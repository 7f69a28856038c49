/** The single entry a replica keeps for a directory key, and how replicas of it converge. */
module Directories {
  import opened Common
  import opened Versions
  import opened DirMetadata

  datatype DirEntry = DirEntry(version: Version, met: Metadata)

  /** A directory write: a whole directory (`put_with_merge`) or one child (`put_metadata_child`). */
  datatype DirOp =
    | PutDir(version: Version, met: Metadata)
    | PutChild(version: Version, child: string, isCreate: bool, isDir: bool)

  function ChildEdited(met: Metadata, child: string, isCreate: bool, isDir: bool): Metadata {
    met.(childs := if isCreate then WithChild(met.childs, child, isDir)
                   else WithoutChild(met.childs, child))
  }

  /** The entry after one write on an existing directory. */
  function Applied(e: DirEntry, op: DirOp): DirEntry {
    var comparison := Compare(op.version, e.version);
    if comparison == Lower || comparison == Equal then e
    else match op
      case PutDir(v, met) =>
        if comparison == Bigger then DirEntry(v, met)
        else DirEntry(Merged(e.version, v),
                      if v.clientId.n <= e.version.clientId.n then MergedMetadata(met, e.met)
                      else MergedMetadata(e.met, met))
      case PutChild(v, child, isCreate, isDir) =>
        DirEntry(Merged(e.version, v), ChildEdited(e.met, child, isCreate, isDir))
  }

  /** Every write moves the vector to its join with the write's vector. */
  lemma AppliedJoins(e: DirEntry, op: DirOp)
    ensures Applied(e, op).version.vv == Join(e.version.vv, op.version.vv)
  {
  }

  lemma AppliedIsUpperBound(e: DirEntry, op: DirOp)
    ensures Leq(e.version.vv, Applied(e, op).version.vv)
    ensures Leq(op.version.vv, Applied(e, op).version.vv)
  {
  }

  /** Editing a child: a created one is there, logged as added, a removed one is logged if it was
      known, and the others and the attributes stay. */
  lemma EditedChild(met: Metadata, child: string, isCreate: bool, isDir: bool, p: string)
    ensures var r := ChildEdited(met, child, isCreate, isDir);
            && r.attr == met.attr
            && (p != child ==> Get(r.childs, p) == Get(met.childs, p))
            && (p == child && isCreate ==> Get(r.childs, p) == Some(Child(if isDir then Directory else File, Added)))
            && (p == child && !isCreate ==>
                  Get(r.childs, p) == if p in met.childs then Some(Child(met.childs[p].fileType, Removed)) else None)
  {
  }

  /** A child write that is not at or below the stored version edits exactly its child and moves the
      version to the join with the smaller client id; any other changes nothing. */
  lemma ChildWriteEdits(e: DirEntry, v: Version, child: string, isCreate: bool, isDir: bool, p: string)
    ensures Leq(v.vv, e.version.vv) ==> Applied(e, PutChild(v, child, isCreate, isDir)) == e
    ensures !Leq(v.vv, e.version.vv) ==> ChildWritten(e, Applied(e, PutChild(v, child, isCreate, isDir)),
                                                      v, child, isCreate, isDir, p)
  {
    EditedChild(e.met, child, isCreate, isDir, p);
  }

  /** What the child write leaves of the entry, seen at the child `p`. */
  predicate ChildWritten(e: DirEntry, r: DirEntry, v: Version, child: string, isCreate: bool, isDir: bool, p: string) {
    && r.version.vv == Join(e.version.vv, v.vv)
    && r.version.clientId.n == (if v.clientId.n < e.version.clientId.n then v.clientId.n else e.version.clientId.n)
    && r.met.attr == e.met.attr
    && Get(r.met.childs, p) ==
       if p != child then Get(e.met.childs, p)
       else if isCreate then Some(Child(if isDir then Directory else File, Added))
       else if p in e.met.childs then Some(Child(e.met.childs[p].fileType, Removed))
       else None
  }

  /** A whole-directory write: a newer one replaces the entry, an older or equal one changes nothing,
      and of two concurrent ones that of the smaller client has priority in the merge. */
  lemma DirWriteMerges(e: DirEntry, v: Version, met: Metadata)
    ensures Leq(v.vv, e.version.vv) ==> Applied(e, PutDir(v, met)) == e
    ensures Less(e.version.vv, v.vv) ==> Applied(e, PutDir(v, met)) == DirEntry(v, met)
    ensures Compare(v, e.version) == Concurrent && v.clientId.n <= e.version.clientId.n ==>
              Applied(e, PutDir(v, met)) == DirEntry(Version(Join(e.version.vv, v.vv), v.clientId), MergedMetadata(met, e.met))
    ensures Compare(v, e.version) == Concurrent && e.version.clientId.n < v.clientId.n ==>
              Applied(e, PutDir(v, met)) == DirEntry(Version(Join(e.version.vv, v.vv), e.version.clientId), MergedMetadata(e.met, met))
  {
    if v.clientId.n == e.version.clientId.n { assert v.clientId == e.version.clientId; }
    if Leq(v.vv, e.version.vv) && Leq(e.version.vv, v.vv) { LeqAntisymmetric(v.vv, e.version.vv); }
  }

  // ----- every interleaving of writes

  function AppliedAll(e: DirEntry, ops: seq<DirOp>): DirEntry {
    if ops == [] then e else Applied(AppliedAll(e, ops[..|ops| - 1]), ops[|ops| - 1])
  }

  ghost function VectorsOf(e: DirEntry, ops: seq<DirOp>): set<VersionVector> {
    {e.version.vv} + set op | op in ops :: op.version.vv
  }

  /** After any sequence of writes the stored vector is the join of all of them. */
  lemma {:induction false} VectorIsJoinOfWrites(e: DirEntry, ops: seq<DirOp>)
    ensures IsLub(AppliedAll(e, ops).version.vv, VectorsOf(e, ops))
  {
    if ops == [] {
      assert VectorsOf(e, ops) == {e.version.vv};
    } else {
      var before, op := ops[..|ops| - 1], ops[|ops| - 1];
      var mid := AppliedAll(e, before).version.vv;
      var now := AppliedAll(e, ops).version.vv;
      VectorIsJoinOfWrites(e, before);
      AppliedJoins(AppliedAll(e, before), op);
      assert ops == before + [op];
      assert VectorsOf(e, ops) == VectorsOf(e, before) + {op.version.vv};
      forall v | v in VectorsOf(e, ops) ensures Leq(v, now) {
        JoinIsLub(mid, op.version.vv, now);
      }
      forall w: VersionVector | forall v :: v in VectorsOf(e, ops) ==> Leq(v, w) ensures Leq(now, w) {
        assert op.version.vv in VectorsOf(e, ops);
        JoinIsLub(mid, op.version.vv, w);
      }
    }
  }

  /** Replicas that start from the same directory and apply the same set of vectors, in any order
      and with any repetition, agree on the stored vector. */
  lemma DirectoryVectorsConverge(e: DirEntry, ops: seq<DirOp>, ops': seq<DirOp>)
    requires VectorsOf(e, ops) == VectorsOf(e, ops')
    ensures AppliedAll(e, ops).version.vv == AppliedAll(e, ops').version.vv
  {
    VectorIsJoinOfWrites(e, ops);
    VectorIsJoinOfWrites(e, ops');
    LubIsUnique(AppliedAll(e, ops).version.vv, AppliedAll(e, ops').version.vv, VectorsOf(e, ops));
  }

  // ----- two writes in opposite orders

  /** When two directory writes reach the same state in both orders: ordered vectors always do,
      equal vectors only if the writes are the same, and concurrent ones when the client ids
      break the tie or there is nothing to break. */
  predicate OrderDoesNotMatter(a: DirEntry, b: DirEntry) {
    match Compare(a.version, b.version)
    case Lower => true
    case Bigger => true
    case Equal => a == b
    case Concurrent =>
      || a.version.clientId != b.version.clientId
      || (a.met.attr.rest == b.met.attr.rest
          && forall p :: p in a.met.childs ==> AgreeOn(Get(a.met.childs, p), Get(b.met.childs, p)))
  }

  lemma TwoWritesConvergeIff(a: DirEntry, b: DirEntry)
    ensures Applied(a, PutDir(b.version, b.met)) == Applied(b, PutDir(a.version, a.met))
            <==> OrderDoesNotMatter(a, b)
  {
    CompareIsDual(a.version, b.version);
    MergedCommutes(a.version, b.version);
    if Compare(a.version, b.version) == Concurrent && a.version.clientId == b.version.clientId {
      MergeCommutesIff(a.met, b.met);
      assert forall p :: p !in a.met.childs ==> AgreeOn(Get(a.met.childs, p), Get(b.met.childs, p));
    }
  }

  // ----- from any stored entry

  /** What a directory write does to the stored entry. */
  datatype Effect = Skipped | Replaces | MergesFirst | MergesSecond

  /** The versions alone decide: a concurrent write has priority in the merge when its client id
      is not the larger one. */
  function EffectOf(stored: Version, v: Version): Effect {
    match Compare(v, stored)
    case Lower => Skipped
    case Equal => Skipped
    case Bigger => Replaces
    case Concurrent => if v.clientId.n <= stored.clientId.n then MergesFirst else MergesSecond
  }

  function VersionAfter(stored: Version, v: Version): Version {
    match EffectOf(stored, v)
    case Skipped => stored
    case Replaces => v
    case _ => Merged(stored, v)
  }

  function AttrAfter(effect: Effect, stored: Attr, written: Attr): Attr {
    match effect
    case Skipped => stored
    case Replaces => written
    case MergesFirst => MergedAttr(written, stored)
    case MergesSecond => MergedAttr(stored, written)
  }

  function ChildAfter(effect: Effect, stored: Option<Child>, written: Option<Child>): Option<Child> {
    match effect
    case Skipped => stored
    case Replaces => written
    case MergesFirst => Reset(Decide(written, stored))
    case MergesSecond => Reset(Decide(stored, written))
  }

  function Written(e: DirEntry, w: DirEntry): DirEntry {
    Applied(e, PutDir(w.version, w.met))
  }

  lemma WrittenByParts(e: DirEntry, w: DirEntry, p: string)
    ensures Written(e, w).version == VersionAfter(e.version, w.version)
    ensures Written(e, w).met.attr == AttrAfter(EffectOf(e.version, w.version), e.met.attr, w.met.attr)
    ensures Get(Written(e, w).met.childs, p) ==
            ChildAfter(EffectOf(e.version, w.version), Get(e.met.childs, p), Get(w.met.childs, p))
  {
    MergedChild(e.met.childs, w.met.childs, p);
    MergedChild(w.met.childs, e.met.childs, p);
  }

  /** The client id, the attributes and one child after the writes `a` and then `b`, from the
      versions and from what the three entries say about the child. */
  function ClientAfter(e: DirEntry, a: DirEntry, b: DirEntry): ClientId {
    VersionAfter(VersionAfter(e.version, a.version), b.version).clientId
  }

  function AttrFate(e: DirEntry, a: DirEntry, b: DirEntry): Attr {
    AttrAfter(EffectOf(VersionAfter(e.version, a.version), b.version),
              AttrAfter(EffectOf(e.version, a.version), e.met.attr, a.met.attr), b.met.attr)
  }

  function ChildFate(e: DirEntry, a: DirEntry, b: DirEntry, p: string): Option<Child> {
    ChildAfter(EffectOf(VersionAfter(e.version, a.version), b.version),
               ChildAfter(EffectOf(e.version, a.version), Get(e.met.childs, p), Get(a.met.childs, p)),
               Get(b.met.childs, p))
  }

  ghost predicate FatesAgree(e: DirEntry, a: DirEntry, b: DirEntry) {
    && ClientAfter(e, a, b) == ClientAfter(e, b, a)
    && AttrFate(e, a, b) == AttrFate(e, b, a)
    && forall p :: ChildFate(e, a, b, p) == ChildFate(e, b, a, p)
  }

  /** When two writes reach the same entry in both orders: always if one of them is already
      covered, under the condition on the two writes if the entry is below both, and otherwise
      child by child. */
  ghost predicate CommuteFrom(e: DirEntry, a: DirEntry, b: DirEntry) {
    if Leq(a.version.vv, e.version.vv) || Leq(b.version.vv, e.version.vv) then true
    else if Leq(e.version.vv, a.version.vv) && Leq(e.version.vv, b.version.vv) then OrderDoesNotMatter(a, b)
    else FatesAgree(e, a, b)
  }

  lemma TwoFates(e: DirEntry, a: DirEntry, b: DirEntry, p: string)
    ensures Written(Written(e, a), b).version.clientId == ClientAfter(e, a, b)
    ensures Written(Written(e, a), b).met.attr == AttrFate(e, a, b)
    ensures Get(Written(Written(e, a), b).met.childs, p) == ChildFate(e, a, b, p)
  {
    WrittenByParts(e, a, p);
    WrittenByParts(Written(e, a), b, p);
  }

  lemma SameVectorBothOrders(e: DirEntry, a: DirEntry, b: DirEntry)
    ensures Written(Written(e, a), b).version.vv == Written(Written(e, b), a).version.vv
  {
    AppliedJoins(e, PutDir(a.version, a.met));
    AppliedJoins(e, PutDir(b.version, b.met));
    AppliedJoins(Written(e, a), PutDir(b.version, b.met));
    AppliedJoins(Written(e, b), PutDir(a.version, a.met));
    JoinsCommute(e.version.vv, a.version.vv, b.version.vv);
  }

  lemma JoinsCommute(p: VersionVector, q: VersionVector, r: VersionVector)
    ensures Join(Join(p, q), r) == Join(Join(p, r), q)
  {
  }

  lemma ConvergeIffFatesAgree(e: DirEntry, a: DirEntry, b: DirEntry)
    ensures Written(Written(e, a), b) == Written(Written(e, b), a) <==> FatesAgree(e, a, b)
  {
    var l, r := Written(Written(e, a), b), Written(Written(e, b), a);
    SameVectorBothOrders(e, a, b);
    forall p ensures Get(l.met.childs, p) == ChildFate(e, a, b, p) && Get(r.met.childs, p) == ChildFate(e, b, a, p) {
      TwoFates(e, a, b, p);
      TwoFates(e, b, a, p);
    }
    TwoFates(e, a, b, "");
    TwoFates(e, b, a, "");
    if FatesAgree(e, a, b) {
      assert forall p :: Get(l.met.childs, p) == Get(r.met.childs, p);
      SameEntries(l.met.childs, r.met.childs);
    }
  }

  lemma CoveredWriteCommutes(e: DirEntry, a: DirEntry, b: DirEntry)
    requires Leq(a.version.vv, e.version.vv)
    ensures Written(e, a) == e && Written(Written(e, b), a) == Written(e, b)
  {
    AppliedIsUpperBound(e, PutDir(b.version, b.met));
  }

  lemma NewerWriteReplaces(e: DirEntry, a: DirEntry)
    requires Leq(e.version.vv, a.version.vv) && !Leq(a.version.vv, e.version.vv)
    ensures Written(e, a) == a
  {
  }

  /** Two writes on an existing directory, in opposite orders, from any stored entry. */
  lemma TwoWritesFromAnyStartIff(e: DirEntry, a: DirEntry, b: DirEntry)
    ensures Written(Written(e, a), b) == Written(Written(e, b), a) <==> CommuteFrom(e, a, b)
  {
    if Leq(a.version.vv, e.version.vv) {
      CoveredWriteCommutes(e, a, b);
    } else if Leq(b.version.vv, e.version.vv) {
      CoveredWriteCommutes(e, b, a);
    } else if Leq(e.version.vv, a.version.vv) && Leq(e.version.vv, b.version.vv) {
      NewerWriteReplaces(e, a);
      NewerWriteReplaces(e, b);
      TwoWritesConvergeIff(a, b);
    } else {
      ConvergeIffFatesAgree(e, a, b);
    }
  }

  /** Three entries none of which is covered by the join of the other two, from three clients. */
  ghost predicate Independent(e: DirEntry, a: DirEntry, b: DirEntry) {
    && !Leq(a.version.vv, Join(e.version.vv, b.version.vv)) && !Leq(b.version.vv, Join(e.version.vv, a.version.vv))
    && !Leq(e.version.vv, a.version.vv) && !Leq(e.version.vv, b.version.vv)
    && e.version.clientId != a.version.clientId && e.version.clientId != b.version.clientId
    && a.version.clientId != b.version.clientId
  }

  /** The child is not logged as removed, and both sides that know it know it with one type. */
  predicate KeptBy(c: Option<Child>, d: Option<Child>) {
    && (c.Some? ==> c.value.status != Removed)
    && (c.Some? && d.Some? ==> c.value.fileType == d.value.fileType)
  }

  predicate NobodyRemoves(e: DirEntry, a: DirEntry, b: DirEntry, p: string) {
    var (x, y, z) := (Get(e.met.childs, p), Get(a.met.childs, p), Get(b.met.childs, p));
    KeptBy(x, y) && KeptBy(y, z) && KeptBy(z, x)
  }

  lemma IndependentMerges(e: DirEntry, a: DirEntry, b: DirEntry)
    requires Independent(e, a, b)
    ensures VersionAfter(e.version, a.version) == Merged(e.version, a.version)
    ensures EffectOf(e.version, a.version) == FirstEffect(e.version.clientId.n, a.version.clientId.n)
    ensures EffectOf(Merged(e.version, a.version), b.version) ==
            SecondEffect(e.version.clientId.n, a.version.clientId.n, b.version.clientId.n)
  {
    JoinIsLub(e.version.vv, b.version.vv, e.version.vv);
    JoinIsLub(e.version.vv, a.version.vv, b.version.vv);
  }

  /** The effects of two writes `a`, `b` on `e` when all three are merged, by client ids. */
  function FirstEffect(e: int, a: int): Effect {
    if a < e then MergesFirst else MergesSecond
  }

  function SecondEffect(e: int, a: int, b: int): Effect {
    if b < e && b < a then MergesFirst else MergesSecond
  }

  lemma AttrsCommute(e: int, a: int, b: int, x: Attr, y: Attr, z: Attr)
    requires e != a && a != b && b != e
    ensures AttrAfter(SecondEffect(e, a, b), AttrAfter(FirstEffect(e, a), x, y), z) ==
            AttrAfter(SecondEffect(e, b, a), AttrAfter(FirstEffect(e, b), x, z), y)
  {
    MergedTimes(FirstEffect(e, a), x, y);
    MergedTimes(FirstEffect(e, b), x, z);
    MergedTimes(SecondEffect(e, a, b), AttrAfter(FirstEffect(e, a), x, y), z);
    MergedTimes(SecondEffect(e, b, a), AttrAfter(FirstEffect(e, b), x, z), y);
    LaterOfThree(x.atim, y.atim, z.atim);
    LaterOfThree(x.mtim, y.mtim, z.mtim);
    LaterOfThree(x.ctim, y.ctim, z.ctim);
  }

  lemma MergedTimes(effect: Effect, x: Attr, y: Attr)
    requires effect.MergesFirst? || effect.MergesSecond?
    ensures AttrAfter(effect, x, y) ==
            Attr(Later(x.atim, y.atim), Later(x.mtim, y.mtim), Later(x.ctim, y.ctim),
                 if effect.MergesFirst? then y.rest else x.rest)
  {
  }

  lemma LaterOfThree(x: Time, y: Time, z: Time)
    ensures Later(Later(x, y), z) == Later(Later(x, z), y)
  {
  }

  lemma KeptChildrenCommute(e: int, a: int, b: int, x: Option<Child>, y: Option<Child>, z: Option<Child>)
    requires KeptBy(x, y) && KeptBy(y, z) && KeptBy(z, x)
    ensures ChildAfter(SecondEffect(e, a, b), ChildAfter(FirstEffect(e, a), x, y), z) ==
            ChildAfter(SecondEffect(e, b, a), ChildAfter(FirstEffect(e, b), x, z), y)
  {
  }

  /** Independent writes converge exactly when every child fares the same both ways: the client id
      and the attributes always do. */
  lemma IndependentConvergeIff(e: DirEntry, a: DirEntry, b: DirEntry)
    requires Independent(e, a, b)
    ensures Written(Written(e, a), b) == Written(Written(e, b), a) <==>
            forall p :: ChildFate(e, a, b, p) == ChildFate(e, b, a, p)
  {
    IndependentMerges(e, a, b);
    IndependentMerges(e, b, a);
    AttrsCommute(e.version.clientId.n, a.version.clientId.n, b.version.clientId.n, e.met.attr, a.met.attr, b.met.attr);
    ConvergeIffFatesAgree(e, a, b);
  }

  /** So they do as long as nobody logs a removal. */
  lemma IndependentAddsConverge(e: DirEntry, a: DirEntry, b: DirEntry)
    requires Independent(e, a, b)
    requires forall p :: NobodyRemoves(e, a, b, p)
    ensures Written(Written(e, a), b) == Written(Written(e, b), a)
  {
    IndependentMerges(e, a, b);
    IndependentMerges(e, b, a);
    var (x, y, z) := (e.version.clientId.n, a.version.clientId.n, b.version.clientId.n);
    forall p ensures ChildFate(e, a, b, p) == ChildFate(e, b, a, p) {
      assert NobodyRemoves(e, a, b, p);
      KeptChildrenCommute(x, y, z, Get(e.met.childs, p), Get(a.met.childs, p), Get(b.met.childs, p));
    }
    IndependentConvergeIff(e, a, b);
  }

  function EmptyDir(childs: Childs): Metadata {
    Metadata(Attr(Time(0, 0), Time(0, 0), Time(0, 0), []), childs)
  }

  /** Two concurrent writes of one client, one adding a child and the other removing it. */
  lemma SameClientWritesCanDiverge() returns (a: DirEntry, b: DirEntry)
    ensures Compare(a.version, b.version) == Concurrent && Written(a, b) != Written(b, a)
  {
    var c, d := ClientId(1), ClientId(2);
    a := DirEntry(Version(map[c := 1, d := 1], c), EmptyDir(map["f" := Child(File, Added)]));
    b := DirEntry(Version(map[c := 2], c), EmptyDir(map["f" := Child(File, Removed)]));
    assert d in a.version.vv && d !in b.version.vv && a.version.vv[c] == 1 && b.version.vv[c] == 2;
    assert "f" in a.met.childs && !AgreeOn(Get(a.met.childs, "f"), Get(b.met.childs, "f"));
    TwoWritesConvergeIff(a, b);
  }

  /** Writes that converge on an absent key need not converge on an entry concurrent with both. */
  lemma StoredEntryCanDiverge() returns (e: DirEntry, a: DirEntry, b: DirEntry)
    ensures Independent(e, a, b) && OrderDoesNotMatter(a, b)
    ensures Written(Written(e, a), b) != Written(Written(e, b), a)
  {
    var x, y, z := ClientId(1), ClientId(2), ClientId(3);
    e := DirEntry(Version(map[z := 1], z), EmptyDir(map[]));
    a := DirEntry(Version(map[x := 1], x), EmptyDir(map["f" := Child(File, Added)]));
    b := DirEntry(Version(map[y := 1], y), EmptyDir(map["f" := Child(File, Removed)]));
    assert x in a.version.vv && y in b.version.vv && z in e.version.vv;
    IndependentMerges(e, a, b);
    IndependentMerges(e, b, a);
    assert ChildFate(e, a, b, "f") != ChildFate(e, b, a, "f");
    IndependentConvergeIff(e, a, b);
  }
}
