/** Directory metadata: the child log and the merge of two concurrent directory states. */
module DirMetadata {
  import opened Common

  /** What happened to a child since the log was last reset. */
  datatype Status = Added | Removed | NoChange

  datatype Child = Child(fileType: FileType, status: Status)

  type Childs = map<string, Child>

  datatype Time = Time(sec: int, nsec: int)

  /** The three timestamps of `struct stat` and its remaining fields. */
  datatype Attr = Attr(atim: Time, mtim: Time, ctim: Time, rest: seq<int>)

  datatype Metadata = Metadata(attr: Attr, childs: Childs)

  // ----- the child log

  function WithChild(m: Childs, path: string, isDir: bool): Childs {
    m[path := Child(if isDir then Directory else File, Added)]
  }

  function WithoutChild(m: Childs, path: string): Childs {
    if path in m then m[path := m[path].(status := Removed)] else m
  }

  /** The log applied and cleared: removed children go, the others become `NoChange`. */
  function LogApplied(m: Childs): Childs {
    map p | p in m && m[p].status != Removed :: m[p].(status := NoChange)
  }

  class MetadataChilds {
    var childs: Childs

    constructor (childs: Childs)
      ensures this.childs == childs
    {
      this.childs := childs;
    }

    method AddChild(path: string, isDir: bool)
      modifies this
      ensures childs == WithChild(old(childs), path, isDir)
      ensures Get(childs, path) == Some(Child(if isDir then Directory else File, Added))
      ensures forall p :: p != path ==> Get(childs, p) == Get(old(childs), p)
    {
      var obj := Child(if isDir then Directory else File, Added);
      childs := childs[path := obj];
    }

    method RemoveChild(path: string)
      modifies this
      ensures childs == WithoutChild(old(childs), path)
      ensures path in old(childs) ==> Get(childs, path) == Some(Child(old(childs)[path].fileType, Removed))
      ensures path !in old(childs) ==> Get(childs, path) == None
      ensures forall p :: p != path ==> Get(childs, p) == Get(old(childs), p)
    {
      if path in childs {
        childs := childs[path := childs[path].(status := Removed)];
      }
    }

    method ResetAddRemoveLog()
      modifies this
      ensures childs == LogApplied(old(childs))
      ensures forall p :: Get(childs, p) ==
                if p in old(childs) && old(childs)[p].status != Removed then Some(Child(old(childs)[p].fileType, NoChange))
                else None
    {
      var toErase: set<string> := {};
      var todo := childs.Keys;
      while todo != {}
        invariant todo <= childs.Keys == old(childs).Keys
        invariant toErase == set p | p in old(childs).Keys - todo && old(childs)[p].status == Removed
        invariant forall p :: p in childs ==>
          childs[p] == if p in todo || old(childs)[p].status == Removed then old(childs)[p]
                       else old(childs)[p].(status := NoChange)
        decreases todo
      {
        var key :| key in todo;
        if childs[key].status == Removed {
          toErase := toErase + {key};
        } else if childs[key].status == Added {
          childs := childs[key := childs[key].(status := NoChange)];
        }
        todo := todo - {key};
      }
      childs := childs - toErase;
      assert childs.Keys == LogApplied(old(childs)).Keys;
    }

    method IsEmpty() returns (empty: bool)
      ensures empty <==> LogApplied(childs) == map[]
    {
      empty := true;
      var todo := childs.Keys;
      while todo != {}
        invariant todo <= childs.Keys
        invariant empty ==> forall p :: p in childs.Keys - todo ==> childs[p].status == Removed
        invariant !empty ==> LogApplied(childs) != map[]
        decreases todo
      {
        var key :| key in todo;
        if childs[key].status == Added || childs[key].status == NoChange {
          empty := false;
          assert key in LogApplied(childs);
          break;
        }
        todo := todo - {key};
      }
      if empty { assert LogApplied(childs).Keys == {}; }
    }
  }

  // ----- merge_metadata

  function Get(m: Childs, path: string): Option<Child> {
    if path in m then Some(m[path]) else None
  }

  /** The fate of one child, from its entry on the priority side (`p`) and on the other (`q`). */
  function Decide(p: Option<Child>, q: Option<Child>): Option<Child> {
    match (p, q)
    // added on the priority side: kept whatever the other side says
    case (Some(Child(_, Added)), _) => p
    // unchanged on the priority side: kept unless the other side removed it
    case (Some(Child(_, NoChange)), Some(Child(_, Removed))) => None
    case (Some(Child(_, NoChange)), _) => p
    // removed on the priority side: beats an addition, but not an unchanged entry
    case (Some(Child(_, Removed)), Some(Child(_, NoChange))) => q
    case (Some(Child(_, Removed)), _) => None
    // unknown to the priority side
    case (None, Some(Child(_, Removed))) => None
    case (None, _) => q
  }

  function MergedChilds(a: Childs, b: Childs): Childs {
    map p | p in a.Keys + b.Keys && Decide(Get(a, p), Get(b, p)).Some? ::
      Decide(Get(a, p), Get(b, p)).value.(status := NoChange)
  }

  /** A child without its pending change. */
  function Reset(c: Option<Child>): Option<Child> {
    if c.Some? then Some(c.value.(status := NoChange)) else None
  }

  lemma MergedChild(a: Childs, b: Childs, p: string)
    ensures Get(MergedChilds(a, b), p) == Reset(Decide(Get(a, p), Get(b, p)))
  {
    assert p in MergedChilds(a, b) <==> Decide(Get(a, p), Get(b, p)).Some?;
  }

  predicate Before(a: Time, b: Time) {
    if a.sec == b.sec then a.nsec < b.nsec else a.sec < b.sec
  }

  function Later(a: Time, b: Time): Time {
    if Before(a, b) then b else a
  }

  /** The attributes of the priority side with the later of each timestamp. */
  function MergedAttr(a: Attr, b: Attr): Attr {
    a.(atim := Later(a.atim, b.atim), mtim := Later(a.mtim, b.mtim), ctim := Later(a.ctim, b.ctim))
  }

  function MergedMetadata(a: Metadata, b: Metadata): Metadata {
    Metadata(MergedAttr(a.attr, b.attr), MergedChilds(a.childs, b.childs))
  }

  /** Both passes of `merge_metadata` over the child maps. */
  method MergePasses(a: Childs, b: Childs) returns (temp: Childs)
    ensures forall p :: Get(temp, p) == Decide(Get(a, p), Get(b, p))
  {
    temp := map[];
    var priorityRemove: set<string> := {};
    var todo := a.Keys;
    while todo != {}
      invariant todo <= a.Keys
      invariant forall p ::
        Get(temp, p) == (if p in a && p !in todo && a[p].status != Removed then Some(a[p]) else None)
      invariant forall p :: p in priorityRemove <==> p in a && p !in todo && a[p].status == Removed
      decreases todo
    {
      var path :| path in todo;
      if a[path].status == NoChange || a[path].status == Added {
        temp := temp[path := a[path]];
      } else {
        priorityRemove := priorityRemove + {path};
      }
      todo := todo - {path};
    }
    todo := b.Keys;
    while todo != {}
      invariant todo <= b.Keys
      invariant forall p ::
        Get(temp, p) == (if p in todo then Decide(Get(a, p), None) else Decide(Get(a, p), Get(b, p)))
      decreases todo
    {
      var path :| path in todo;
      match b[path].status {
        case NoChange =>
          if path !in temp { temp := temp[path := b[path]]; }
        case Added =>
          if path !in priorityRemove && path !in temp { temp := temp[path := b[path]]; }
        case Removed =>
          if path in temp && temp[path].status == NoChange { temp := temp - {path}; }
      }
      todo := todo - {path};
    }
  }

  lemma MergedIsReset(a: Childs, b: Childs, temp: Childs)
    requires forall p :: Get(temp, p) == Decide(Get(a, p), Get(b, p))
    ensures LogApplied(temp) == MergedChilds(a, b)
  {
    var r := MergedChilds(a, b);
    assert forall p :: p in temp <==> Get(temp, p).Some?;
    assert LogApplied(temp).Keys == r.Keys;
  }

  /** `t` is one of two times and the other is not after it. */
  predicate IsLatest(t: Time, a: Time, b: Time) {
    && (t == a || t == b)
    && (a.sec < t.sec || (a.sec == t.sec && a.nsec <= t.nsec))
    && (b.sec < t.sec || (b.sec == t.sec && b.nsec <= t.nsec))
  }

  method MergeMetadata(met1: Metadata, met2: Metadata) returns (r: Metadata)
    ensures r == MergedMetadata(met1, met2)
    ensures r.attr.rest == met1.attr.rest
    ensures IsLatest(r.attr.atim, met1.attr.atim, met2.attr.atim)
    ensures IsLatest(r.attr.mtim, met1.attr.mtim, met2.attr.mtim)
    ensures IsLatest(r.attr.ctim, met1.attr.ctim, met2.attr.ctim)
  {
    var temp := MergePasses(met1.childs, met2.childs);
    var childs := new MetadataChilds(temp);
    childs.ResetAddRemoveLog();
    MergedIsReset(met1.childs, met2.childs, temp);
    r := met1.(childs := childs.childs);
    if Before(r.attr.atim, met2.attr.atim) { r := r.(attr := r.attr.(atim := met2.attr.atim)); }
    if Before(r.attr.mtim, met2.attr.mtim) { r := r.(attr := r.attr.(mtim := met2.attr.mtim)); }
    if Before(r.attr.ctim, met2.attr.ctim) { r := r.(attr := r.attr.(ctim := met2.attr.ctim)); }
  }

  /** No pending additions or removals survive a merge, and merging a directory with itself only
      applies its log. */
  lemma MergeAppliesLog(a: Childs, b: Childs)
    ensures forall p :: p in MergedChilds(a, b) ==> MergedChilds(a, b)[p].status == NoChange
    ensures LogApplied(MergedChilds(a, b)) == MergedChilds(a, b)
    ensures MergedChilds(a, a) == LogApplied(a)
  {
    assert MergedChilds(a, a).Keys == LogApplied(a).Keys;
  }

  /** A child is in the merge exactly if it is known and unremoved on the priority side, unless it
      is unchanged there and removed on the other, or known and unremoved on the other side, and
      unknown on the priority side or unchanged on the other where the priority side removed it. */
  lemma MergedIff(a: Childs, b: Childs, path: string)
    ensures path in MergedChilds(a, b) <==>
            || (path in a && a[path].status == Added)
            || (path in a && a[path].status == NoChange && !(path in b && b[path].status == Removed))
            || (path in a && a[path].status == Removed && path in b && b[path].status == NoChange)
            || (path !in a && path in b && b[path].status != Removed)
    ensures path in MergedChilds(a, b) ==>
              MergedChilds(a, b)[path].fileType ==
              if path in a && a[path].status != Removed then a[path].fileType else b[path].fileType
  {
  }

  /** A removal on the priority side takes effect exactly when the other side does not hold the
      child as unchanged. */
  lemma PriorityRemovalIff(a: Childs, b: Childs, path: string)
    requires path in a && a[path].status == Removed
    ensures path !in MergedChilds(a, b) <==> !(path in b && b[path].status == NoChange)
  {
  }

  lemma PriorityRemovalCanBeLost() returns (a: Childs, b: Childs, path: string)
    ensures path in a && a[path].status == Removed && path in MergedChilds(a, b)
  {
    path := "f";
    a, b := map[path := Child(File, Removed)], map[path := Child(File, NoChange)];
    PriorityRemovalIff(a, b, path);
  }

  /** The two sides agree about a child: both log it as removed, or neither does and they hold
      it with the same type. A child one side does not know is no disagreement. */
  predicate AgreeOn(p: Option<Child>, q: Option<Child>) {
    p.Some? && q.Some? ==>
      if p.value.status == Removed || q.value.status == Removed
      then p.value.status == q.value.status
      else p.value.fileType == q.value.fileType
  }

  /** The merge gives the same result whichever side has priority exactly when the two sides
      agree on every child and on the attributes other than the timestamps. */
  lemma MergeCommutesIff(a: Metadata, b: Metadata)
    ensures MergedMetadata(a, b) == MergedMetadata(b, a) <==>
            && a.attr.rest == b.attr.rest
            && forall p :: AgreeOn(Get(a.childs, p), Get(b.childs, p))
  {
    var x, y := MergedChilds(a.childs, b.childs), MergedChilds(b.childs, a.childs);
    forall p
      ensures Get(x, p) == Get(y, p) <==> AgreeOn(Get(a.childs, p), Get(b.childs, p))
    {
      DecideSymmetric(Get(a.childs, p), Get(b.childs, p));
      assert p in x <==> Decide(Get(a.childs, p), Get(b.childs, p)).Some?;
      assert p in y <==> Decide(Get(b.childs, p), Get(a.childs, p)).Some?;
    }
    if forall p :: AgreeOn(Get(a.childs, p), Get(b.childs, p)) {
      assert forall p :: Get(x, p) == Get(y, p);
      SameEntries(x, y);
    }
  }

  lemma SameEntries(x: Childs, y: Childs)
    requires forall p :: Get(x, p) == Get(y, p)
    ensures x == y
  {
    assert forall p :: p in x <==> Get(x, p).Some?;
    assert x.Keys == y.Keys;
  }

  ghost function TypeOf(c: Option<Child>): Option<FileType> {
    if c.Some? then Some(c.value.fileType) else None
  }

  lemma DecideSymmetric(p: Option<Child>, q: Option<Child>)
    ensures TypeOf(Decide(p, q)) == TypeOf(Decide(q, p)) <==> AgreeOn(p, q)
  {
  }
}
