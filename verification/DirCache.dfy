/** The client's LRU cache of directory metadata: a recency list, an index into it and a mutex per
entry, kept in agreement, and refining a plain recency order.
*/
module DirCache {
  import opened Common
  import opened DirMetadata
  import opened Directories

  // ----- the abstract cache

  /** The cached paths, most recently touched first, and their metadata. */
  datatype Cache = Cache(order: seq<Path>, mets: map<Path, Metadata>)

  function IndexOf(order: seq<Path>, path: Path): (i: nat)
    ensures i <= |order|
    ensures i < |order| ==> order[i] == path
    ensures forall j :: 0 <= j < i ==> order[j] != path
  {
    if order == [] || order[0] == path then 0 else 1 + IndexOf(order[1..], path)
  }

  function WithoutPath(order: seq<Path>, path: Path): seq<Path> {
    var k := IndexOf(order, path);
    if k == |order| then order else order[..k] + order[k + 1..]
  }

  datatype Op =
    | Add(path: Path, met: Metadata)
    | Get(path: Path)
    | Remove(path: Path)
    | EditChild(path: Path, child: string, isCreate: bool, isDir: bool)
    | Clear

  /** The cache after one operation, for at most `max` directories. */
  function Stepped(c: Cache, op: Op, max: nat): Cache {
    match op
    case Add(path, met) => Trimmed(Cache([path] + WithoutPath(c.order, path), c.mets[path := met]), max)
    case Get(path) => if path in c.mets then Cache([path] + WithoutPath(c.order, path), c.mets) else c
    case Remove(path) => Cache(WithoutPath(c.order, path), c.mets - {path})
    case EditChild(path, child, isCreate, isDir) =>
      if path in c.mets then c.(mets := c.mets[path := ChildEdited(c.mets[path], child, isCreate, isDir)]) else c
    case Clear => Cache([], map[])
  }

  /** Eviction of the last path when there are too many. */
  function Trimmed(c: Cache, max: nat): Cache {
    if |c.order| > max then
      var last := c.order[|c.order| - 1];
      Cache(c.order[..|c.order| - 1], c.mets - {last})
    else c
  }

  function After(ops: seq<Op>, max: nat): Cache {
    if ops == [] then Cache([], map[]) else Stepped(After(ops[..|ops| - 1], max), ops[|ops| - 1], max)
  }

  ghost predicate Distinct(order: seq<Path>) {
    forall i, j :: 0 <= i < j < |order| ==> order[i] != order[j]
  }

  ghost predicate Consistent(c: Cache) {
    Distinct(c.order) && forall p :: p in c.order <==> p in c.mets
  }

  lemma WithoutPathFacts(order: seq<Path>, path: Path)
    requires Distinct(order)
    ensures Distinct(WithoutPath(order, path))
    ensures forall p :: p in WithoutPath(order, path) <==> p in order && p != path
    ensures |WithoutPath(order, path)| == if path in order then |order| - 1 else |order|
  {
  }

  lemma FrontFacts(order: seq<Path>, path: Path)
    requires Distinct(order)
    ensures Distinct([path] + WithoutPath(order, path))
    ensures forall p :: p in [path] + WithoutPath(order, path) <==> p in order || p == path
    ensures |[path] + WithoutPath(order, path)| == if path in order then |order| else |order| + 1
  {
    WithoutPathFacts(order, path);
    var r := [path] + WithoutPath(order, path);
    assert forall i :: 0 < i < |r| ==> r[i] == WithoutPath(order, path)[i - 1];
    assert forall i :: 0 < i < |r| ==> r[i] in WithoutPath(order, path);
  }

  lemma TrimmedFacts(c: Cache, max: nat)
    requires Consistent(c) && |c.order| <= max + 1
    ensures Consistent(Trimmed(c, max)) && |Trimmed(c, max).order| <= max
  {
  }

  /** The order and the metadata always list the same distinct paths, at most `max` of them. */
  lemma StepKeepsConsistent(c: Cache, op: Op, max: nat)
    requires Consistent(c) && |c.order| <= max
    ensures Consistent(Stepped(c, op, max)) && |Stepped(c, op, max).order| <= max
  {
    match op
    case Add(path, met) =>
      FrontFacts(c.order, path);
      TrimmedFacts(Cache([path] + WithoutPath(c.order, path), c.mets[path := met]), max);
    case Get(path) => FrontFacts(c.order, path);
    case Remove(path) => WithoutPathFacts(c.order, path);
    case _ =>
  }

  /** Which paths are cached after an operation: an added one if anything fits, the others unless they
      are removed, cleared, or the last one when a new path is added to a full cache. */
  predicate StaysCached(c: Cache, op: Op, max: nat, p: Path) {
    match op
    case Add(path, _) =>
      if p == path then max > 0
      else p in c.mets && !(path !in c.mets && |c.order| == max > 0 && p == c.order[max - 1])
    case Get(_) => p in c.mets
    case Remove(path) => p in c.mets && p != path
    case EditChild(_, _, _, _) => p in c.mets
    case Clear => false
  }

  /** The metadata under a path that stays: the added one, the one with its child edited, or the same
      as before. */
  predicate HasMetadata(c: Cache, op: Op, p: Path, met: Metadata) {
    match op
    case Add(path, m) => if p == path then met == m else p in c.mets && met == c.mets[p]
    case EditChild(path, child, isCreate, isDir) =>
      p in c.mets && (if p == path then IsEdited(c.mets[p], met, child, isCreate, isDir) else met == c.mets[p])
    case _ => p in c.mets && met == c.mets[p]
  }

  /** Exactly the child is edited, and the attributes stay. */
  predicate IsEdited(before: Metadata, met: Metadata, child: string, isCreate: bool, isDir: bool) {
    && met.attr == before.attr
    && met.childs ==
       if isCreate then before.childs[child := Child(if isDir then Directory else File, Added)]
       else if child in before.childs then before.childs[child := Child(before.childs[child].fileType, Removed)]
       else before.childs
  }

  lemma StepDecides(c: Cache, op: Op, max: nat, p: Path)
    requires Consistent(c) && |c.order| <= max
    ensures p in Stepped(c, op, max).mets <==> StaysCached(c, op, max, p)
    ensures p in Stepped(c, op, max).mets ==> HasMetadata(c, op, p, Stepped(c, op, max).mets[p])
    ensures op.Add? && max > 0 ==> Stepped(c, op, max).order[..1] == [op.path]
  {
    if op.Add? {
      WithoutPathFacts(c.order, op.path);
      FrontFacts(c.order, op.path);
      AddDecides(c, op.path, op.met, max, p);
    }
  }

  lemma AddDecides(c: Cache, path: Path, met: Metadata, max: nat, p: Path)
    requires Consistent(c) && |c.order| <= max
    ensures p in Stepped(c, Add(path, met), max).mets <==> StaysCached(c, Add(path, met), max, p)
    ensures max > 0 ==> Stepped(c, Add(path, met), max).order[..1] == [path]
  {
    var front := [path] + WithoutPath(c.order, path);
    FrontFacts(c.order, path);
    if |front| > max {
      assert path !in c.mets && |c.order| == max;
      assert WithoutPath(c.order, path) == c.order;
    }
  }

  // ----- every sequence of operations

  predicate Touches(op: Op, path: Path) {
    (op.Add? || op.Get?) && op.path == path
  }

  /** Index of the last operation that added or read the path, or -1. */
  function LastTouch(ops: seq<Op>, path: Path): (t: int)
    ensures -1 <= t < |ops|
  {
    if ops == [] then -1
    else if Touches(ops[|ops| - 1], path) then |ops| - 1
    else LastTouch(ops[..|ops| - 1], path)
  }

  ghost predicate ByRecency(order: seq<Path>, ops: seq<Op>) {
    forall i, j :: 0 <= i < j < |order| ==> LastTouch(ops, order[i]) > LastTouch(ops, order[j])
  }

  lemma WithoutPathByRecency(order: seq<Path>, path: Path, ops: seq<Op>)
    requires ByRecency(order, ops)
    ensures ByRecency(WithoutPath(order, path), ops)
  {
  }

  /** Extending the history by an operation on `path` moves only `path`, to the front. */
  lemma TouchedByRecency(order: seq<Path>, ops: seq<Op>, op: Op, path: Path)
    requires Distinct(order) && ByRecency(order, ops) && Touches(op, path)
    ensures ByRecency([path] + WithoutPath(order, path), ops + [op])
  {
    var rest := WithoutPath(order, path);
    WithoutPathFacts(order, path);
    WithoutPathByRecency(order, path, ops);
    assert (ops + [op])[..|ops|] == ops;
    forall p | p in rest ensures LastTouch(ops + [op], p) == LastTouch(ops, p) {
      assert p != path;
    }
    assert LastTouch(ops + [op], path) == |ops|;
    var r := [path] + rest;
    assert forall i :: 0 < i < |r| ==> r[i] == rest[i - 1] && r[i] in rest;
  }

  lemma UntouchedByRecency(order: seq<Path>, ops: seq<Op>, op: Op)
    requires ByRecency(order, ops) && forall p :: p in order ==> !Touches(op, p)
    ensures ByRecency(order, ops + [op])
  {
  }

  lemma StepKeepsRecency(c: Cache, ops: seq<Op>, op: Op, max: nat)
    requires Consistent(c) && ByRecency(c.order, ops)
    ensures ByRecency(Stepped(c, op, max).order, ops + [op])
  {
    match op
    case Add(path, met) =>
      TouchedByRecency(c.order, ops, op, path);
    case Get(path) =>
      if path in c.mets { TouchedByRecency(c.order, ops, op, path); } else { UntouchedByRecency(c.order, ops, op); }
    case Remove(path) =>
      WithoutPathByRecency(c.order, path, ops);
      UntouchedByRecency(WithoutPath(c.order, path), ops, op);
    case EditChild(_, _, _, _) => UntouchedByRecency(c.order, ops, op);
    case Clear =>
  }

  /** After any sequence of operations the list is ordered by last touch and within its bound. */
  lemma {:induction false} OrderIsLastTouch(ops: seq<Op>, max: nat)
    ensures Consistent(After(ops, max)) && |After(ops, max).order| <= max
    ensures ByRecency(After(ops, max).order, ops)
  {
    if ops == [] {
    } else {
      var before, op := ops[..|ops| - 1], ops[|ops| - 1];
      assert ops == before + [op];
      OrderIsLastTouch(before, max);
      StepKeepsConsistent(After(before, max), op, max);
      StepKeepsRecency(After(before, max), before, op, max);
    }
  }

  lemma LastIsLeast(order: seq<Path>, ops: seq<Op>, p: Path)
    requires order != [] && ByRecency(order, ops) && p in order && p != order[|order| - 1]
    ensures LastTouch(ops, order[|order| - 1]) < LastTouch(ops, p)
  {
  }

  lemma AddEvictsLast(c: Cache, max: nat, path: Path, met: Metadata, gone: Path)
    requires Consistent(c) && gone in c.mets && gone != path
    requires gone !in Stepped(c, Add(path, met), max).mets
    ensures var r := WithoutPath(c.order, path); r != [] && gone == r[|r| - 1]
    ensures forall p :: p in c.mets && p != gone ==> p in Stepped(c, Add(path, met), max).mets
  {
  }

  /** An add evicts nothing but the least recently touched of the other cached paths. */
  lemma EvictsLeastRecent(ops: seq<Op>, max: nat, path: Path, met: Metadata, gone: Path, p: Path)
    requires gone in After(ops, max).mets && gone != path
    requires gone !in Stepped(After(ops, max), Add(path, met), max).mets
    requires p in After(ops, max).mets && p != path && p != gone
    ensures p in Stepped(After(ops, max), Add(path, met), max).mets && LastTouch(ops, gone) < LastTouch(ops, p)
  {
    var c := After(ops, max);
    OrderIsLastTouch(ops, max);
    AddEvictsLast(c, max, path, met, gone);
    WithoutPathByRecency(c.order, path, ops);
    WithoutPathFacts(c.order, path);
    LastIsLeast(WithoutPath(c.order, path), ops, p);
  }

  /** The last metadata stored under the path, with the child edits made since. */
  function LastStored(ops: seq<Op>, path: Path): Option<Metadata> {
    if ops == [] then None
    else
      var before := LastStored(ops[..|ops| - 1], path);
      match ops[|ops| - 1]
      case Add(p, met) => if p == path then Some(met) else before
      case EditChild(p, child, isCreate, isDir) =>
        if p == path && before.Some? then Some(ChildEdited(before.value, child, isCreate, isDir)) else before
      case _ => before
  }

  /** A hit returns exactly that. */
  lemma {:induction false} HitReturnsLastStored(ops: seq<Op>, max: nat, path: Path)
    requires path in After(ops, max).mets
    ensures LastStored(ops, path) == Some(After(ops, max).mets[path])
  {
    var before, op := ops[..|ops| - 1], ops[|ops| - 1];
    if !(op.Add? && op.path == path) {
      assert path in After(before, max).mets;
      HitReturnsLastStored(before, max, path);
    }
  }

  /** What a read of the path gives after the operations. */
  function Expected(ops: seq<Op>, max: nat, path: Path): Option<Metadata> {
    if path in After(ops, max).mets then LastStored(ops, path) else None
  }

  lemma HitIsExpected(ops: seq<Op>, max: nat, path: Path)
    ensures Expected(ops, max, path) ==
            if path in After(ops, max).mets then Some(After(ops, max).mets[path]) else None
  {
    if path in After(ops, max).mets { HitReturnsLastStored(ops, max, path); }
  }

  /** Every read so far gave what was expected at its time. */
  ghost predicate RightResults(ops: seq<Op>, results: seq<Option<Metadata>>, max: nat) {
    && |results| <= |ops|
    && forall i :: 0 <= i < |results| && ops[i].Get? ==> results[i] == Expected(ops[..i], max, ops[i].path)
  }

  lemma OneMoreResult(ops: seq<Op>, results: seq<Option<Metadata>>, r: Option<Metadata>, max: nat)
    requires |results| < |ops| && RightResults(ops, results, max)
    requires var k := |results|;
             ops[k].Get? ==> r == if ops[k].path in After(ops[..k], max).mets
                                  then Some(After(ops[..k], max).mets[ops[k].path]) else None
    ensures RightResults(ops, results + [r], max)
  {
    var k, results' := |results|, results + [r];
    forall i | 0 <= i < |results'| && ops[i].Get? ensures results'[i] == Expected(ops[..i], max, ops[i].path) {
      if i == k { HitIsExpected(ops[..k], max, ops[k].path); }
    }
  }

  lemma AfterOneMore(ops: seq<Op>, k: nat, max: nat)
    requires k < |ops|
    ensures After(ops[..k + 1], max) == Stepped(After(ops[..k], max), ops[k], max)
  {
    assert ops[..k + 1][..k] == ops[..k] && ops[..k + 1][k] == ops[k];
  }

  // ----- the data structures

  /** A node of the recency list. An iterator to a node is represented by the node itself, and a
      write through it changes both the list and the index. */
  datatype Node = Node(path: Path, met: Metadata)

  ghost function PathsOf(list: seq<Node>): (order: seq<Path>)
    ensures |order| == |list| && forall i :: 0 <= i < |list| ==> order[i] == list[i].path
  {
    seq(|list|, i requires 0 <= i < |list| => list[i].path)
  }

  ghost function MetsOf(index: map<Path, Node>): map<Path, Metadata> {
    map p | p in index :: index[p].met
  }

  lemma MetsWith(index: map<Path, Node>, d: Node)
    ensures MetsOf(index[d.path := d]) == MetsOf(index)[d.path := d.met]
  {
  }

  /** List and index hold the same distinct paths, and the index leads to the entry. */
  ghost predicate Linked(list: seq<Node>, index: map<Path, Node>) {
    && Distinct(PathsOf(list))
    && (forall d :: d in list ==> d.path in index && index[d.path] == d)
    && (forall p :: p in index ==> index[p] in list && index[p].path == p)
  }

  /** Taking one entry out of the list takes its path out of the order. */
  lemma TakenOutPaths(list: seq<Node>, index: map<Path, Node>, k: nat)
    requires Linked(list, index) && k < |list|
    ensures PathsOf(list[..k] + list[k + 1..]) == WithoutPath(PathsOf(list), list[k].path)
  {
    var r, order := list[..k] + list[k + 1..], PathsOf(list);
    assert order[k] == list[k].path && k == IndexOf(order, list[k].path);
    var r' := order[..k] + order[k + 1..];
    assert |PathsOf(r)| == |r'|;
    forall m | 0 <= m < |r| ensures PathsOf(r)[m] == r'[m] {
      assert r[m] == list[if m < k then m else m + 1];
    }
  }

  lemma LinkedWithout(list: seq<Node>, index: map<Path, Node>, k: nat)
    requires Linked(list, index) && k < |list|
    ensures Linked(list[..k] + list[k + 1..], index - {list[k].path})
  {
  }

  lemma LinkedWith(list: seq<Node>, index: map<Path, Node>, d: Node)
    requires Linked(list, index) && d.path !in index
    ensures Linked([d] + list, index[d.path := d]) && PathsOf([d] + list) == [d.path] + PathsOf(list)
    ensures d.path !in PathsOf(list)
  {
    assert PathsOf([d] + list) == [d.path] + PathsOf(list);
    forall i | 0 <= i < |list| ensures PathsOf(list)[i] != d.path { assert list[i] in list; }
    var order := [d.path] + PathsOf(list);
    assert forall i :: 0 < i < |order| ==> order[i] == PathsOf(list)[i - 1];
  }

  lemma LinkedFront(list: seq<Node>, index: map<Path, Node>, k: nat)
    requires Linked(list, index) && k < |list|
    ensures Linked([list[k]] + (list[..k] + list[k + 1..]), index)
    ensures PathsOf([list[k]] + (list[..k] + list[k + 1..])) == [list[k].path] + WithoutPath(PathsOf(list), list[k].path)
  {
    var d, r := list[k], list[..k] + list[k + 1..];
    assert d in list;
    LinkedWithout(list, index, k);
    LinkedWith(r, index - {d.path}, d);
    assert (index - {d.path})[d.path := d] == index;
    TakenOutPaths(list, index, k);
  }

  lemma LinkedSizes(list: seq<Node>, index: map<Path, Node>)
    requires Linked(list, index)
    ensures |index| == |list|
    ensures forall p :: p in PathsOf(list) <==> p in index
  {
    var order := PathsOf(list);
    forall p | p in index ensures p in order {
      var k :| 0 <= k < |list| && list[k] == index[p];
      assert order[k] == p;
    }
    forall p | p in order ensures p in index {
      var k :| 0 <= k < |list| && order[k] == p;
      assert list[k] in list;
    }
    assert index.Keys == set p | p in order;
    DistinctSize(order);
    assert |index| == |index.Keys|;
  }

  lemma AbsentPath(list: seq<Node>, index: map<Path, Node>, path: Path)
    requires Linked(list, index) && path !in index
    ensures WithoutPath(PathsOf(list), path) == PathsOf(list)
  {
  }

  /** A write through the iterator of one entry. */
  lemma LinkedWrite(list: seq<Node>, index: map<Path, Node>, k: nat, met: Metadata)
    requires Linked(list, index) && k < |list|
    ensures PathsOf(list[k := list[k].(met := met)]) == PathsOf(list)
    ensures Linked(list[k := list[k].(met := met)], index[list[k].path := list[k].(met := met)])
  {
  }

  lemma {:induction false} DistinctSize(order: seq<Path>)
    requires Distinct(order)
    ensures |set p | p in order| == |order|
  {
    if order == [] {
    } else {
      var front, last := order[..|order| - 1], order[|order| - 1];
      DistinctSize(front);
      assert order == front + [last];
      assert last !in front;
      assert (set p | p in order) == (set p | p in front) + {last};
    }
  }

  class DirectoryCache {
    const max: nat
    var list: seq<Node>
    var index: map<Path, Node>
    var mutexes: set<Path>

    /** List, index and mutexes agree. */
    ghost predicate Valid()
      reads this
    {
      Linked(list, index) && mutexes == index.Keys
    }

    ghost function Order(): seq<Path>
      reads this
    {
      PathsOf(list)
    }

    ghost function Mets(): map<Path, Metadata>
      reads this
    {
      MetsOf(index)
    }

    ghost function Model(): Cache
      reads this
    {
      Cache(Order(), Mets())
    }

    constructor (max: nat)
      ensures Valid() && Model() == Cache([], map[]) && this.max == max
    {
      this.max := max;
      list, index, mutexes := [], map[], {};
    }

    /** Position of the node that the index holds for the path. */
    method Find(path: Path) returns (k: nat)
      requires Valid() && path in index
      ensures k < |list| && list[k] == index[path] && list[k].path == path
    {
      k :| 0 <= k < |list| && list[k] == index[path];
    }

    /** Take a cached directory out of the list and push it to the front. */
    method MoveToFront(path: Path)
      requires Valid() && path in index
      modifies this`list
      ensures Valid() && Order() == [path] + WithoutPath(old(Order()), path)
    {
      var k := Find(path);
      LinkedFront(list, index, k);
      list := [list[k]] + (list[..k] + list[k + 1..]);
    }

    /** Write the metadata of a cached directory in place. */
    method SetMet(path: Path, met: Metadata)
      requires Valid() && path in index
      modifies this`list, this`index
      ensures Valid() && Order() == old(Order()) && Mets() == old(Mets())[path := met]
    {
      var k := Find(path);
      LinkedWrite(list, index, k, met);
      MetsWith(index, list[k].(met := met));
      list, index := list[k := list[k].(met := met)], index[path := list[k].(met := met)];
    }

    /** A cached path gets new metadata and becomes the most recent one. */
    method Replace(path: Path, met: Metadata)
      requires Valid() && path in index
      modifies this`list, this`index
      ensures Valid() && Order() == [path] + WithoutPath(old(Order()), path)
      ensures Mets() == old(Mets())[path := met]
    {
      SetMet(path, met);
      MoveToFront(path);
    }

    /** A new path goes in front. */
    method Insert(path: Path, met: Metadata)
      requires Valid() && path !in index
      modifies this
      ensures Valid() && Order() == [path] + WithoutPath(old(Order()), path)
      ensures Mets() == old(Mets())[path := met]
    {
      var d := Node(path, met);
      AbsentPath(list, index, path);
      LinkedWith(list, index, d);
      MetsWith(index, d);
      list := [d] + list;
      index := index[path := d];
      mutexes := mutexes + {path};
    }

    method AddToDirCache(path: Path, met: Metadata)
      requires Valid()
      modifies this
      ensures Valid() && Model() == Stepped(old(Model()), Add(path, met), max)
    {
      if path in index { Replace(path, met); } else { Insert(path, met); }
      LinkedSizes(list, index);
      if |index| > max {
        Evict();
      }
    }

    method Evict()
      requires Valid() && list != []
      modifies this
      ensures Valid() && Order() == old(Order())[..|old(Order())| - 1]
      ensures Mets() == old(Mets()) - {old(Order())[|old(Order())| - 1]}
    {
      var last := |list| - 1;
      assert list[..last] + list[last + 1..] == list[..last];
      assert PathsOf(list[..last]) == PathsOf(list)[..last];
      EraseAt(last);
    }

    /** Erase one node of the list together with its index entry and its mutex. */
    method EraseAt(k: nat)
      requires Valid() && k < |list|
      modifies this
      ensures Valid() && list == old(list)[..k] + old(list)[k + 1..]
      ensures Mets() == old(Mets()) - {old(list)[k].path}
    {
      LinkedWithout(list, index, k);
      var path := list[k].path;
      list := list[..k] + list[k + 1..];
      index := index - {path};
      mutexes := mutexes - {path};
    }

    method GetIfCached(path: Path) returns (r: Option<Metadata>)
      requires Valid()
      modifies this`list
      ensures Valid() && Model() == Stepped(old(Model()), Get(path), max)
      ensures r == if path in old(Model()).mets then Some(old(Model()).mets[path]) else None
    {
      if path !in index { return None; }
      r := Some(index[path].met);
      MoveToFront(path);
    }

    method RemoveFromDirCache(path: Path)
      requires Valid()
      modifies this
      ensures Valid() && Model() == Stepped(old(Model()), Remove(path), max)
    {
      if path in index {
        var k := Find(path);
        TakenOutPaths(list, index, k);
        EraseAt(k);
      } else {
        AbsentPath(list, index, path);
        assert Mets() == Mets() - {path};
      }
    }

    method EditChildInDirCache(path: Path, child: string, isCreate: bool, isDir: bool)
      requires Valid()
      modifies this`list, this`index
      ensures Valid() && Model() == Stepped(old(Model()), EditChild(path, child, isCreate, isDir), max)
    {
      if path in index {
        var met := index[path].met;
        var childs := new MetadataChilds(met.childs);
        if isCreate { childs.AddChild(child, isDir); } else { childs.RemoveChild(child); }
        SetMet(path, met.(childs := childs.childs));
      }
    }

    method ClearAllDirCache()
      modifies this
      ensures Valid() && Model() == Cache([], map[])
    {
      list, index, mutexes := [], map[], {};
    }

    method Apply(op: Op) returns (r: Option<Metadata>)
      requires Valid()
      modifies this
      ensures Valid() && Model() == Stepped(old(Model()), op, max)
      ensures op.Get? ==> r == if op.path in old(Model()).mets then Some(old(Model()).mets[op.path]) else None
    {
      r := None;
      match op
      case Add(path, met) => AddToDirCache(path, met);
      case Get(path) => r := GetIfCached(path);
      case Remove(path) => RemoveFromDirCache(path);
      case EditChild(path, child, isCreate, isDir) => EditChildInDirCache(path, child, isCreate, isDir);
      case Clear => ClearAllDirCache();
    }

    /** Every sequence of operations on an empty cache goes through the states of the abstract one,
        and every hit returns the last stored metadata with later child edits applied. */
    method Run(ops: seq<Op>) returns (results: seq<Option<Metadata>>)
      requires Valid() && Model() == Cache([], map[])
      modifies this
      ensures Valid() && Model() == After(ops, max)
      ensures |results| == |ops| && RightResults(ops, results, max)
    {
      results := [];
      for k := 0 to |ops|
        invariant Valid() && Model() == After(ops[..k], max)
        invariant |results| == k && RightResults(ops, results, max)
      {
        AfterOneMore(ops, k, max);
        var r := Apply(ops[k]);
        OneMoreResult(ops, results, r, max);
        results := results + [r];
      }
      assert ops[..|ops|] == ops;
    }
  }
}
