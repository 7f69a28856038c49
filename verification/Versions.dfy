/** Version vectors: comparison, merge, and the issue of a new version by a client.

A version is a vector (client id -> clock) together with the id of the client that wrote it.
The vectors are ordered by `Leq`, and `comp_version` and `merge_kv` are proved against that
order and its join.
*/
module Versions {

  /** The client id of a default-constructed version. */
  const LONG_MAX: int := 0x7FFF_FFFF_FFFF_FFFF

  datatype ClientId = ClientId(n: int)

  type VersionVector = map<ClientId, int>

  datatype Version = Version(vv: VersionVector, clientId: ClientId)

  const DEFAULT_VERSION: Version := Version(map[], ClientId(LONG_MAX))

  datatype Comparison = Lower | Bigger | Equal | Concurrent {
    function Dual(): Comparison {
      match this
      case Lower => Bigger
      case Bigger => Lower
      case Equal => Equal
      case Concurrent => Concurrent
    }
  }

  // ----- the order and its join

  /** `a` is at or below `b`: every client of `a` is known to `b`, with a clock no smaller. */
  predicate Leq(a: VersionVector, b: VersionVector) {
    forall c :: c in a ==> c in b && a[c] <= b[c]
  }

  predicate Less(a: VersionVector, b: VersionVector) {
    Leq(a, b) && a != b
  }

  function Max(x: int, y: int): int {
    if x < y then y else x
  }

  function Join(a: VersionVector, b: VersionVector): VersionVector {
    map c | c in a.Keys + b.Keys ::
      if c !in b then a[c] else if c !in a then b[c] else Max(a[c], b[c])
  }

  lemma LeqAntisymmetric(a: VersionVector, b: VersionVector)
    requires Leq(a, b) && Leq(b, a)
    ensures a == b
  {
  }

  /** `Join` is the least upper bound. */
  lemma JoinIsLub(a: VersionVector, b: VersionVector, c: VersionVector)
    ensures Leq(a, Join(a, b)) && Leq(b, Join(a, b))
    ensures Leq(Join(a, b), c) <==> Leq(a, c) && Leq(b, c)
  {
  }

  /** `u` is the least upper bound of the vectors in `s`. */
  ghost predicate IsLub(u: VersionVector, s: set<VersionVector>) {
    && (forall v :: v in s ==> Leq(v, u))
    && (forall w: VersionVector :: (forall v :: v in s ==> Leq(v, w)) ==> Leq(u, w))
  }

  lemma LubIsUnique(u: VersionVector, w: VersionVector, s: set<VersionVector>)
    requires IsLub(u, s) && IsLub(w, s)
    ensures u == w
  {
    LeqAntisymmetric(u, w);
  }

  // ----- comp_version

  /** What the four-way comparison means in terms of the order. */
  function Compare(a: Version, b: Version): Comparison {
    if a.vv == b.vv then Equal
    else if Leq(a.vv, b.vv) then Lower
    else if Leq(b.vv, a.vv) then Bigger
    else Concurrent
  }

  lemma CompareIsDual(a: Version, b: Version)
    ensures Compare(b, a) == Compare(a, b).Dual()
  {
  }

  lemma CardinalityDecides<T>(a: set<T>, b: set<T>)
    requires a <= b
    ensures |a| <= |b|
    ensures |a| == |b| <==> a == b
  {
    assert b == a + (b - a);
    assert |b| == |a| + |b - a|;
  }

  /** The entries of `done` on which `a` is at or above `b`. */
  ghost function AtOrAbove(a: VersionVector, b: VersionVector, done: set<ClientId>): set<ClientId> {
    set c | c in done && c in a && c in b && b[c] <= a[c]
  }

  lemma AtOrAboveGrows(a: VersionVector, b: VersionVector, done: set<ClientId>, c: ClientId)
    requires c in a && c !in done
    ensures |AtOrAbove(a, b, done + {c})| ==
            |AtOrAbove(a, b, done)| + if c in b && b[c] <= a[c] then 1 else 0
  {
    if c in b && b[c] <= a[c] {
      assert AtOrAbove(a, b, done + {c}) == AtOrAbove(a, b, done) + {c};
    } else {
      assert AtOrAbove(a, b, done + {c}) == AtOrAbove(a, b, done);
    }
  }

  ghost predicate EqualOn(a: VersionVector, b: VersionVector, done: set<ClientId>) {
    forall c :: c in done && c in a ==> c in b && a[c] == b[c]
  }

  ghost predicate LowerOn(a: VersionVector, b: VersionVector, done: set<ClientId>) {
    forall c :: c in done && c in a ==> c in b && a[c] <= b[c]
  }

  ghost predicate BiggerOn(a: VersionVector, b: VersionVector, done: set<ClientId>) {
    forall c :: c in done && c in a && c in b ==> b[c] <= a[c]
  }

  lemma FlagsGrow(a: VersionVector, b: VersionVector, done: set<ClientId>, c: ClientId)
    requires c in a && c !in done
    ensures EqualOn(a, b, done + {c}) <==> EqualOn(a, b, done) && c in b && a[c] == b[c]
    ensures LowerOn(a, b, done + {c}) <==> LowerOn(a, b, done) && c in b && a[c] <= b[c]
    ensures BiggerOn(a, b, done + {c}) <==> BiggerOn(a, b, done) && (c in b ==> b[c] <= a[c])
  {
  }

  /** What the flags and the counter hold once only `todo` is left. */
  ghost predicate Counted(a: VersionVector, b: VersionVector, todo: set<ClientId>,
                          isEqual: bool, isLower: bool, isBigger: bool, biggerCount: nat) {
    var done := a.Keys - todo;
    && (isEqual <==> EqualOn(a, b, done))
    && (isLower <==> LowerOn(a, b, done))
    && (isBigger <==> BiggerOn(a, b, done))
    && biggerCount == |AtOrAbove(a, b, done)|
  }

  lemma CountedStep(a: VersionVector, b: VersionVector, todo: set<ClientId>, c: ClientId,
                    isEqual: bool, isLower: bool, isBigger: bool, biggerCount: nat)
    requires c in todo && todo <= a.Keys && Counted(a, b, todo, isEqual, isLower, isBigger, biggerCount)
    ensures c !in b ==> Counted(a, b, todo - {c}, false, false, isBigger, biggerCount)
    ensures c in b ==> Counted(a, b, todo - {c}, isEqual && a[c] == b[c], isLower && a[c] <= b[c],
                               isBigger && a[c] >= b[c], if a[c] >= b[c] then biggerCount + 1 else biggerCount)
  {
    var done := a.Keys - todo;
    AtOrAboveGrows(a, b, done, c);
    FlagsGrow(a, b, done, c);
    assert a.Keys - (todo - {c}) == done + {c};
  }

  /** The pass over the entries of `a`, with three flags and a counter. */
  method CompareEntries(a: VersionVector, b: VersionVector)
    returns (isEqual: bool, isLower: bool, isBigger: bool, biggerCount: nat)
    ensures Counted(a, b, {}, isEqual, isLower, isBigger, biggerCount)
  {
    isEqual, isLower, isBigger, biggerCount := true, true, true, 0;
    var todo := a.Keys;
    assert AtOrAbove(a, b, a.Keys - todo) == {};
    while todo != {}
      invariant todo <= a.Keys && Counted(a, b, todo, isEqual, isLower, isBigger, biggerCount)
      decreases todo
    {
      var c :| c in todo;
      CountedStep(a, b, todo, c, isEqual, isLower, isBigger, biggerCount);
      if c !in b {
        isEqual, isLower := false, false;
      } else {
        if a[c] != b[c] { isEqual := false; }
        if a[c] > b[c] { isLower := false; }
        if a[c] < b[c] { isBigger := false; }
        if a[c] >= b[c] { biggerCount := biggerCount + 1; }
      }
      todo := todo - {c};
    }
  }

  /** `comp_version`. */
  method CompVersion(a: Version, b: Version) returns (r: Comparison)
    ensures r == Compare(a, b)
  {
    var isEqual, isLower, isBigger, biggerCount := CompareEntries(a.vv, b.vv);
    CompareByCounting(a.vv, b.vv);
    assert a.vv.Keys - {} == a.vv.Keys;
    if isEqual && |a.vv| == |b.vv| { return Equal; }
    if isLower && |a.vv| <= |b.vv| { return Lower; }
    if isBigger && biggerCount == |b.vv| && |a.vv| >= |b.vv| { return Bigger; }
    return Concurrent;
  }

  /** The flags, the counter and the two sizes decide the order. */
  lemma CompareByCounting(a: VersionVector, b: VersionVector)
    ensures EqualOn(a, b, a.Keys) && |a| == |b| <==> a == b
    ensures LowerOn(a, b, a.Keys) && |a| <= |b| <==> Leq(a, b)
    ensures BiggerOn(a, b, a.Keys) && |AtOrAbove(a, b, a.Keys)| == |b| && |a| >= |b| <==> Leq(b, a)
  {
    assert |a| == |a.Keys| && |b| == |b.Keys|;
    if Leq(a, b) || EqualOn(a, b, a.Keys) { CardinalityDecides(a.Keys, b.Keys); }
    var above := AtOrAbove(a, b, a.Keys);
    CardinalityDecides(above, b.Keys);
    CardinalityDecides(above, a.Keys);
    if Leq(b, a) { assert above == b.Keys; }
  }

  /** `operator==` on versions: vectors compared entry by entry, then sizes and client ids. */
  method VersionEquals(a: Version, b: Version) returns (r: bool)
    ensures r <==> a == b
    ensures r <==> Compare(a, b) == Equal && a.clientId == b.clientId
  {
    var todo := a.vv.Keys;
    while todo != {}
      invariant todo <= a.vv.Keys
      invariant forall c :: c in a.vv && c !in todo ==> c in b.vv && a.vv[c] == b.vv[c]
      decreases todo
    {
      var c :| c in todo;
      if c !in b.vv || a.vv[c] != b.vv[c] { return false; }
      todo := todo - {c};
    }
    CardinalityDecides(a.vv.Keys, b.vv.Keys);
    r := |a.vv.Keys| == |b.vv.Keys| && a.clientId == b.clientId;
  }

  // ----- merge_kv and add_vv

  function Merged(a: Version, b: Version): Version {
    Version(Join(a.vv, b.vv), if b.clientId.n < a.clientId.n then b.clientId else a.clientId)
  }

  lemma MergedCommutes(a: Version, b: Version)
    ensures Merged(a, b) == Merged(b, a)
  {
  }

  /** `merge_kv`: copies the first version and folds the entries of the second into it. */
  method MergeKv(a: Version, b: Version) returns (r: Version)
    ensures r == Merged(a, b)
  {
    r := a;
    var todo := b.vv.Keys;
    while todo != {}
      invariant todo <= b.vv.Keys
      invariant r.clientId == a.clientId
      invariant r.vv.Keys == a.vv.Keys + (b.vv.Keys - todo)
      invariant forall c :: c in r.vv ==>
        r.vv[c] == if c in b.vv && c !in todo then Join(a.vv, b.vv)[c] else a.vv[c]
      decreases todo
    {
      var c :| c in todo;
      if c !in r.vv || r.vv[c] < b.vv[c] {
        r := r.(vv := r.vv[c := b.vv[c]]);
      }
      todo := todo - {c};
    }
    assert r.vv.Keys == Join(a.vv, b.vv).Keys;
    if b.clientId.n < r.clientId.n {
      r := r.(clientId := b.clientId);
    }
  }

  /** The version a client writes: its own clock added to the base, stamped with its id. */
  function Issued(id: ClientId, clock: int, base: Version): Version {
    Version(Join(map[id := clock], base.vv), id)
  }

  /** `add_vv`, which starts from a default version holding one entry. */
  method AddVv(id: ClientId, clock: int, base: Version) returns (r: Version)
    ensures r.vv == Issued(id, clock, base).vv
    ensures r.clientId == if base.clientId.n < LONG_MAX then base.clientId else ClientId(LONG_MAX)
  {
    r := MergeKv(Version(map[id := clock], ClientId(LONG_MAX)), base);
  }

  /** A version issued with a clock above everything recorded for `id` is strictly bigger than
      its base and is below no vector that has not seen that clock. */
  lemma IssuedIsFresh(id: ClientId, clock: int, base: Version, other: VersionVector)
    requires id in base.vv ==> base.vv[id] < clock
    requires id in other ==> other[id] < clock
    ensures Compare(Issued(id, clock, base), base) == Bigger
    ensures !Leq(Issued(id, clock, base).vv, other)
  {
  }

  /** `clock_vv`: the per-client counter, which starts at 0 and only grows. */
  class Clock {
    var clock: nat

    constructor ()
      ensures clock == 0
    {
      clock := 0;
    }

    method IncrementAndGet() returns (now: nat)
      modifies this
      ensures now == clock == old(clock) + 1
    {
      clock := clock + 1;
      now := clock;
    }
  }
}
