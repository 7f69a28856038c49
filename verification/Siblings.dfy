/** The list of concurrent versions ("siblings") that a replica keeps for one file key.

A put replaces the first sibling it dominates and stops there, and is appended only when it is
concurrent with every sibling. The client folds the versions it is told about with the same
loop. The list may therefore keep dominated siblings; what it never does is lose the frontier
of the writes it has seen.
*/
module Siblings {
  import opened Versions

  datatype Sibling<+D> = Sibling(version: Version, data: D)

  /** Index of the first sibling that `v` strictly dominates, or the length of the list. */
  function FirstBelow<D>(s: seq<Sibling<D>>, v: Version): (i: nat)
    ensures i <= |s|
    ensures i < |s| ==> Compare(v, s[i].version) == Bigger
    ensures forall j :: 0 <= j < i ==> Compare(v, s[j].version) != Bigger
  {
    if s == [] || Compare(v, s[0].version) == Bigger then 0 else 1 + FirstBelow(s[1..], v)
  }

  predicate AllConcurrent<D>(s: seq<Sibling<D>>, v: Version) {
    forall j :: 0 <= j < |s| ==> Compare(v, s[j].version) == Concurrent
  }

  /** The list after one put. */
  function Placed<D>(s: seq<Sibling<D>>, e: Sibling<D>): seq<Sibling<D>> {
    var i := FirstBelow(s, e.version);
    if i < |s| then s[i := e]
    else if AllConcurrent(s, e.version) then s + [e]
    else s
  }

  /** The sibling loop: replace and stop at the first dominated entry, count the concurrent ones,
      append when all of them are. */
  method Place<D>(vdata: seq<Sibling<D>>, vd: Sibling<D>) returns (r: seq<Sibling<D>>)
    ensures r == Placed(vdata, vd)
  {
    r := vdata;
    var concurrent := 0;
    var i := 0;
    while i < |vdata|
      invariant 0 <= concurrent <= i <= |vdata|
      invariant r == vdata
      invariant forall j :: 0 <= j < i ==> Compare(vd.version, vdata[j].version) != Bigger
      invariant concurrent == i <==>
                forall j :: 0 <= j < i ==> Compare(vd.version, vdata[j].version) == Concurrent
    {
      var vcomp := CompVersion(vd.version, vdata[i].version);
      if vcomp == Bigger {
        r := r[i := vd];
        break;
      } else if vcomp == Concurrent {
        concurrent := concurrent + 1;
      }
      i := i + 1;
    }
    if concurrent == |r| {
      r := r + [vd];
    }
  }

  // ----- one put

  /** Some sibling is at or above `v`. */
  ghost predicate Covers<D>(s: seq<Sibling<D>>, v: VersionVector) {
    exists i :: 0 <= i < |s| && Leq(v, s[i].version.vv)
  }

  lemma PlacedCovers<D>(s: seq<Sibling<D>>, e: Sibling<D>)
    ensures Covers(Placed(s, e), e.version.vv)
  {
    var i := FirstBelow(s, e.version);
    var r := Placed(s, e);
    if i < |s| {
      assert r[i] == e;
    } else if AllConcurrent(s, e.version) {
      assert r[|s|] == e;
    } else {
      var j :| 0 <= j < |s| && Compare(e.version, s[j].version) != Concurrent;
      assert Leq(e.version.vv, r[j].version.vv);
    }
  }

  lemma PlacedKeepsCover<D>(s: seq<Sibling<D>>, e: Sibling<D>, v: VersionVector)
    requires Covers(s, v)
    ensures Covers(Placed(s, e), v)
  {
    var k :| 0 <= k < |s| && Leq(v, s[k].version.vv);
    assert Leq(v, Placed(s, e)[k].version.vv);
  }

  lemma PlacedOnlyAdds<D>(s: seq<Sibling<D>>, e: Sibling<D>, x: Sibling<D>)
    requires x in Placed(s, e)
    ensures x in s || x == e
  {
  }

  /** No two siblings are comparable. */
  ghost predicate Antichain<D>(s: seq<Sibling<D>>) {
    forall i, j :: 0 <= i < j < |s| ==> Compare(s[i].version, s[j].version) == Concurrent
  }

  ghost predicate DominatesAtMostOne<D>(s: seq<Sibling<D>>, v: Version) {
    forall i, j :: 0 <= i < j < |s| ==>
      !(Compare(v, s[i].version) == Bigger && Compare(v, s[j].version) == Bigger)
  }

  /** Exactly when a put keeps the list free of dominated siblings. */
  lemma PlacedAntichainIff<D>(s: seq<Sibling<D>>, e: Sibling<D>)
    requires Antichain(s)
    ensures Antichain(Placed(s, e)) <==> DominatesAtMostOne(s, e.version)
  {
    var i := FirstBelow(s, e.version);
    var r := Placed(s, e);
    forall j, k | 0 <= j < |s| && 0 <= k < |s|
      ensures Compare(s[k].version, s[j].version) == Compare(s[j].version, s[k].version).Dual()
      ensures Compare(s[k].version, e.version) == Compare(e.version, s[k].version).Dual()
    {
      CompareIsDual(s[j].version, s[k].version);
      CompareIsDual(e.version, s[k].version);
    }
    if i < |s| {
      assert r[i] == e;
      forall j | 0 <= j < |s| && j != i
        ensures Compare(e.version, s[j].version) == Bigger || Compare(e.version, s[j].version) == Concurrent
      {
        if Leq(e.version.vv, s[j].version.vv) { assert Leq(s[i].version.vv, s[j].version.vv); }
      }
      if !DominatesAtMostOne(s, e.version) {
        var j, k :| 0 <= j < k < |s| && Compare(e.version, s[j].version) == Bigger
                    && Compare(e.version, s[k].version) == Bigger;
        var m := if j == i then k else j;
        assert r[m] == s[m] && r[i] == e;
      }
    }
  }

  /** The obvious stronger claim fails: a write that dominates two siblings leaves one of them. */
  lemma DominatedSiblingCanRemain()
    returns (s: seq<Sibling<()>>, e: Sibling<()>)
    ensures Antichain(s) && !Antichain(Placed(s, e))
    ensures exists i, j :: 0 <= i < |Placed(s, e)| && 0 <= j < |Placed(s, e)|
              && Less(Placed(s, e)[i].version.vv, Placed(s, e)[j].version.vv)
  {
    var x, y := ClientId(1), ClientId(2);
    s := [Sibling(Version(map[x := 1], x), ()), Sibling(Version(map[y := 1], y), ())];
    e := Sibling(Version(map[x := 2, y := 2], x), ());
    assert x !in s[1].version.vv && y !in s[0].version.vv;
    assert Compare(e.version, s[0].version) == Bigger && Compare(e.version, s[1].version) == Bigger;
    PlacedAntichainIff(s, e);
    assert Placed(s, e) == [e, s[1]];
    assert Less(Placed(s, e)[1].version.vv, Placed(s, e)[0].version.vv);
  }

  // ----- every sequence of puts

  /** The list after a sequence of puts on an absent key. */
  function AfterPuts<D>(es: seq<Sibling<D>>): seq<Sibling<D>> {
    if es == [] then [] else Placed(AfterPuts(es[..|es| - 1]), es[|es| - 1])
  }

  /** The list is free of dominated siblings after every put of the sequence. */
  ghost predicate AlwaysAntichain<D>(es: seq<Sibling<D>>) {
    es == [] || (AlwaysAntichain(es[..|es| - 1]) && Antichain(AfterPuts(es)))
  }

  /** No put of the sequence dominates two of the siblings it finds. */
  ghost predicate NeverDominatesTwo<D>(es: seq<Sibling<D>>) {
    es == [] || (NeverDominatesTwo(es[..|es| - 1])
                 && DominatesAtMostOne(AfterPuts(es[..|es| - 1]), es[|es| - 1].version))
  }

  /** The exact condition for a list without dominated siblings, over a whole history. */
  lemma {:induction false} AlwaysAntichainIff<D>(es: seq<Sibling<D>>)
    ensures AlwaysAntichain(es) <==> NeverDominatesTwo(es)
  {
    if es == [] {
    } else {
      var before := es[..|es| - 1];
      AlwaysAntichainIff(before);
      if AlwaysAntichain(before) {
        assert Antichain(AfterPuts(before));
        PlacedAntichainIff(AfterPuts(before), es[|es| - 1]);
      }
    }
  }

  /** Only what was put is stored, and everything put stays covered. */
  lemma {:induction false} SiblingsRefineHistory<D>(es: seq<Sibling<D>>)
    ensures forall x :: x in AfterPuts(es) ==> x in es
    ensures forall e :: e in es ==> Covers(AfterPuts(es), e.version.vv)
    ensures es != [] ==> AfterPuts(es) != []
  {
    if es == [] {
    } else {
      var before, e := es[..|es| - 1], es[|es| - 1];
      var list := AfterPuts(before);
      assert es == before + [e];
      SiblingsRefineHistory(before);
      forall x | x in Placed(list, e) ensures x in es { PlacedOnlyAdds(list, e, x); }
      forall x | x in es ensures Covers(Placed(list, e), x.version.vv) {
        if x in before { PlacedKeepsCover(list, e, x.version.vv); } else { PlacedCovers(list, e); }
      }
    }
  }

  ghost function Vectors<D(!new)>(s: seq<Sibling<D>>): set<VersionVector> {
    set x | x in s :: x.version.vv
  }

  /** The vectors of `s` that no other vector of `s` is above. */
  ghost function Frontier(s: set<VersionVector>): set<VersionVector> {
    set v | v in s && forall w :: w in s ==> !Less(v, w)
  }

  /** The list has the same maximal vectors as the full history of writes. */
  lemma FrontierIsKept<D(!new)>(es: seq<Sibling<D>>)
    ensures Frontier(Vectors(AfterPuts(es))) == Frontier(Vectors(es))
  {
    SiblingsRefineHistory(es);
    var list, all := Vectors(AfterPuts(es)), Vectors(es);
    assert list <= all;
    forall v | v in all ensures exists w :: w in list && Leq(v, w) {
      var e :| e in es && e.version.vv == v;
      assert Covers(AfterPuts(es), e.version.vv);
      var i :| 0 <= i < |AfterPuts(es)| && Leq(v, AfterPuts(es)[i].version.vv);
      assert AfterPuts(es)[i].version.vv in list;
    }
    FrontierOfCover(list, all);
  }

  lemma FrontierOfCover(list: set<VersionVector>, all: set<VersionVector>)
    requires list <= all
    requires forall v :: v in all ==> exists w :: w in list && Leq(v, w)
    ensures Frontier(list) == Frontier(all)
  {
    forall v | v in Frontier(list) ensures v in Frontier(all) {
      forall u | u in all ensures !Less(v, u) {
        var w :| w in list && Leq(u, w);
        if Less(v, u) {
          if v == w { LeqAntisymmetric(u, v); }
          assert Less(v, w);
        }
      }
    }
    forall v | v in Frontier(all) ensures v in Frontier(list) {
      var w :| w in list && Leq(v, w);
      assert !Less(v, w);
    }
  }

  /** Replicas that received the same writes, in any order and any number of times, keep the
      same frontier. */
  lemma SameWritesSameFrontier<D(!new)>(es: seq<Sibling<D>>, fs: seq<Sibling<D>>)
    requires forall x :: x in es <==> x in fs
    ensures Frontier(Vectors(AfterPuts(es))) == Frontier(Vectors(AfterPuts(fs)))
  {
    FrontierIsKept(es);
    FrontierIsKept(fs);
    assert Vectors(es) == Vectors(fs);
  }

  // ----- which siblings end up dominated

  lemma LessThenLeq(a: VersionVector, b: VersionVector, c: VersionVector)
    requires Leq(a, b) && Leq(b, c) && (a != b || b != c)
    ensures Less(a, c)
  {
    if a == c { LeqAntisymmetric(a, b); }
  }

  /** No sibling is strictly below a later one. */
  ghost predicate NoneBelowLater<D>(s: seq<Sibling<D>>) {
    forall i, j :: 0 <= i < j < |s| ==> !Less(s[i].version.vv, s[j].version.vv)
  }

  lemma PlacedNoneBelowLater<D>(s: seq<Sibling<D>>, e: Sibling<D>)
    requires NoneBelowLater(s)
    ensures NoneBelowLater(Placed(s, e))
  {
    var k, r := FirstBelow(s, e.version), Placed(s, e);
    forall i, j | 0 <= i < j < |r| ensures !Less(r[i].version.vv, r[j].version.vv) {
      CompareIsDual(r[i].version, r[j].version);
      if i == k && k < |s| && Less(e.version.vv, s[j].version.vv) {
        LessThenLeq(s[k].version.vv, e.version.vv, s[j].version.vv);
      }
    }
  }

  /** The put of `e` leaves the version `x` in the list although something in it is above `x`:
      either `e` dominates `x` but stops at an earlier sibling, or `e` itself is `x` and goes past
      a sibling above it to replace a later one. */
  predicate LeavesBehind<D>(s: seq<Sibling<D>>, e: Sibling<D>, x: Version) {
    var i := FirstBelow(s, e.version);
    && i < |s|
    && (|| (Compare(e.version, x) == Bigger && exists j :: i < j < |s| && s[j].version == x)
        || (e.version == x && exists m :: 0 <= m < i && Compare(x, s[m].version) == Lower))
  }

  predicate EverLeftBehind<D>(es: seq<Sibling<D>>, x: Version) {
    && es != []
    && (|| EverLeftBehind(es[..|es| - 1], x)
        || LeavesBehind(AfterPuts(es[..|es| - 1]), es[|es| - 1], x))
  }

  lemma {:induction false} ListNoneBelowLater<D>(es: seq<Sibling<D>>)
    ensures NoneBelowLater(AfterPuts(es))
  {
    if es == [] {
    } else {
      ListNoneBelowLater(es[..|es| - 1]);
      PlacedNoneBelowLater(AfterPuts(es[..|es| - 1]), es[|es| - 1]);
    }
  }

  /** A sibling that the put of `e` makes dominated is one that it leaves behind. */
  lemma NewlyDominated<D>(s: seq<Sibling<D>>, e: Sibling<D>, k: nat, m: nat)
    requires NoneBelowLater(s) && k < |Placed(s, e)| && m < |Placed(s, e)|
    requires Less(Placed(s, e)[k].version.vv, Placed(s, e)[m].version.vv)
    ensures || LeavesBehind(s, e, Placed(s, e)[k].version)
            || (k < |s| && m < |s| && s[k] == Placed(s, e)[k] && s[m] == Placed(s, e)[m])
  {
    var i, r := FirstBelow(s, e.version), Placed(s, e);
    PlacedNoneBelowLater(s, e);
    CompareIsDual(r[k].version, r[m].version);
    if i < |s| {
      assert r == s[i := e];
      assert m < k;
    }
  }

  /** A stored version is dominated by another stored one only if some put left it behind. */
  lemma {:induction false} DominatedWasLeftBehind<D>(es: seq<Sibling<D>>, k: nat, m: nat)
    requires k < |AfterPuts(es)| && m < |AfterPuts(es)|
    requires Less(AfterPuts(es)[k].version.vv, AfterPuts(es)[m].version.vv)
    ensures EverLeftBehind(es, AfterPuts(es)[k].version)
  {
    var before, e := es[..|es| - 1], es[|es| - 1];
    ListNoneBelowLater(before);
    NewlyDominated(AfterPuts(before), e, k, m);
    if !LeavesBehind(AfterPuts(before), e, AfterPuts(es)[k].version) {
      DominatedWasLeftBehind(before, k, m);
    }
  }

  lemma LeavesBehindIsBelow<D>(s: seq<Sibling<D>>, e: Sibling<D>, x: Version)
    requires LeavesBehind(s, e, x)
    ensures Less(x.vv, e.version.vv) || exists m :: 0 <= m < |s| && Less(x.vv, s[m].version.vv)
  {
  }

  /** Whatever was left behind is below some write. */
  lemma {:induction false} LeftBehindIsBelow<D>(es: seq<Sibling<D>>, x: Version)
    requires EverLeftBehind(es, x)
    ensures exists e :: e in es && Less(x.vv, e.version.vv)
  {
    var before, e := es[..|es| - 1], es[|es| - 1];
    assert es == before + [e];
    if EverLeftBehind(before, x) {
      LeftBehindIsBelow(before, x);
      var f :| f in before && Less(x.vv, f.version.vv);
      assert f in es;
    } else {
      var s := AfterPuts(before);
      LeavesBehindIsBelow(s, e, x);
      SiblingsRefineHistory(before);
      if !Less(x.vv, e.version.vv) {
        var m :| 0 <= m < |s| && Less(x.vv, s[m].version.vv);
        assert s[m] in s && s[m] in es;
      } else {
        assert e in es;
      }
    }
  }

  /** Exactly which stored versions some write dominates. */
  lemma DominatedIff<D>(es: seq<Sibling<D>>, k: nat)
    requires k < |AfterPuts(es)|
    ensures (exists e :: e in es && Less(AfterPuts(es)[k].version.vv, e.version.vv)) <==>
            EverLeftBehind(es, AfterPuts(es)[k].version)
  {
    var s := AfterPuts(es);
    if EverLeftBehind(es, s[k].version) { LeftBehindIsBelow(es, s[k].version); }
    SiblingsRefineHistory(es);
    if e :| e in es && Less(s[k].version.vv, e.version.vv) {
      assert Covers(s, e.version.vv);
      var m :| 0 <= m < |s| && Leq(e.version.vv, s[m].version.vv);
      LessThenLeq(s[k].version.vv, e.version.vv, s[m].version.vv);
      DominatedWasLeftBehind(es, k, m);
    }
  }
}
