/** How a client picks the version to return from the replies of a read. */
module ClientReads {
  import opened Versions
  import opened Siblings

  /** Some replied delete is at or above `v`. */
  predicate IsDeleted(v: Version, deletes: seq<Version>) {
    exists d :: d in deletes && Leq(v.vv, d.vv)
  }

  /** The replied versions that no replied delete dominates, in iteration order. */
  function Alive(keys: seq<Version>, deletes: seq<Version>): seq<Version> {
    if keys == [] then []
    else
      var front, last := Alive(keys[..|keys| - 1], deletes), keys[|keys| - 1];
      if IsDeleted(last, deletes) then front else front + [last]
  }

  function Bare(vs: seq<Version>): seq<Sibling<()>> {
    seq(|vs|, i requires 0 <= i < |vs| => Sibling(vs[i], ()))
  }

  function Candidates(keys: seq<Version>, deletes: seq<Version>): seq<Sibling<()>> {
    AfterPuts(Bare(Alive(keys, deletes)))
  }

  /** `choose_latest_version`: the first version with the smallest client id, or the default
      version when none is below `LONG_MAX`. */
  function Chosen(s: seq<Sibling<()>>): Version {
    if s == [] then DEFAULT_VERSION
    else
      var front, last := Chosen(s[..|s| - 1]), s[|s| - 1].version;
      if last.clientId.n < front.clientId.n then last else front
  }

  method ChooseLatestVersion(s: seq<Sibling<()>>) returns (chosen: Version)
    ensures chosen == Chosen(s)
  {
    chosen := DEFAULT_VERSION;
    for i := 0 to |s|
      invariant chosen == Chosen(s[..i])
    {
      assert s[..i + 1][..i] == s[..i];
      if s[i].version.clientId.n < chosen.clientId.n {
        chosen := s[i].version;
      }
    }
    assert s[..|s|] == s;
  }

  datatype Response<+D> = Ok(version: Version, data: D) | Deleted | NoData

  /** The version the fold settles on. */
  function Selected(keys: seq<Version>, deletes: seq<Version>): Version {
    var c := Candidates(keys, deletes);
    if |c| == 1 then c[0].version else Chosen(c)
  }

  /** The fold over the replies (`max_vv`). */
  method FoldReplies(keys: seq<Version>, deletes: seq<Version>) returns (maxVv: seq<Sibling<()>>)
    ensures maxVv == Candidates(keys, deletes)
  {
    maxVv := [];
    for i := 0 to |keys|
      invariant maxVv == Candidates(keys[..i], deletes)
    {
      var deleted := false;
      for j := 0 to |deletes|
        invariant !deleted && forall k :: 0 <= k < j ==> !Leq(keys[i].vv, deletes[k].vv)
      {
        var comparison := CompVersion(keys[i], deletes[j]);
        if comparison == Lower || comparison == Equal {
          deleted := true;
          break;
        }
      }
      assert deleted <==> IsDeleted(keys[i], deletes);
      assert keys[..i + 1][..i] == keys[..i];
      if !deleted {
        var alive := Alive(keys[..i], deletes);
        assert Bare(alive + [keys[i]])[..|alive|] == Bare(alive);
        maxVv := Place(maxVv, Sibling(keys[i], ()));
      }
    }
    assert keys[..|keys|] == keys;
  }

  /** The end of `wait_for_get_latest`, once enough replies are in. `order` is the iteration order
      of the reply map. */
  method WaitForGetLatest<D>(order: seq<Version>, data: map<Version, D>, deletes: seq<Version>)
    returns (r: Response<D>)
    requires forall v :: v in order <==> v in data
    ensures r.Ok? <==> Alive(order, deletes) != [] && Selected(order, deletes) in data
    ensures r.Ok? ==> r.version == Selected(order, deletes) && r.data == data[r.version]
    ensures r.Deleted? <==> Alive(order, deletes) == [] && deletes != []
    ensures r.Deleted? <==> deletes != [] && AllDeleted(order, deletes)
  {
    NoneAliveIff(order, deletes);
    var maxVv := FoldReplies(order, deletes);
    SiblingsRefineHistory(Bare(Alive(order, deletes)));
    var last := DEFAULT_VERSION;
    if |maxVv| > 1 {
      last := ChooseLatestVersion(maxVv);
    } else if |maxVv| == 1 {
      last := maxVv[0].version;
    }
    if maxVv != [] {
      if last in data { r := Ok(last, data[last]); } else { r := NoData; }
    } else if deletes != [] {
      r := Deleted;
    } else {
      r := NoData;
    }
  }

  // ----- what the selection means

  lemma {:induction false} AliveIsFilter(keys: seq<Version>, deletes: seq<Version>, v: Version)
    ensures v in Alive(keys, deletes) <==> v in keys && !IsDeleted(v, deletes)
  {
    if keys == [] {
    } else {
      var front, last := keys[..|keys| - 1], keys[|keys| - 1];
      AliveIsFilter(front, deletes, v);
      assert keys == front + [last];
    }
  }

  /** Every version is at or below a deleted one. */
  predicate AllDeleted(keys: seq<Version>, deletes: seq<Version>) {
    forall v :: v in keys ==> exists d :: d in deletes && Leq(v.vv, d.vv)
  }

  lemma NoneAliveIff(keys: seq<Version>, deletes: seq<Version>)
    ensures Alive(keys, deletes) == [] <==> AllDeleted(keys, deletes)
  {
    if Alive(keys, deletes) != [] { AliveIsFilter(keys, deletes, Alive(keys, deletes)[0]); }
    if v :| v in keys && !IsDeleted(v, deletes) { AliveIsFilter(keys, deletes, v); }
  }

  /** The candidates are replied versions that are not at or below a deleted one, and they cover all
      of those. */
  lemma CandidatesCoverReplies(keys: seq<Version>, deletes: seq<Version>)
    ensures forall c, d :: c in Candidates(keys, deletes) && d in deletes ==> !Leq(c.version.vv, d.vv)
    ensures forall c :: c in Candidates(keys, deletes) ==> c.version in keys && !IsDeleted(c.version, deletes)
    ensures forall v :: v in keys && (forall d :: d in deletes ==> !Leq(v.vv, d.vv)) ==>
              !IsDeleted(v, deletes) && Covers(Candidates(keys, deletes), v.vv)
  {
    var alive := Alive(keys, deletes);
    SiblingsRefineHistory(Bare(alive));
    forall c | c in Candidates(keys, deletes)
      ensures c.version in keys && !IsDeleted(c.version, deletes)
    {
      var i :| 0 <= i < |Bare(alive)| && Bare(alive)[i] == c;
      AliveIsFilter(keys, deletes, alive[i]);
    }
    forall v | v in keys && !IsDeleted(v, deletes) ensures Covers(Candidates(keys, deletes), v.vv) {
      AliveIsFilter(keys, deletes, v);
      var i :| 0 <= i < |alive| && alive[i] == v;
      assert Bare(alive)[i] in Bare(alive);
    }
  }

  predicate Chain(vs: seq<Version>) {
    forall i, j :: 0 <= i < j < |vs| ==> Compare(vs[i], vs[j]) != Concurrent
  }

  predicate PairwiseConcurrent(vs: seq<Version>) {
    forall i, j :: 0 <= i < j < |vs| ==> Compare(vs[i], vs[j]) == Concurrent
  }

  lemma AfterPutsBare(vs: seq<Version>)
    requires vs != []
    ensures AfterPuts(Bare(vs)) == Placed(AfterPuts(Bare(vs[..|vs| - 1])), Sibling(vs[|vs| - 1], ()))
  {
    assert Bare(vs)[..|vs| - 1] == Bare(vs[..|vs| - 1]);
  }

  lemma KeptWasPut(vs: seq<Version>, x: Sibling<()>) returns (i: nat)
    requires x in AfterPuts(Bare(vs))
    ensures i < |vs| && vs[i] == x.version
  {
    SiblingsRefineHistory(Bare(vs));
    i :| 0 <= i < |Bare(vs)| && Bare(vs)[i] == x;
  }

  lemma PlacedOnOne(x: Sibling<()>, e: Sibling<()>)
    requires Compare(e.version, x.version) != Concurrent
    ensures |Placed([x], e)| == 1
  {
  }

  lemma {:induction false} ChainKeepsOne(vs: seq<Version>)
    requires vs != [] && Chain(vs)
    ensures |AfterPuts(Bare(vs))| == 1
  {
    var front, last := vs[..|vs| - 1], vs[|vs| - 1];
    AfterPutsBare(vs);
    if front == [] {
      assert AfterPuts(Bare(front)) == [];
    } else {
      ChainKeepsOne(front);
      var kept := AfterPuts(Bare(front))[0];
      assert AfterPuts(Bare(front)) == [kept];
      var i := KeptWasPut(front, kept);
      assert Compare(vs[i], last) != Concurrent;
      CompareIsDual(vs[i], last);
      PlacedOnOne(kept, Sibling(last, ()));
    }
  }

  /** If the live versions form a chain the greatest is selected. */
  lemma ChainSelectsGreatest(keys: seq<Version>, deletes: seq<Version>)
    requires Alive(keys, deletes) != [] && Chain(Alive(keys, deletes))
    ensures var r := Selected(keys, deletes);
            && r in keys && !IsDeleted(r, deletes)
            && forall v :: v in keys && !IsDeleted(v, deletes) ==> Leq(v.vv, r.vv)
  {
    ChainKeepsOne(Alive(keys, deletes));
    var c := Candidates(keys, deletes);
    assert c == [c[0]] && c[0] in c;
    CandidatesCoverReplies(keys, deletes);
    forall v | v in keys && !IsDeleted(v, deletes) ensures Leq(v.vv, c[0].version.vv) {
      assert Covers(c, v.vv);
    }
  }

  lemma PlacedAfterConcurrent(s: seq<Sibling<()>>, e: Sibling<()>)
    requires AllConcurrent(s, e.version)
    ensures Placed(s, e) == s + [e]
  {
  }

  lemma BareSnoc(vs: seq<Version>)
    requires vs != []
    ensures Bare(vs) == Bare(vs[..|vs| - 1]) + [Sibling(vs[|vs| - 1], ())]
  {
  }

  lemma ConcurrentWithFront(vs: seq<Version>)
    requires vs != [] && PairwiseConcurrent(vs)
    ensures AllConcurrent(Bare(vs[..|vs| - 1]), vs[|vs| - 1])
  {
    forall i | 0 <= i < |vs| - 1 ensures Compare(vs[|vs| - 1], vs[i]) == Concurrent {
      CompareIsDual(vs[i], vs[|vs| - 1]);
    }
  }

  lemma {:induction false} ConcurrentKeepsAll(vs: seq<Version>)
    requires PairwiseConcurrent(vs)
    ensures AfterPuts(Bare(vs)) == Bare(vs)
  {
    if vs == [] {
    } else {
      var front, last := vs[..|vs| - 1], vs[|vs| - 1];
      AfterPutsBare(vs);
      ConcurrentKeepsAll(front);
      ConcurrentWithFront(vs);
      PlacedAfterConcurrent(Bare(front), Sibling(last, ()));
      BareSnoc(vs);
    }
  }

  lemma {:induction false} ChosenIsSmallest(s: seq<Sibling<()>>)
    ensures forall x :: x in s ==> Chosen(s).clientId.n <= x.version.clientId.n
    ensures Chosen(s) == DEFAULT_VERSION || exists x :: x in s && x.version == Chosen(s)
    ensures Chosen(s).clientId.n <= LONG_MAX
  {
    if s == [] {
    } else {
      var front, last := s[..|s| - 1], s[|s| - 1];
      ChosenIsSmallest(front);
      assert s == front + [last];
      assert Chosen(s) == last.version || Chosen(s) == Chosen(front);
    }
  }

  /** If the live versions are pairwise concurrent the one of the smallest client is selected. */
  lemma ConcurrentSelectsSmallestClient(keys: seq<Version>, deletes: seq<Version>)
    requires Alive(keys, deletes) != [] && PairwiseConcurrent(Alive(keys, deletes))
    requires forall v :: v in keys ==> v.clientId.n < LONG_MAX
    ensures var r := Selected(keys, deletes);
            && r in keys && !IsDeleted(r, deletes)
            && forall v :: v in keys && !IsDeleted(v, deletes) ==> r.clientId.n <= v.clientId.n
  {
    var alive := Alive(keys, deletes);
    ConcurrentKeepsAll(alive);
    CandidatesCoverReplies(keys, deletes);
    ChosenIsSmallest(Bare(alive));
    assert Bare(alive)[0] in Bare(alive);
    forall v | v in keys && !IsDeleted(v, deletes)
      ensures Selected(keys, deletes).clientId.n <= v.clientId.n
    {
      AliveIsFilter(keys, deletes, v);
      var i :| 0 <= i < |alive| && alive[i] == v;
      assert Bare(alive)[i] in Bare(alive);
    }
  }

  lemma SelectedIsCandidate(keys: seq<Version>, deletes: seq<Version>)
    requires Alive(keys, deletes) != [] && forall v :: v in keys ==> v.clientId.n < LONG_MAX
    ensures exists x :: x in Candidates(keys, deletes) && x.version == Selected(keys, deletes)
  {
    var c := Candidates(keys, deletes);
    SiblingsRefineHistory(Bare(Alive(keys, deletes)));
    CandidatesCoverReplies(keys, deletes);
    ChosenIsSmallest(c);
    assert c[0] in c;
  }

  // ----- when the selected version is dominated

  /** A replied version that no replied delete dominates. */
  predicate Live(keys: seq<Version>, deletes: seq<Version>, v: Version) {
    v in keys && !IsDeleted(v, deletes)
  }

  /** No live reply is above `r`. */
  ghost predicate Undominated(keys: seq<Version>, deletes: seq<Version>, r: Version) {
    forall v :: Live(keys, deletes, v) ==> !Less(r.vv, v.vv)
  }

  lemma BareIsLive(keys: seq<Version>, deletes: seq<Version>, v: Version)
    ensures Live(keys, deletes, v) <==> Sibling(v, ()) in Bare(Alive(keys, deletes))
  {
    var alive := Alive(keys, deletes);
    AliveIsFilter(keys, deletes, v);
    if v in alive {
      var i :| 0 <= i < |alive| && alive[i] == v;
      assert Bare(alive)[i] == Sibling(v, ());
    }
    if Sibling(v, ()) in Bare(alive) {
      var i :| 0 <= i < |alive| && Bare(alive)[i] == Sibling(v, ());
      assert alive[i] == v;
    }
  }

  /** The selected version is above or beside every live reply exactly when no reply that the fold
      placed left it behind. */
  lemma SelectionIsMaximalIff(keys: seq<Version>, deletes: seq<Version>)
    requires Alive(keys, deletes) != [] && forall v :: v in keys ==> v.clientId.n < LONG_MAX
    ensures Undominated(keys, deletes, Selected(keys, deletes)) <==>
            !EverLeftBehind(Bare(Alive(keys, deletes)), Selected(keys, deletes))
  {
    var c, r, es := Candidates(keys, deletes), Selected(keys, deletes), Bare(Alive(keys, deletes));
    SelectedIsCandidate(keys, deletes);
    var k :| 0 <= k < |c| && c[k].version == r;
    DominatedIff(es, k);
    if v :| Live(keys, deletes, v) && Less(r.vv, v.vv) {
      BareIsLive(keys, deletes, v);
      assert Sibling(v, ()) in es;
    }
    if e :| e in es && Less(r.vv, e.version.vv) {
      assert e == Sibling(e.version, ());
      BareIsLive(keys, deletes, e.version);
    }
  }

  predicate SmallestLive(keys: seq<Version>, deletes: seq<Version>, v: Version) {
    Live(keys, deletes, v) && forall w :: w in keys && !IsDeleted(w, deletes) ==> v.clientId.n <= w.clientId.n
  }

  lemma SmallestLiveExists(keys: seq<Version>, deletes: seq<Version>) returns (v: Version)
    requires Alive(keys, deletes) != [] && forall w :: w in keys ==> w.clientId.n < LONG_MAX
    ensures SmallestLive(keys, deletes, v)
  {
    var alive := Alive(keys, deletes);
    ChosenIsSmallest(Bare(alive));
    v := Chosen(Bare(alive));
    assert Bare(alive)[0] in Bare(alive) && alive[0] in alive;
    AliveIsFilter(keys, deletes, alive[0]);
    BareIsLive(keys, deletes, v);
    forall w | w in keys && !IsDeleted(w, deletes) ensures v.clientId.n <= w.clientId.n {
      BareIsLive(keys, deletes, w);
      assert Sibling(w, ()) in Bare(alive);
    }
  }

  /** A guard that does not look at the order of the replies: if the live replies of the smallest
      client are maximal, and no other reply carries their vectors, the selection is maximal. */
  lemma MaximalSmallestSelectsMaximal(keys: seq<Version>, deletes: seq<Version>)
    requires Alive(keys, deletes) != [] && forall v :: v in keys ==> v.clientId.n < LONG_MAX
    requires forall v, w :: SmallestLive(keys, deletes, v) && Live(keys, deletes, w) ==>
               !Less(v.vv, w.vv) && (v.vv == w.vv ==> v == w)
    ensures SmallestLive(keys, deletes, Selected(keys, deletes))
    ensures Undominated(keys, deletes, Selected(keys, deletes))
  {
    var c := Candidates(keys, deletes);
    var v := SmallestLiveExists(keys, deletes);
    CandidatesCoverReplies(keys, deletes);
    SelectedIsCandidate(keys, deletes);
    assert Covers(c, v.vv);
    var i :| 0 <= i < |c| && Leq(v.vv, c[i].version.vv);
    assert c[i] in c && Live(keys, deletes, c[i].version);
    assert c[i].version == v;
    ChosenIsSmallest(c);
  }

  // ----- the iteration order of the reply map

  ghost predicate Distinct(keys: seq<Version>) {
    forall i, j :: 0 <= i < j < |keys| ==> keys[i] != keys[j]
  }

  /** Two iteration orders of the same replies. */
  ghost predicate SameReplies(keys: seq<Version>, keys': seq<Version>) {
    Distinct(keys) && Distinct(keys') && forall v :: v in keys <==> v in keys'
  }

  ghost predicate OrderIsIrrelevant(keys: seq<Version>, deletes: seq<Version>) {
    forall keys' :: SameReplies(keys, keys') ==> Selected(keys', deletes) == Selected(keys, deletes)
  }

  lemma SameRepliesAlive(keys: seq<Version>, keys': seq<Version>, deletes: seq<Version>)
    requires SameReplies(keys, keys') && Alive(keys, deletes) != []
    ensures Alive(keys', deletes) != []
  {
    var v := Alive(keys, deletes)[0];
    AliveIsFilter(keys, deletes, v);
    AliveIsFilter(keys', deletes, v);
  }

  /** The order in which a given reply comes first. */
  lemma InFront(keys: seq<Version>, i: nat) returns (keys': seq<Version>)
    requires Distinct(keys) && i < |keys|
    ensures SameReplies(keys, keys') && keys' != [] && keys'[0] == keys[i]
  {
    var rest := keys[..i] + keys[i + 1..];
    keys' := [keys[i]] + rest;
    assert forall m :: 0 <= m < |rest| ==> rest[m] == keys[if m < i then m else m + 1];
    assert keys == keys[..i] + [keys[i]] + keys[i + 1..];
  }

  lemma {:induction false} AliveFirst(keys: seq<Version>, deletes: seq<Version>)
    requires keys != [] && !IsDeleted(keys[0], deletes)
    ensures Alive(keys, deletes) != [] && Alive(keys, deletes)[0] == keys[0]
  {
    if |keys| == 1 {
      assert Alive(keys[..0], deletes) == [];
    } else {
      AliveFirst(keys[..|keys| - 1], deletes);
    }
  }

  lemma {:induction false} AliveDistinct(keys: seq<Version>, deletes: seq<Version>)
    requires Distinct(keys)
    ensures Distinct(Alive(keys, deletes))
  {
    if keys == [] {
    } else {
      var front, last := keys[..|keys| - 1], keys[|keys| - 1];
      AliveDistinct(front, deletes);
      AliveIsFilter(front, deletes, last);
      assert last !in front;
    }
  }

  // chains

  ghost predicate LiveComparable(keys: seq<Version>, deletes: seq<Version>) {
    forall v, w :: Live(keys, deletes, v) && Live(keys, deletes, w) ==> Compare(v, w) != Concurrent
  }

  ghost predicate GreatestLive(keys: seq<Version>, deletes: seq<Version>, v: Version) {
    Live(keys, deletes, v) && forall w :: Live(keys, deletes, w) ==> Leq(w.vv, v.vv)
  }

  lemma ComparableIsChain(keys: seq<Version>, deletes: seq<Version>)
    requires LiveComparable(keys, deletes)
    ensures Chain(Alive(keys, deletes))
  {
    forall i | 0 <= i < |Alive(keys, deletes)| ensures Live(keys, deletes, Alive(keys, deletes)[i]) {
      AliveIsFilter(keys, deletes, Alive(keys, deletes)[i]);
    }
  }

  lemma {:induction false} FirstGreatestStays(vs: seq<Version>)
    requires vs != [] && forall v :: v in vs ==> Leq(v.vv, vs[0].vv)
    ensures AfterPuts(Bare(vs)) == [Sibling(vs[0], ())]
  {
    AfterPutsBare(vs);
    if |vs| == 1 {
      assert AfterPuts(Bare(vs[..0])) == [];
    } else {
      FirstGreatestStays(vs[..|vs| - 1]);
      var last := vs[|vs| - 1];
      assert [Sibling(vs[0], ())][0].version == vs[0] && Leq(last.vv, vs[0].vv);
      if Leq(vs[0].vv, last.vv) { LeqAntisymmetric(vs[0].vv, last.vv); }
    }
  }

  /** Among comparable live replies the order is irrelevant exactly when one version alone has the
      greatest vector. */
  lemma ChainOrderIff(keys: seq<Version>, deletes: seq<Version>)
    requires Distinct(keys) && Alive(keys, deletes) != [] && LiveComparable(keys, deletes)
    ensures OrderIsIrrelevant(keys, deletes) <==>
            forall v, w :: GreatestLive(keys, deletes, v) && GreatestLive(keys, deletes, w) ==> v == w
  {
    if forall v, w :: GreatestLive(keys, deletes, v) && GreatestLive(keys, deletes, w) ==> v == w {
      forall keys' | SameReplies(keys, keys') ensures Selected(keys', deletes) == Selected(keys, deletes) {
        SameRepliesAlive(keys, keys', deletes);
        ChainGreatest(keys, deletes);
        ChainGreatest(keys', deletes);
        assert GreatestLive(keys, deletes, Selected(keys', deletes));
      }
    }
    if v, w :| GreatestLive(keys, deletes, v) && GreatestLive(keys, deletes, w) && v != w {
      var u := if v == Selected(keys, deletes) then w else v;
      var _ := GreatestFirst(keys, deletes, u);
    }
  }

  lemma ChainGreatest(keys: seq<Version>, deletes: seq<Version>)
    requires Alive(keys, deletes) != [] && LiveComparable(keys, deletes)
    ensures GreatestLive(keys, deletes, Selected(keys, deletes))
  {
    ComparableIsChain(keys, deletes);
    ChainSelectsGreatest(keys, deletes);
  }

  lemma GreatestFirst(keys: seq<Version>, deletes: seq<Version>, u: Version) returns (keys': seq<Version>)
    requires Distinct(keys) && GreatestLive(keys, deletes, u)
    ensures SameReplies(keys, keys') && Selected(keys', deletes) == u
  {
    var i :| 0 <= i < |keys| && keys[i] == u;
    keys' := InFront(keys, i);
    AliveFirst(keys', deletes);
    forall v | v in Alive(keys', deletes) ensures Leq(v.vv, u.vv) {
      AliveIsFilter(keys', deletes, v);
      assert Live(keys, deletes, v);
    }
    FirstGreatestStays(Alive(keys', deletes));
  }

  // pairwise concurrent versions

  ghost predicate LiveConcurrent(keys: seq<Version>, deletes: seq<Version>) {
    forall v, w :: Live(keys, deletes, v) && Live(keys, deletes, w) && v != w ==> Compare(v, w) == Concurrent
  }

  lemma ConcurrentIsPairwise(keys: seq<Version>, deletes: seq<Version>)
    requires Distinct(keys) && LiveConcurrent(keys, deletes)
    ensures PairwiseConcurrent(Alive(keys, deletes))
  {
    var alive := Alive(keys, deletes);
    AliveDistinct(keys, deletes);
    forall i, j | 0 <= i < j < |alive| ensures Compare(alive[i], alive[j]) == Concurrent {
      AliveIsFilter(keys, deletes, alive[i]);
      AliveIsFilter(keys, deletes, alive[j]);
    }
  }

  lemma {:induction false} ChosenFirst(s: seq<Sibling<()>>)
    requires s != [] && s[0].version.clientId.n < LONG_MAX
    requires forall x :: x in s ==> s[0].version.clientId.n <= x.version.clientId.n
    ensures Chosen(s) == s[0].version
  {
    if |s| == 1 {
      assert Chosen(s[..0]) == DEFAULT_VERSION;
    } else {
      ChosenFirst(s[..|s| - 1]);
      assert s[|s| - 1] in s;
    }
  }

  /** Among pairwise concurrent live replies the order is irrelevant exactly when the smallest
      client wrote only one of them. */
  lemma ConcurrentOrderIff(keys: seq<Version>, deletes: seq<Version>)
    requires Distinct(keys) && Alive(keys, deletes) != [] && LiveConcurrent(keys, deletes)
    requires forall v :: v in keys ==> v.clientId.n < LONG_MAX
    ensures OrderIsIrrelevant(keys, deletes) <==>
            forall v, w :: SmallestLive(keys, deletes, v) && SmallestLive(keys, deletes, w) ==> v == w
  {
    if forall v, w :: SmallestLive(keys, deletes, v) && SmallestLive(keys, deletes, w) ==> v == w {
      forall keys' | SameReplies(keys, keys') ensures Selected(keys', deletes) == Selected(keys, deletes) {
        SameRepliesAlive(keys, keys', deletes);
        ConcurrentSmallest(keys, deletes);
        ConcurrentSmallest(keys', deletes);
        assert SmallestLive(keys, deletes, Selected(keys', deletes));
      }
    }
    if v, w :| SmallestLive(keys, deletes, v) && SmallestLive(keys, deletes, w) && v != w {
      var u := if v == Selected(keys, deletes) then w else v;
      var _ := SmallestFirst(keys, deletes, u);
    }
  }

  lemma ConcurrentSmallest(keys: seq<Version>, deletes: seq<Version>)
    requires Distinct(keys) && Alive(keys, deletes) != [] && LiveConcurrent(keys, deletes)
    requires forall v :: v in keys ==> v.clientId.n < LONG_MAX
    ensures SmallestLive(keys, deletes, Selected(keys, deletes))
  {
    ConcurrentIsPairwise(keys, deletes);
    ConcurrentSelectsSmallestClient(keys, deletes);
  }

  lemma SmallestFirst(keys: seq<Version>, deletes: seq<Version>, u: Version) returns (keys': seq<Version>)
    requires Distinct(keys) && LiveConcurrent(keys, deletes) && SmallestLive(keys, deletes, u)
    requires u.clientId.n < LONG_MAX
    ensures SameReplies(keys, keys') && Selected(keys', deletes) == u
  {
    var i :| 0 <= i < |keys| && keys[i] == u;
    keys' := InFront(keys, i);
    var alive := Alive(keys', deletes);
    AliveFirst(keys', deletes);
    ConcurrentIsPairwise(keys', deletes);
    ConcurrentKeepsAll(alive);
    forall x | x in Bare(alive) ensures u.clientId.n <= x.version.clientId.n {
      assert x == Sibling(x.version, ());
      BareIsLive(keys', deletes, x.version);
    }
    ChosenFirst(Bare(alive));
  }

  lemma TwoOfOneClient(v: Version, w: Version)
    requires v.clientId == w.clientId && v.clientId.n < LONG_MAX && Compare(v, w) == Concurrent
    ensures Distinct([v, w]) && LiveConcurrent([v, w], []) && !OrderIsIrrelevant([v, w], [])
  {
    var keys := [v, w];
    AliveNoDeletes(keys);
    CompareIsDual(v, w);
    assert SmallestLive(keys, [], v) && SmallestLive(keys, [], w);
    ConcurrentOrderIff(keys, []);
  }

  /** One client can write two concurrent versions, and then the order decides. */
  lemma OrderCanMatter() returns (keys: seq<Version>)
    ensures Distinct(keys) && LiveConcurrent(keys, []) && !OrderIsIrrelevant(keys, [])
  {
    var c, d := ClientId(1), ClientId(2);
    var v, w := Version(map[c := 1, d := 1], c), Version(map[c := 2], c);
    assert d in v.vv && d !in w.vv && v.vv[c] == 1 && w.vv[c] == 2;
    TwoOfOneClient(v, w);
    keys := [v, w];
  }

  lemma {:induction false} AliveNoDeletes(keys: seq<Version>)
    ensures Alive(keys, []) == keys
  {
    if keys == [] {
    } else {
      AliveNoDeletes(keys[..|keys| - 1]);
      assert keys == keys[..|keys| - 1] + [keys[|keys| - 1]];
    }
  }

  /** A bigger version takes the place of the first of two siblings, and the second stays. */
  lemma BreakKeepsSecond(a: Version, b: Version, c: Version)
    requires Compare(a, b) == Concurrent && Compare(c, a) == Bigger
    ensures Candidates([a, b, c], []) == [Sibling(c, ()), Sibling(b, ())]
  {
    var sa, sb := Sibling(a, ()), Sibling(b, ());
    AliveNoDeletes([a, b, c]);
    AfterPutsBare([a, b, c]);
    assert [a, b, c][..2] == [a, b];
    ConcurrentKeepsAll([a, b]);
    assert Bare([a, b]) == [sa, sb];
    assert [sa, sb][0] == sa;
  }

  /** On mixed replies the selected version can be dominated by another live one. */
  lemma SelectionCanBeDominated() returns (keys: seq<Version>)
    ensures exists v :: v in keys && Less(Selected(keys, []).vv, v.vv)
  {
    var x, y, z := ClientId(1), ClientId(2), ClientId(3);
    var a, b, c := Version(map[x := 1], x), Version(map[y := 1], y), Version(map[x := 2, y := 2], z);
    keys := [a, b, c];
    assert x in a.vv && x !in b.vv && y in b.vv && y !in a.vv && x in c.vv;
    BreakKeepsSecond(a, b, c);
    var sb, sc := Sibling(b, ()), Sibling(c, ());
    assert Chosen([sc]) == c by { assert [sc][..0] == []; }
    assert Chosen([sc, sb]) == b by { assert [sc, sb][..1] == [sc]; }
    assert c in keys && Less(b.vv, c.vv);
  }
}
