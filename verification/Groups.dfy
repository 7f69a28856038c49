/** Groups of peers by position, and the operations on a local view that group construction and
the load balancer share. Positions are reals in [0, 1].
*/
module Groups {
  import opened Common
  import opened Slices

  datatype PeerData = PeerData(id: PeerId, ip: string, pssPort: int, age: int, nrSlices: int, pos: real)

  function Ceil(x: real): int {
    -((-x).Floor)
  }

  /** The group of a position when there are `n` groups. */
  function Group(n: int, pos: real): int {
    var temp := Ceil(n as real * pos);
    if temp == 0 then 1 else temp
  }

  predicate InUnit(pos: real) {
    0.0 <= pos <= 1.0
  }

  predicate PowerOfTwo(n: int) {
    n == 1 || (n > 1 && n % 2 == 0 && PowerOfTwo(n / 2))
  }

  lemma GroupInRange(n: int, pos: real)
    requires n >= 1 && InUnit(pos)
    ensures 1 <= Group(n, pos) <= n
  {
    var x := n as real * pos;
    assert 0.0 <= x <= n as real;
  }

  lemma CeilBounds(x: real)
    ensures x <= Ceil(x) as real < x + 1.0
  {
  }

  /** Doubling the number of groups splits each group in two. */
  lemma GroupSplits(n: int, pos: real)
    requires n >= 1 && InUnit(pos)
    ensures Group(2 * n, pos) == 2 * Group(n, pos) - 1 || Group(2 * n, pos) == 2 * Group(n, pos)
  {
    var x := n as real * pos;
    assert x >= 0.0;
    assert (2 * n) as real * pos == 2.0 * x;
    CeilBounds(x);
    CeilBounds(2.0 * x);
    var c, d := Ceil(x), Ceil(2.0 * x);
    assert (2 * c) as real == 2.0 * c as real;
    assert ((2 * c) as real) - 2.0 < 2.0 * x <= (2 * c) as real;
    assert 2 * c - 2 < d <= 2 * c;
    assert c == 0 ==> x == 0.0;
  }

  /** Positions that share a group still share it when groups are merged. */
  lemma SharedAfterMerge(n: int, a: real, b: real)
    requires n >= 1 && InUnit(a) && InUnit(b)
    requires Group(2 * n, a) == Group(2 * n, b)
    ensures Group(n, a) == Group(n, b)
  {
    GroupSplits(n, a);
    GroupSplits(n, b);
  }

  lemma PowersAreApart(a: int, b: int)
    requires PowerOfTwo(a) && PowerOfTwo(b) && a < b
    ensures 2 * a <= b && PowerOfTwo(2 * a) && PowerOfTwo(b / 2) && b % 2 == 0
  {
    assert (2 * a) / 2 == a;
    if a > 1 { PowersAreApart(a / 2, b / 2); }
  }

  lemma PowerDoubles(n: int)
    requires PowerOfTwo(n)
    ensures n >= 1 && PowerOfTwo(2 * n)
  {
    assert (2 * n) / 2 == n;
  }

  lemma {:induction false} PowerTimesPower(a: int, b: int)
    requires PowerOfTwo(a) && PowerOfTwo(b)
    ensures PowerOfTwo(a * b)
  {
    if a == 1 {
    } else {
      PowerTimesPower(a / 2, b);
      PowerDoubles(a / 2 * b);
      assert a * b == 2 * (a / 2 * b);
    }
  }

  lemma {:induction false} SmallerPowerDivides(n: int, m: int)
    requires PowerOfTwo(n) && PowerOfTwo(m) && n <= m
    ensures n > 0 && m % n == 0
  {
    if n == 1 {
    } else {
      SmallerPowerDivides(n / 2, m / 2);
      var h, k := n / 2, m / 2;
      var q := k / h;
      assert k == h * q;
      assert m == n * q;
      QuotientIs(m, n, q, 0);
      assert m == n * (m / n) + m % n;
    }
  }

  /** The group counts the system uses divide 2^64, so hashes outside the routed range make the
      slice walk overflow its counter (`Slices.UnroutableOverflows`). */
  lemma PowersDivideRange(n: int)
    requires PowerOfTwo(n) && n <= INT_MAX
    ensures DividesRange(n)
  {
    assert PowerOfTwo(0x10);
    PowerTimesPower(0x10, 0x10);
    PowerTimesPower(0x100, 0x100);
    PowerTimesPower(0x1_0000, 0x1_0000);
    PowerTimesPower(0x1_0000_0000, 0x1_0000_0000);
    SmallerPowerDivides(n, SIZE_MAX + 1);
  }

  /** Half of a number of groups, which never drops below one. */
  function Half(n: int): int {
    if n > 1 then n / 2 else n
  }

  // ----- local views

  type LocalView = map<PeerId, PeerData>

  predicate Wanted(p: PeerData, n: int, g: int, self: Option<PeerId>) {
    Group(n, p.pos) == g && self != Some(p.id)
  }

  /** Keep the younger of two entries for a peer. */
  function AddOne(local: LocalView, p: PeerData, n: int, g: int, self: Option<PeerId>): LocalView {
    if !Wanted(p, n, g, self) || (p.id in local && local[p.id].age <= p.age) then local
    else local[p.id := p]
  }

  function AddAll(local: LocalView, received: seq<PeerData>, n: int, g: int, self: Option<PeerId>): LocalView {
    if received == [] then local
    else AddOne(AddAll(local, received[..|received| - 1], n, g, self), received[|received| - 1], n, g, self)
  }

  /** As `AddOne`, but a known peer only has its age refreshed. */
  function RefreshOne(local: LocalView, p: PeerData, n: int, g: int, self: Option<PeerId>): LocalView {
    if !Wanted(p, n, g, self) then local
    else if p.id !in local then local[p.id := p]
    else if local[p.id].age > p.age then local[p.id := local[p.id].(age := p.age)]
    else local
  }

  function RefreshAll(local: LocalView, received: seq<PeerData>, n: int, g: int, self: Option<PeerId>): LocalView {
    if received == [] then local
    else RefreshOne(RefreshAll(local, received[..|received| - 1], n, g, self), received[|received| - 1], n, g, self)
  }

  function Aged(local: LocalView): LocalView {
    map k | k in local :: local[k].(age := local[k].age + 1)
  }

  function Kept(local: LocalView, n: int, g: int, maxAge: int): LocalView {
    map k | k in local && Group(n, local[k].pos) == g && local[k].age <= maxAge :: local[k]
  }

  function MaxSlices(received: seq<PeerData>): int {
    if received == [] then 1
    else
      var front, last := MaxSlices(received[..|received| - 1]), received[|received| - 1].nrSlices;
      if last > front then last else front
  }

  // ----- what they hold

  /** The entry for `k` is in the view or wanted among the received peers. */
  predicate Offered(local: LocalView, received: seq<PeerData>, n: int, g: int, self: Option<PeerId>, k: PeerId) {
    k in local || exists i :: 0 <= i < |received| && WantedAs(received[i], n, g, self, k)
  }

  predicate WantedAs(p: PeerData, n: int, g: int, self: Option<PeerId>, k: PeerId) {
    p.id == k && Wanted(p, n, g, self)
  }

  /** No entry offered for `k` is younger than `age`, and one has that age. */
  predicate YoungestAge(local: LocalView, received: seq<PeerData>, n: int, g: int, self: Option<PeerId>, k: PeerId,
                        age: int) {
    && (k in local ==> age <= local[k].age)
    && (forall i :: 0 <= i < |received| && WantedAs(received[i], n, g, self, k) ==> age <= received[i].age)
    && (|| (k in local && local[k].age == age)
        || exists i :: 0 <= i < |received| && WantedAs(received[i], n, g, self, k) && received[i].age == age)
  }

  /** The entry the view had, or a wanted one. */
  predicate AddedFrom(local: LocalView, received: seq<PeerData>, n: int, g: int, self: Option<PeerId>, k: PeerId,
                      p: PeerData) {
    || (k in local && p == local[k])
    || exists i :: 0 <= i < |received| && WantedAs(received[i], n, g, self, k) && received[i] == p
  }

  /** One more received peer, and what it means for the entry of `k`. */
  lemma AddedOneMore(local: LocalView, front: seq<PeerData>, last: PeerData, n: int, g: int, self: Option<PeerId>,
                     k: PeerId, before: LocalView)
    requires k in before <==> Offered(local, front, n, g, self, k)
    requires k in before ==> YoungestAge(local, front, n, g, self, k, before[k].age)
    requires k in before ==> AddedFrom(local, front, n, g, self, k, before[k])
    ensures var r := AddOne(before, last, n, g, self);
            && (k in r <==> Offered(local, front + [last], n, g, self, k))
            && (k in r ==> YoungestAge(local, front + [last], n, g, self, k, r[k].age))
            && (k in r ==> AddedFrom(local, front + [last], n, g, self, k, r[k]))
  {
    var all := front + [last];
    assert forall i :: 0 <= i < |front| ==> all[i] == front[i];
    assert all[|front|] == last;
  }

  /** Adding yields an entry for exactly the peers of the view and the wanted ones, and it is one of
      the youngest that were offered for the peer. */
  lemma {:induction false} AddedEntries(local: LocalView, received: seq<PeerData>, n: int, g: int,
                                        self: Option<PeerId>, k: PeerId)
    ensures var r := AddAll(local, received, n, g, self);
            && (k in r <==> Offered(local, received, n, g, self, k))
            && (k in r ==> YoungestAge(local, received, n, g, self, k, r[k].age))
            && (k in r ==> AddedFrom(local, received, n, g, self, k, r[k]))
  {
    if received != [] {
      var front, last := received[..|received| - 1], received[|received| - 1];
      AddedEntries(local, front, n, g, self, k);
      AddedOneMore(local, front, last, n, g, self, k, AddAll(local, front, n, g, self));
      assert received == front + [last];
    }
  }

  /** The entry of a known peer with another age, or a wanted one with another age. */
  predicate RefreshedFrom(local: LocalView, received: seq<PeerData>, n: int, g: int, self: Option<PeerId>, k: PeerId,
                          p: PeerData) {
    if k in local then p == local[k].(age := p.age)
    else exists i :: 0 <= i < |received| && WantedAs(received[i], n, g, self, k) && received[i].(age := p.age) == p
  }

  /** One more received peer, and what it means for the entry of `k`. */
  lemma RefreshedOneMore(local: LocalView, front: seq<PeerData>, last: PeerData, n: int, g: int, self: Option<PeerId>,
                         k: PeerId, before: LocalView)
    requires k in before <==> Offered(local, front, n, g, self, k)
    requires k in before ==> YoungestAge(local, front, n, g, self, k, before[k].age)
    requires k in before ==> RefreshedFrom(local, front, n, g, self, k, before[k])
    ensures var r := RefreshOne(before, last, n, g, self);
            && (k in r <==> Offered(local, front + [last], n, g, self, k))
            && (k in r ==> YoungestAge(local, front + [last], n, g, self, k, r[k].age))
            && (k in r ==> RefreshedFrom(local, front + [last], n, g, self, k, r[k]))
  {
    var all := front + [last];
    assert forall i :: 0 <= i < |front| ==> all[i] == front[i];
    assert all[|front|] == last;
  }

  /** Refreshing yields an entry for the same peers with the youngest age, but the other data of a
      known peer stays, and that of a new one is from a wanted entry. */
  lemma {:induction false} RefreshedEntries(local: LocalView, received: seq<PeerData>, n: int, g: int,
                                            self: Option<PeerId>, k: PeerId)
    ensures var r := RefreshAll(local, received, n, g, self);
            && (k in r <==> Offered(local, received, n, g, self, k))
            && (k in r ==> YoungestAge(local, received, n, g, self, k, r[k].age))
            && (k in r ==> RefreshedFrom(local, received, n, g, self, k, r[k]))
  {
    if received != [] {
      var front, last := received[..|received| - 1], received[|received| - 1];
      RefreshedEntries(local, front, n, g, self, k);
      RefreshedOneMore(local, front, last, n, g, self, k, RefreshAll(local, front, n, g, self));
      assert received == front + [last];
    }
  }

  /** The largest advertised count: at least one, at least every advertised one, and one of them. */
  lemma {:induction false} MaxSlicesIsMax(received: seq<PeerData>)
    ensures MaxSlices(received) >= 1
    ensures forall p :: p in received ==> p.nrSlices <= MaxSlices(received)
    ensures MaxSlices(received) == 1 || exists p :: p in received && p.nrSlices == MaxSlices(received)
  {
    if received == [] {
    } else {
      var front, last := received[..|received| - 1], received[|received| - 1];
      MaxSlicesIsMax(front);
      assert received == front + [last];
    }
  }

  // ----- the loops

  method AddReceived(local: LocalView, received: seq<PeerData>, n: int, g: int, self: Option<PeerId>)
    returns (r: LocalView, notAdded: seq<PeerData>)
    ensures r == AddAll(local, received, n, g, self)
    ensures forall p :: p in notAdded <==> p in received && !Wanted(p, n, g, self)
  {
    r, notAdded := local, [];
    for i := 0 to |received|
      invariant r == AddAll(local, received[..i], n, g, self)
      invariant forall p :: p in notAdded <==> p in received[..i] && !Wanted(p, n, g, self)
    {
      assert received[..i + 1][..i] == received[..i];
      assert received[..i + 1] == received[..i] + [received[i]];
      var peer := received[i];
      if Group(n, peer.pos) == g && self != Some(peer.id) {
        if peer.id in r {
          if r[peer.id].age > peer.age { r := r[peer.id := peer]; }
        } else {
          r := r[peer.id := peer];
        }
      } else {
        notAdded := notAdded + [peer];
      }
    }
    assert received[..|received|] == received;
  }

  method IncorporateLocalPeers(local: LocalView, received: seq<PeerData>, n: int, g: int, self: Option<PeerId>)
    returns (r: LocalView)
    ensures r == RefreshAll(local, received, n, g, self)
  {
    r := local;
    for i := 0 to |received|
      invariant r == RefreshAll(local, received[..i], n, g, self)
    {
      assert received[..i + 1][..i] == received[..i];
      var peer := received[i];
      if Group(n, peer.pos) == g && self != Some(peer.id) {
        if peer.id in r {
          if r[peer.id].age > peer.age { r := r[peer.id := r[peer.id].(age := peer.age)]; }
        } else {
          r := r[peer.id := peer];
        }
      }
    }
    assert received[..|received|] == received;
  }

  /** Drop peers of other groups and peers that are too old; `moved` are those of other groups. */
  method CleanLocalView(local: LocalView, n: int, g: int, maxAge: int)
    returns (r: LocalView, moved: seq<PeerData>)
    ensures r == Kept(local, n, g, maxAge)
    ensures forall k :: k in r <==> k in local && Group(n, local[k].pos) == g && local[k].age <= maxAge
    ensures forall k :: k in r ==> r[k] == local[k]
    ensures forall p :: p in moved <==> exists k :: k in local && local[k] == p && Group(n, p.pos) != g
  {
    r, moved := local, [];
    var todo := local.Keys;
    while todo != {}
      invariant todo <= local.Keys
      invariant r.Keys == todo + Kept(local, n, g, maxAge).Keys
      invariant forall k :: k in r ==> k in local && r[k] == local[k]
      invariant forall p :: p in moved <==> exists k :: k in local && k !in todo && local[k] == p && Group(n, p.pos) != g
      decreases todo
    {
      var k :| k in todo;
      ghost var before := moved;
      if Group(n, local[k].pos) != g {
        moved := moved + [local[k]];
      }
      todo := todo - {k};
      if Group(n, local[k].pos) != g || local[k].age > maxAge {
        r := r - {k};
      }
    }
    assert r.Keys == Kept(local, n, g, maxAge).Keys;
  }

  method MaxSlicesOf(received: seq<PeerData>) returns (m: int)
    ensures m == MaxSlices(received)
    ensures m >= 1 && forall p :: p in received ==> p.nrSlices <= m
    ensures m == 1 || exists p :: p in received && p.nrSlices == m
  {
    MaxSlicesIsMax(received);
    m := 1;
    for i := 0 to |received|
      invariant m == MaxSlices(received[..i])
    {
      assert received[..i + 1][..i] == received[..i];
      if received[i].nrSlices > m { m := received[i].nrSlices; }
    }
    assert received[..|received|] == received;
  }

  // ----- invariants of a local view

  /** Positions in range, and advertised group counts that are powers of two (or unset). */
  ghost predicate WellFormed(received: seq<PeerData>) {
    forall p :: p in received ==> InUnit(p.pos) && (p.nrSlices <= 1 || PowerOfTwo(p.nrSlices))
  }

  lemma {:induction false} MaxSlicesIsPower(received: seq<PeerData>)
    requires WellFormed(received)
    ensures PowerOfTwo(MaxSlices(received))
  {
    if received == [] {
    } else {
      assert received[|received| - 1] in received;
      MaxSlicesIsPower(received[..|received| - 1]);
    }
  }

  /** Every member is filed under its own id, is not `self`, and shares the group of `pos` when
      there are `n` groups. */
  ghost predicate LocalOk(local: LocalView, n: int, pos: real, self: Option<PeerId>) {
    forall k :: k in local ==>
      local[k].id == k && self != Some(k) && InUnit(local[k].pos) && Group(n, local[k].pos) == Group(n, pos)
  }

  lemma LocalOkAfterMerge(local: LocalView, n: int, pos: real, self: Option<PeerId>)
    requires n >= 1 && InUnit(pos) && LocalOk(local, 2 * n, pos, self)
    ensures LocalOk(local, n, pos, self)
  {
    forall k | k in local ensures Group(n, local[k].pos) == Group(n, pos) {
      SharedAfterMerge(n, local[k].pos, pos);
    }
  }

  lemma LocalOkAtHalf(local: LocalView, n: int, pos: real, self: Option<PeerId>)
    requires PowerOfTwo(n) && InUnit(pos) && LocalOk(local, n, pos, self)
    ensures LocalOk(local, Half(n), pos, self)
  {
    if n > 1 {
      assert n == 2 * (n / 2);
      LocalOkAfterMerge(local, n / 2, pos, self);
    }
  }

  lemma AddOneOk(local: LocalView, p: PeerData, n: int, pos: real, self: Option<PeerId>, m: int)
    requires LocalOk(local, m, pos, self) && InUnit(p.pos)
    requires Group(n, p.pos) == Group(n, pos) ==> Group(m, p.pos) == Group(m, pos)
    ensures LocalOk(AddOne(local, p, n, Group(n, pos), self), m, pos, self)
    ensures LocalOk(RefreshOne(local, p, n, Group(n, pos), self), m, pos, self)
  {
  }

  /** Adding wanted peers keeps the view well formed at half the granularity. */
  lemma {:induction false} AddAllOk(local: LocalView, received: seq<PeerData>, n: int, pos: real, self: Option<PeerId>)
    requires PowerOfTwo(n) && InUnit(pos) && LocalOk(local, Half(n), pos, self) && WellFormed(received)
    ensures LocalOk(AddAll(local, received, n, Group(n, pos), self), Half(n), pos, self)
    ensures LocalOk(RefreshAll(local, received, n, Group(n, pos), self), Half(n), pos, self)
  {
    if received == [] {
    } else {
      var front, p := received[..|received| - 1], received[|received| - 1];
      assert p in received;
      AddAllOk(local, front, n, pos, self);
      if Group(n, p.pos) == Group(n, pos) && n > 1 {
        assert n == 2 * (n / 2);
        SharedAfterMerge(n / 2, p.pos, pos);
      }
      AddOneOk(AddAll(local, front, n, Group(n, pos), self), p, n, pos, self, Half(n));
      AddOneOk(RefreshAll(local, front, n, Group(n, pos), self), p, n, pos, self, Half(n));
    }
  }

  lemma KeptOk(local: LocalView, n: int, pos: real, self: Option<PeerId>, maxAge: int, m: int)
    requires LocalOk(local, m, pos, self)
    ensures LocalOk(Kept(local, n, Group(n, pos), maxAge), n, pos, self)
  {
  }

  lemma AgedOk(local: LocalView, m: int, pos: real, self: Option<PeerId>)
    requires LocalOk(local, m, pos, self)
    ensures LocalOk(Aged(local), m, pos, self)
  {
  }
}
