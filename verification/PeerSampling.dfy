/** The peer sampling service: a bounded view of other peers, exchanged with one of them at a time.
The shuffle that picks what is sent is a free choice.
*/
module PeerSampling {
  import opened Common
  import opened Groups

  type View = map<PeerId, PeerData>

  ghost function Ids(s: seq<PeerData>): set<PeerId> {
    set p | p in s :: p.id
  }

  // ----- incorporating peers up to the capacity

  /** A received peer: never this one, and the younger entry wins. */
  function AddPeer(view: View, p: PeerData, self: PeerId): View {
    if p.id == self || (p.id in view && view[p.id].age <= p.age) then view else view[p.id := p]
  }

  /** `incorporate_in_view`: peers are taken in order while there is room. */
  function Incorporated(view: View, source: seq<PeerData>, cap: nat, self: PeerId): View
    decreases source
  {
    if |view| >= cap || source == [] then view
    else Incorporated(AddPeer(view, source[0], self), source[1..], cap, self)
  }

  /** A peer that was sent comes back unless it is already there. */
  function PutBack(view: View, p: PeerData): View {
    if p.id in view then view else view[p.id := p]
  }

  datatype Refill = Refill(view: View, left: seq<PeerData>)

  /** `incorporate_last_sent_view`: the peers sent last come back while there is room. */
  function Refilled(view: View, last: seq<PeerData>, cap: nat): Refill
    decreases last
  {
    if |view| >= cap || last == [] then Refill(view, last)
    else Refilled(PutBack(view, last[0]), last[1..], cap)
  }

  ghost predicate ViewOk(view: View, cap: nat, self: PeerId) {
    |view| <= cap && self !in view && forall k :: k in view ==> view[k].id == k
  }

  lemma IdsCons(s: seq<PeerData>)
    requires s != []
    ensures Ids(s) == {s[0].id} + Ids(s[1..])
  {
  }

  lemma SizeOfKeys(a: View, b: View)
    requires a.Keys <= b.Keys
    ensures |a| <= |b|
    ensures a.Keys < b.Keys ==> |a| < |b|
  {
    assert b.Keys == a.Keys + (b.Keys - a.Keys);
    assert |a| == |a.Keys| && |b| == |b.Keys|;
    assert |b.Keys| == |a.Keys| + |b.Keys - a.Keys|;
  }

  /** One entry set in a view with room. */
  lemma SetOne(view: View, p: PeerData, cap: nat, self: PeerId)
    requires ViewOk(view, cap, self) && |view| < cap && p.id != self
    ensures ViewOk(view[p.id := p], cap, self) && |view| <= |view[p.id := p]|
  {
  }

  /** Incorporating keeps the bound, keeps every id and only makes entries younger. */
  lemma {:induction false} IncorporatedKeeps(view: View, source: seq<PeerData>, cap: nat, self: PeerId)
    requires ViewOk(view, cap, self)
    ensures var r := Incorporated(view, source, cap, self);
            && ViewOk(r, cap, self) && view.Keys <= r.Keys && |view| <= |r|
            && forall k :: k in view ==> r[k].age <= view[k].age
    decreases source
  {
    if |view| < cap && source != [] {
      if source[0].id != self { SetOne(view, source[0], cap, self); }
      IncorporatedKeeps(AddPeer(view, source[0], self), source[1..], cap, self);
    }
  }

  /** If it ends below capacity every offered peer is in, and nobody else has come in. */
  lemma {:induction false} IncorporatedTakes(view: View, source: seq<PeerData>, cap: nat, self: PeerId)
    requires ViewOk(view, cap, self)
    ensures var r := Incorporated(view, source, cap, self);
            && r.Keys <= view.Keys + Ids(source)
            && (|r| < cap ==> Ids(source) - {self} <= r.Keys)
    decreases source
  {
    if |view| < cap && source != [] {
      var next := AddPeer(view, source[0], self);
      if source[0].id != self { SetOne(view, source[0], cap, self); }
      IdsCons(source);
      IncorporatedTakes(next, source[1..], cap, self);
      IncorporatedKeeps(next, source[1..], cap, self);
      assert next.Keys <= view.Keys + {source[0].id};
      assert source[0].id == self || source[0].id in next.Keys;
    }
  }

  /** The entry was in the view or among the peers. */
  ghost predicate From(view: View, source: seq<PeerData>, k: PeerId, p: PeerData) {
    (k in view && view[k] == p) || (p in source && p.id == k)
  }

  /** Every entry was there or was offered, and below capacity each offered peer has an entry at least
      as young. */
  lemma {:induction false} IncorporatedEntries(view: View, source: seq<PeerData>, cap: nat, self: PeerId)
    requires ViewOk(view, cap, self)
    ensures var r := Incorporated(view, source, cap, self);
            && (forall k :: k in r ==> From(view, source, k, r[k]))
            && (|r| < cap ==> forall p :: p in source && p.id != self ==> p.id in r && r[p.id].age <= p.age)
    decreases source
  {
    if |view| < cap && source != [] {
      var next := AddPeer(view, source[0], self);
      if source[0].id != self { SetOne(view, source[0], cap, self); }
      IncorporatedEntries(next, source[1..], cap, self);
      IncorporatedKeeps(next, source[1..], cap, self);
      var r := Incorporated(view, source, cap, self);
      forall k | k in r ensures From(view, source, k, r[k]) {
        assert From(next, source[1..], k, r[k]);
      }
      assert source == [source[0]] + source[1..];
    }
  }

  /** A refill changes no entry, and what comes back is as it was sent. */
  lemma {:induction false} RefilledEntries(view: View, last: seq<PeerData>, cap: nat)
    ensures var r := Refilled(view, last, cap);
            && (forall k :: k in view ==> k in r.view && r.view[k] == view[k])
            && (forall k :: k in r.view ==> From(view, last, k, r.view[k]))
            && (exists n :: 0 <= n <= |last| && r.left == last[n..])
    decreases last
  {
    if |view| >= cap || last == [] {
      assert last[0..] == last;
    } else {
      var next := PutBack(view, last[0]);
      RefilledEntries(next, last[1..], cap);
      var r := Refilled(view, last, cap);
      var n :| 0 <= n <= |last| - 1 && r.left == last[1..][n..];
      assert last[1..][n..] == last[n + 1..];
      assert last == [last[0]] + last[1..];
      forall k | k in r.view ensures From(view, last, k, r.view[k]) {
        assert From(next, last[1..], k, r.view[k]);
      }
    }
  }

  lemma PutBackOk(view: View, p: PeerData, cap: nat, self: PeerId)
    requires ViewOk(view, cap, self) && |view| < cap && p.id != self
    ensures ViewOk(PutBack(view, p), cap, self) && |view| <= |PutBack(view, p)|
    ensures PutBack(view, p).Keys == view.Keys + {p.id}
  {
  }

  /** Refilling keeps the bound and every id, and takes back only what was sent; below capacity it
      takes back all of it. */
  lemma {:induction false} RefilledKeeps(view: View, last: seq<PeerData>, cap: nat, self: PeerId)
    requires ViewOk(view, cap, self) && self !in Ids(last)
    ensures var r := Refilled(view, last, cap);
            && ViewOk(r.view, cap, self) && view.Keys <= r.view.Keys && |view| <= |r.view|
            && Ids(r.left) <= Ids(last)
            && r.view.Keys <= view.Keys + Ids(last)
            && (|r.view| < cap ==> r.left == [] && Ids(last) <= r.view.Keys)
    decreases last
  {
    if last == [] {
      assert Ids(last) == {};
    } else if |view| < cap {
      IdsCons(last);
      PutBackOk(view, last[0], cap, self);
      RefilledKeeps(PutBack(view, last[0]), last[1..], cap, self);
    }
  }

  /** A NORMAL exchange on a view from which `sent` has been taken out: the received peers come in
      first, then what was sent fills the remaining room. */
  lemma ExchangeConserves(held: View, rest: View, sent: seq<PeerData>, recv: seq<PeerData>, cap: nat, self: PeerId)
    requires ViewOk(held, cap, self) && ViewOk(rest, cap, self) && held.Keys == rest.Keys + Ids(sent)
    ensures var r := Incorporated(Incorporated(rest, recv, cap, self), sent, cap, self);
            && ViewOk(r, cap, self) && |held| <= |r|
            && (|r| < cap ==> held.Keys + (Ids(recv) - {self}) <= r.Keys)
            && r.Keys <= held.Keys + Ids(recv)
  {
    var mid := Incorporated(rest, recv, cap, self);
    var r := Incorporated(mid, sent, cap, self);
    IncorporatedKeeps(rest, recv, cap, self);
    IncorporatedTakes(rest, recv, cap, self);
    IncorporatedKeeps(mid, sent, cap, self);
    IncorporatedTakes(mid, sent, cap, self);
    if |r| < cap {
      assert |mid| < cap;
      assert self !in Ids(sent);
      SizeOfKeys(held, r);
    }
  }

  lemma ExchangeEntries(held: View, rest: View, sent: seq<PeerData>, recv: seq<PeerData>, cap: nat, self: PeerId)
    requires ViewOk(held, cap, self) && ViewOk(rest, cap, self)
    requires forall k :: k in rest ==> k in held && rest[k] == held[k]
    requires forall p :: p in sent ==> p.id in held && held[p.id] == p
    ensures var r := Incorporated(Incorporated(rest, recv, cap, self), sent, cap, self);
            && (forall k :: k in r ==> From(held, recv, k, r[k]))
            && (|r| < cap ==> forall p :: p in recv && p.id != self ==> p.id in r && r[p.id].age <= p.age)
  {
    var mid := Incorporated(rest, recv, cap, self);
    var r := Incorporated(mid, sent, cap, self);
    IncorporatedKeeps(rest, recv, cap, self);
    IncorporatedEntries(rest, recv, cap, self);
    IncorporatedKeeps(mid, sent, cap, self);
    IncorporatedEntries(mid, sent, cap, self);
    forall k | k in r ensures From(held, recv, k, r[k]) {
      assert From(mid, sent, k, r[k]);
      if k in mid { assert From(rest, recv, k, mid[k]); }
    }
  }

  datatype Event =
    | Active
    | Normal(recv: seq<PeerData>, ip: string, pssPort: int)
    | Response(recv: seq<PeerData>)

  predicate At(p: PeerData, ip: string, pssPort: int) {
    p.ip == ip && p.pssPort == pssPort
  }

  /** `sent` has been taken out of `view`, leaving `rest`. */
  ghost predicate TakenOut(view: View, rest: View, sent: seq<PeerData>, ip: string, pssPort: int) {
    && rest.Keys !! Ids(sent) && rest.Keys + Ids(sent) == view.Keys && |rest| + |sent| == |view|
    && (forall k :: k in rest ==> k in view && rest[k] == view[k])
    && (forall p :: p in sent ==> p.id in view && view[p.id] == p && !At(p, ip, pssPort))
  }

  lemma TakeOne(view: View, rest: View, sent: seq<PeerData>, ip: string, pssPort: int, k: PeerId)
    requires TakenOut(view, rest, sent, ip, pssPort)
    requires k in rest && rest[k].id == k && !At(rest[k], ip, pssPort)
    ensures TakenOut(view, rest - {k}, sent + [rest[k]], ip, pssPort)
  {
    IdsSnoc(sent, rest[k]);
    OneLess(rest, k);
    assert (rest.Keys - {k}) + (Ids(sent) + {k}) == rest.Keys + Ids(sent);
  }

  lemma IdsSnoc(sent: seq<PeerData>, p: PeerData)
    ensures Ids(sent + [p]) == Ids(sent) + {p.id}
  {
    assert forall q :: q in sent + [p] <==> q in sent || q == p;
  }

  lemma OneLess(view: View, k: PeerId)
    requires k in view
    ensures (view - {k}).Keys == view.Keys - {k} && |view - {k}| == |view| - 1
  {
    assert (view - {k}).Keys == view.Keys - {k};
    assert |view| == |view.Keys| && |view - {k}| == |(view - {k}).Keys|;
  }

  /** What a message to the address takes from the view: different entries of it, none at the address,
      at most as many as fit beside this peer, and all others if they fit. */
  ghost predicate SentFrom(view: View, sent: seq<PeerData>, ip: string, pssPort: int, gossipSize: nat) {
    && (forall p :: p in sent ==> p.id in view && view[p.id] == p && !At(p, ip, pssPort))
    && |Ids(sent)| == |sent| && (sent == [] || |sent| + 1 <= gossipSize)
    && (|sent| + 1 < gossipSize ==> forall k :: k in view && !At(view[k], ip, pssPort) ==> k in Ids(sent))
  }

  lemma TakenIsSent(view: View, rest: View, sent: seq<PeerData>, ip: string, pssPort: int, gossipSize: nat)
    requires TakenOut(view, rest, sent, ip, pssPort) && (sent == [] || |sent| + 1 <= gossipSize)
    requires |sent| + 1 < gossipSize ==> forall k :: k in rest ==> At(rest[k], ip, pssPort)
    ensures SentFrom(view, sent, ip, pssPort, gossipSize)
  {
    assert |view| == |view.Keys| && |rest| == |rest.Keys|;
    assert |view.Keys| == |rest.Keys| + |Ids(sent)|;
  }

  /** A free choice of peers that are not at the given address, enough to fill the message. */
  method Pick(view: View, ip: string, pssPort: int, gossipSize: nat) returns (rest: View, sent: seq<PeerData>)
    requires forall k :: k in view ==> view[k].id == k
    ensures TakenOut(view, rest, sent, ip, pssPort)
    ensures sent == [] || |sent| + 1 <= gossipSize
    ensures |sent| + 1 < gossipSize ==> forall k :: k in rest ==> At(rest[k], ip, pssPort)
  {
    rest, sent := view, [];
    assert Ids(sent) == {};
    var eligible := set k | k in view && !At(view[k], ip, pssPort);
    while |sent| + 1 < gossipSize && eligible != {}
      invariant forall k :: k in eligible <==> k in rest && !At(rest[k], ip, pssPort)
      invariant TakenOut(view, rest, sent, ip, pssPort)
      invariant sent == [] || |sent| + 1 <= gossipSize
      decreases eligible
    {
      var k :| k in eligible;
      TakeOne(view, rest, sent, ip, pssPort, k);
      sent := sent + [rest[k]];
      rest := rest - {k};
      eligible := eligible - {k};
    }
  }

  class Pss {
    const self: PeerId
    const viewSize: nat
    const gossipSize: nat
    var view: View
    var lastSent: seq<PeerData>

    /** The run invariant: the view is bounded and never holds this peer. */
    ghost predicate Valid()
      reads this
    {
      ViewOk(view, viewSize, self) && self !in Ids(lastSent)
    }

    constructor (self: PeerId, viewSize: nat, gossipSize: nat, boot: View)
      requires ViewOk(boot, viewSize, self)
      ensures Valid() && view == boot && lastSent == []
      ensures this.self == self && this.viewSize == viewSize && this.gossipSize == gossipSize
    {
      this.self, this.viewSize, this.gossipSize := self, viewSize, gossipSize;
      view, lastSent := boot, [];
    }

    method IncorporateInView(source: seq<PeerData>)
      modifies this`view
      ensures view == Incorporated(old(view), source, viewSize, self)
    {
      var rest := source;
      while |view| < viewSize && rest != []
        invariant Incorporated(view, rest, viewSize, self) == Incorporated(old(view), source, viewSize, self)
        decreases |rest|
      {
        var tmp := rest[0];
        rest := rest[1..];
        if tmp.id != self {
          if tmp.id in view {
            if view[tmp.id].age > tmp.age { view := view[tmp.id := tmp]; }
          } else {
            view := view[tmp.id := tmp];
          }
        }
      }
    }

    method IncorporateLastSentView()
      modifies this`view, this`lastSent
      ensures Refill(view, lastSent) == Refilled(old(view), old(lastSent), viewSize)
    {
      while |view| < viewSize && |lastSent| > 0
        invariant Refilled(view, lastSent, viewSize) == Refilled(old(view), old(lastSent), viewSize)
        decreases |lastSent|
      {
        var tmp := lastSent[0];
        if tmp.id !in view { view := view[tmp.id := tmp]; }
        lastSent := lastSent[1..];
      }
    }

    /** `select_view_to_send`: the message is this peer followed by `sent`, which leaves the view.
        Peers at the target's address stay. */
    method SelectViewToSend(ip: string, pssPort: int) returns (sent: seq<PeerData>)
      requires Valid()
      modifies this`view
      ensures Valid() && TakenOut(old(view), view, sent, ip, pssPort)
      ensures sent == [] || |sent| + 1 <= gossipSize
      ensures |sent| + 1 < gossipSize ==> forall k :: k in view ==> At(view[k], ip, pssPort)
    {
      var rest;
      rest, sent := Pick(view, ip, pssPort, gossipSize);
      SizeOfKeys(rest, view);
      view := rest;
    }

    /** Handling of a NORMAL message; returns what is sent back. The view never shrinks, and if it
        ends below capacity it holds everyone held before and everyone received. */
    method ReceiveNormal(recv: seq<PeerData>, ip: string, pssPort: int) returns (sent: seq<PeerData>)
      requires Valid()
      modifies this`view, this`lastSent
      ensures Valid() && lastSent == Refilled(old(view), old(lastSent), viewSize).left
      ensures var held := Refilled(old(view), old(lastSent), viewSize).view;
              && |view| >= |held| >= |old(view)|
              && (|view| < viewSize ==> held.Keys + (Ids(recv) - {self}) <= view.Keys)
              && view.Keys <= held.Keys + Ids(recv)
              && (forall k :: k in view ==> From(held, recv, k, view[k]))
              && (|view| < viewSize ==> forall p :: p in recv && p.id != self ==> view[p.id].age <= p.age)
              && SentFrom(held, sent, ip, pssPort, gossipSize)
    {
      Refresh();
      ghost var held := view;
      sent := SelectViewToSend(ip, pssPort);
      ghost var rest := view;
      TakenIsSent(held, rest, sent, ip, pssPort, gossipSize);
      ExchangeConserves(held, view, sent, recv, viewSize, self);
      ExchangeEntries(held, rest, sent, recv, viewSize, self);
      IncorporateInView(recv);
      IncorporateInView(sent);
    }

    /** Refill the view from what was sent last. */
    method Refresh()
      requires Valid()
      modifies this`view, this`lastSent
      ensures Valid() && Refill(view, lastSent) == Refilled(old(view), old(lastSent), viewSize)
      ensures |view| >= |old(view)|
    {
      RefilledKeeps(view, lastSent, viewSize, self);
      IncorporateLastSentView();
    }

    method AgeViewMembers()
      requires Valid()
      modifies this`view
      ensures Valid() && view == Aged(old(view))
    {
      view := map k | k in view :: view[k].(age := view[k].age + 1);
      SizeOfKeys(view, old(view));
    }

    method Drop(k: PeerId)
      requires Valid()
      modifies this`view
      ensures Valid() && view == old(view) - {k}
    {
      SizeOfKeys(view - {k}, view);
      view := view - {k};
    }

    /** The periodic step: refill, age, contact the oldest peer and drop it, send part of the rest. */
    method ActiveStep() returns (target: Option<PeerData>)
      requires Valid()
      modifies this`view, this`lastSent
      ensures Valid()
      ensures target.None? <==> Refilled(old(view), old(lastSent), viewSize).view == map[]
      ensures target.None? ==> view == map[]
      ensures target.Some? ==>
        var held := Aged(Refilled(old(view), old(lastSent), viewSize).view);
        && target.value.id in held && target.value == held[target.value.id]
        && (forall k :: k in held ==> held[k].age <= target.value.age)
        && view.Keys !! Ids(lastSent)
        && view.Keys + Ids(lastSent) == held.Keys - {target.value.id}
        && SentFrom(held - {target.value.id}, lastSent, target.value.ip, target.value.pssPort, gossipSize)
        && forall k :: k in view ==> view[k] == held[k]
    {
      Refresh();
      ghost var held := view;
      AgeViewMembers();
      target := OldestFrom(view);
      if target.Some? {
        Drop(target.value.id);
        ghost var others := view;
        lastSent := SelectViewToSend(target.value.ip, target.value.pssPort);
        TakenIsSent(others, view, lastSent, target.value.ip, target.value.pssPort, gossipSize);
      } else {
        assert held.Keys == view.Keys;
      }
    }

    static method OldestFrom(view: View) returns (oldest: Option<PeerData>)
      requires forall k :: k in view ==> view[k].id == k
      ensures oldest.None? <==> view == map[]
      ensures oldest.Some? ==> oldest.value.id in view && view[oldest.value.id] == oldest.value
      ensures oldest.Some? ==> forall k :: k in view ==> view[k].age <= oldest.value.age
    {
      oldest := None;
      var todo := view.Keys;
      while todo != {}
        invariant todo <= view.Keys
        invariant oldest.None? <==> todo == view.Keys
        invariant oldest.Some? ==> oldest.value.id in view && view[oldest.value.id] == oldest.value
        invariant oldest.Some? ==> forall k :: k in view && k !in todo ==> view[k].age <= oldest.value.age
        decreases todo
      {
        var k :| k in todo;
        if oldest.None? || view[k].age > oldest.value.age { oldest := Some(view[k]); }
        todo := todo - {k};
      }
    }

    method ReceiveResponse(recv: seq<PeerData>)
      requires Valid()
      modifies this`view, this`lastSent
      ensures Valid() && lastSent == []
      ensures |view| >= |old(view)| && old(view).Keys <= view.Keys <= old(view).Keys + Ids(recv) + Ids(old(lastSent))
      ensures |view| < viewSize ==> old(view).Keys + Ids(old(lastSent)) + (Ids(recv) - {self}) <= view.Keys
      ensures forall k :: k in view ==> From(old(view), recv, k, view[k]) || From(map[], old(lastSent), k, view[k])
      ensures |view| < viewSize ==> forall p :: p in recv && p.id != self ==> view[p.id].age <= p.age
    {
      IncorporatedEntries(view, recv, viewSize, self);
      RefilledEntries(Incorporated(view, recv, viewSize, self), lastSent, viewSize);
      IncorporatedKeeps(view, recv, viewSize, self);
      IncorporatedTakes(view, recv, viewSize, self);
      IncorporateInView(recv);
      RefilledKeeps(view, lastSent, viewSize, self);
      IncorporateLastSentView();
      lastSent := [];
    }

    /** An active step answered by a RESPONSE that leaves room in the view loses only the contacted
        peer. */
    method ExchangeLosesOnlyTarget(recv: seq<PeerData>) returns (target: Option<PeerData>)
      requires Valid()
      modifies this`view, this`lastSent
      ensures Valid()
      ensures |view| < viewSize && target.Some? ==>
        Refilled(old(view), old(lastSent), viewSize).view.Keys - {target.value.id} <= view.Keys
    {
      target := ActiveStep();
      ReceiveResponse(recv);
    }

    /** Every sequence of steps keeps the invariant. */
    method Run(events: seq<Event>)
      requires Valid()
      modifies this`view, this`lastSent
      ensures Valid()
    {
      for i := 0 to |events|
        invariant Valid()
      {
        match events[i]
        case Active => var _ := ActiveStep();
        case Normal(recv, ip, pssPort) => var _ := ReceiveNormal(recv, ip, pssPort);
        case Response(recv) => ReceiveResponse(recv);
      }
    }
  }
}
