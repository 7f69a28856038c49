/** Group construction at a peer: the group count, the peer's own group, the local view and the
partition of the store, kept consistent across every message.
*/
module GroupConstruction {
  import opened Common
  import opened Groups
  import opened Store

  /** The group count after looking for violations: too few members merge two groups, too many
      split them. */
  function NextGroups(n: int, size: int, repMin: int, repMax: int): int {
    var merged := if size < repMin && n > 1 then n / 2 else n;
    if size > repMax then merged * 2 else merged
  }

  /** Group counts over one reconsideration: doubled exactly when there are more than `repMax`
      members, halved exactly when there are fewer than `repMin` and more than one group, and
      otherwise kept. Only if `repMin` exceeds `repMax` can both hold, which keeps the count too. */
  predicate Resized(n: int, next: int, size: int, repMin: int, repMax: int) {
    var crowded, sparse := size > repMax, size < repMin && n > 1;
    && (next == 2 * n <==> crowded && !sparse)
    && (2 * next == n <==> sparse && !crowded)
    && (next == n <==> crowded == sparse)
  }

  lemma NextGroupsIff(n: int, size: int, repMin: int, repMax: int)
    requires PowerOfTwo(n)
    ensures Resized(n, NextGroups(n, size, repMin, repMax), size, repMin, repMax)
  {
  }

  lemma NextGroupsIsPower(n: int, size: int, repMin: int, repMax: int)
    requires PowerOfTwo(n)
    ensures PowerOfTwo(NextGroups(n, size, repMin, repMax))
  {
    PowerDoubles(n);
    if n > 1 { PowerDoubles(n / 2); }
  }

  /** Members that share the group at `n` share it at half of whatever `n` becomes. */
  lemma LocalOkAfterResize(local: LocalView, n: int, size: int, repMin: int, repMax: int, pos: real, self: Option<PeerId>)
    requires PowerOfTwo(n) && InUnit(pos) && LocalOk(local, n, pos, self)
    ensures LocalOk(local, Half(NextGroups(n, size, repMin, repMax)), pos, self)
  {
    LocalOkAtHalf(local, n, pos, self);
    if n > 1 { LocalOkAtHalf(local, n / 2, pos, self); }
  }

  lemma WantedAtHalf(p: PeerData, n: int, pos: real)
    requires PowerOfTwo(n) && InUnit(pos) && InUnit(p.pos) && Group(n, p.pos) == Group(n, pos)
    ensures Group(Half(n), p.pos) == Group(Half(n), pos)
  {
    if n > 1 {
      assert n == 2 * (n / 2);
      SharedAfterMerge(n / 2, p.pos, pos);
    }
  }

  /** The local view after aging it and adding what was received. */
  ghost function Grown(local: LocalView, received: seq<PeerData>, n: int, g: int, self: Option<PeerId>): LocalView {
    AddAll(Aged(local), received, n, g, self)
  }

  /** The entry comes from the view, a unit older, or is wanted among the received peers. */
  predicate OfferedEntry(local: LocalView, received: seq<PeerData>, n: int, g: int, self: Option<PeerId>, k: PeerId,
                         p: PeerData) {
    || (k in local && p == local[k].(age := local[k].age + 1))
    || exists i :: 0 <= i < |received| && WantedAs(received[i], n, g, self, k) && received[i] == p
  }

  /** A member that is kept when the view has grown and been cleaned is in the group and not too old,
      has an entry that was offered, and no younger one was; and who was offered an entry that is not
      too old, and is not known in another group, is kept. */
  lemma KeptEntries(local: LocalView, received: seq<PeerData>, n: int, g: int, self: Option<PeerId>, maxAge: int,
                    k: PeerId, p: PeerData)
    requires OfferedEntry(local, received, n, g, self, k, p)
    ensures var kept := Kept(Grown(local, received, n, g, self), n, g, maxAge);
            && (k in kept ==>
                  && Group(n, kept[k].pos) == g && kept[k].age <= p.age && kept[k].age <= maxAge
                  && OfferedEntry(local, received, n, g, self, k, kept[k]))
            && (p.age <= maxAge && (k in local ==> Group(n, local[k].pos) == g) ==> k in kept)
  {
    AddedEntries(Aged(local), received, n, g, self, k);
  }

  /** The peers left out before the group count is reconsidered. */
  ghost predicate LeftOut(p: PeerData, local: LocalView, received: seq<PeerData>, n: int, g: int, self: Option<PeerId>) {
    || (p in received && !Wanted(p, n, g, self))
    || (exists k :: k in Grown(local, received, n, g, self) && Grown(local, received, n, g, self)[k] == p
                    && Group(n, p.pos) != g)
  }

  /** The first half of `receive_message`: age, add, clean. */
  method AgeAddClean(local: LocalView, received: seq<PeerData>, n: int, pos: real, self: Option<PeerId>, maxAge: int)
    returns (kept: LocalView, notAdded: seq<PeerData>)
    requires PowerOfTwo(n) && InUnit(pos) && LocalOk(local, Half(n), pos, self) && WellFormed(received)
    ensures kept == Kept(Grown(local, received, n, Group(n, pos), self), n, Group(n, pos), maxAge)
    ensures LocalOk(kept, n, pos, self)
    ensures forall p :: p in notAdded <==> LeftOut(p, local, received, n, Group(n, pos), self)
    ensures forall p :: p in notAdded ==> InUnit(p.pos)
  {
    var g := Group(n, pos);
    AgedOk(local, Half(n), pos, self);
    var aged := map k | k in local :: local[k].(age := local[k].age + 1);
    AddAllOk(aged, received, n, pos, self);
    var added, moved;
    added, notAdded := AddReceived(aged, received, n, g, self);
    kept, moved := CleanLocalView(added, n, g, maxAge);
    KeptOk(added, n, pos, self, maxAge, Half(n));
    notAdded := notAdded + moved;
  }

  datatype Message = Gossip(received: seq<PeerData>) | Local(received: seq<PeerData>)

  class GroupConstruction {
    const id: PeerId
    const position: real
    const repMin: int
    const repMax: int
    const maxAge: int
    const store: KvStore
    var nrGroups: int
    var myGroup: int
    var localView: LocalView
    var recovering: bool

    /** The run invariant. */
    ghost predicate Valid()
      reads this, store
    {
      && InUnit(position)
      && PowerOfTwo(nrGroups)
      && myGroup == Group(nrGroups, position)
      && store.slice == myGroup && store.nrSlices == nrGroups
      && LocalOk(localView, Half(nrGroups), position, Some(id))
    }

    constructor (id: PeerId, position: real, repMin: int, repMax: int, maxAge: int, store: KvStore)
      requires InUnit(position) && store.slice == store.nrSlices == 1
      ensures Valid() && nrGroups == 1 && localView == map[] && recovering
      ensures this.id == id && this.position == position && this.store == store
      ensures this.repMin == repMin && this.repMax == repMax && this.maxAge == maxAge
    {
      this.id, this.position, this.store := id, position, store;
      this.repMin, this.repMax, this.maxAge := repMin, repMax, maxAge;
      nrGroups, myGroup, localView, recovering := 1, 1, map[], true;
      GroupInRange(1, position);
    }

    /** Set the group count and derive the peer's group and the store's partition from it. */
    method Regroup(n: int)
      requires InUnit(position) && PowerOfTwo(n)
      requires store.nrSlices == nrGroups && store.slice == Group(nrGroups, position)
      modifies this`nrGroups, this`myGroup, store
      ensures nrGroups == n && myGroup == Group(n, position)
      ensures store.slice == myGroup && store.nrSlices == nrGroups && store.db == old(store.db)
      ensures n == old(nrGroups) ==> store.seen == old(store.seen)
    {
      nrGroups := n;
      myGroup := Group(nrGroups, position);
      store.UpdatePartition(myGroup, nrGroups);
    }

    /** Joining: adopt the largest advertised group count, unless this peer already sustains more.
        `requested` says whether local messages are asked for. */
    method RecoverLocalView(received: seq<PeerData>) returns (requested: bool)
      requires Valid() && WellFormed(received)
      modifies this`nrGroups, this`myGroup, this`localView, this`recovering, store
      ensures Valid() && store.db == old(store.db)
      ensures
        var n, g := old(nrGroups), old(myGroup);
        var known := RefreshAll(old(localView), received, n, g, Some(id));
        if n > MaxSlices(received) && |known| + 1 >= repMin then
          && !recovering && !requested
          && (if |known| + 1 > repMax
              then nrGroups == 2 * n && localView == Kept(known, nrGroups, myGroup, maxAge)
              else nrGroups == n && localView == known)
        else
          && nrGroups == MaxSlices(received)
          && localView == Kept(known, nrGroups, myGroup, maxAge)
          && requested == !(nrGroups == 1 || repMin <= |localView| + 1 <= repMax)
          && recovering == (old(recovering) && requested)
    {
      requested := false;
      var moved;
      var fromPeers := MaxSlicesOf(received);
      MaxSlicesIsPower(received);
      AddAllOk(localView, received, nrGroups, position, Some(id));
      localView := IncorporateLocalPeers(localView, received, nrGroups, myGroup, Some(id));
      ghost var known := localView;
      var estimation := |localView|;
      if nrGroups > fromPeers && estimation + 1 >= repMin {
        if estimation + 1 > repMax {
          PowerDoubles(nrGroups);
          ghost var half := Half(nrGroups);
          Regroup(nrGroups * 2);
          KeptOk(known, nrGroups, position, Some(id), maxAge, half);
          localView, moved := CleanLocalView(localView, nrGroups, myGroup, maxAge);
          LocalOkAtHalf(localView, nrGroups, position, Some(id));
        }
        recovering := false;
        return;
      }
      KeptOk(known, fromPeers, position, Some(id), maxAge, Half(nrGroups));
      Regroup(fromPeers);
      localView, moved := CleanLocalView(localView, nrGroups, myGroup, maxAge);
      LocalOkAtHalf(localView, nrGroups, position, Some(id));
      if fromPeers == 1 {
        recovering := false;
        return;
      }
      estimation := |localView|;
      if repMin <= estimation + 1 && estimation + 1 <= repMax {
        recovering := false;
      } else {
        requested := true;
      }
    }

    method ReceiveLocalMessage(received: seq<PeerData>)
      requires Valid() && WellFormed(received)
      modifies this`nrGroups, this`myGroup, this`localView, this`recovering, store
      ensures Valid() && store.db == old(store.db)
      ensures !old(recovering) ==>
        nrGroups == old(nrGroups) && !recovering &&
        localView == RefreshAll(old(localView), received, nrGroups, myGroup, Some(id))
    {
      if recovering {
        var _ := RecoverLocalView(received);
        return;
      }
      AddAllOk(localView, received, nrGroups, position, Some(id));
      localView := IncorporateLocalPeers(localView, received, nrGroups, myGroup, Some(id));
    }

    method ReceiveMessage(received: seq<PeerData>)
      requires Valid() && WellFormed(received)
      modifies this`nrGroups, this`myGroup, this`localView, this`recovering, store
      ensures Valid() && store.db == old(store.db)
      ensures !old(recovering) ==>
        var n, g, self := old(nrGroups), old(myGroup), Some(id);
        var kept := Kept(Grown(old(localView), received, n, g, self), n, g, maxAge);
        && !recovering
        && Resized(n, nrGroups, |kept| + 1, repMin, repMax)
        && (forall k :: k in kept ==> k in localView && localView[k] == kept[k])
        && (forall k :: k in localView && k !in kept ==>
              LeftOut(localView[k], old(localView), received, n, g, self) && Wanted(localView[k], nrGroups, myGroup, self))
        && (forall p :: LeftOut(p, old(localView), received, n, g, self) && Wanted(p, nrGroups, myGroup, self) ==>
              p.id in localView)
    {
      if recovering {
        var _ := RecoverLocalView(received);
        return;
      }
      var notAdded;
      localView, notAdded := AgeAddClean(localView, received, nrGroups, position, Some(id), maxAge);
      var size := |localView| + 1;
      NextGroupsIsPower(nrGroups, size, repMin, repMax);
      NextGroupsIff(nrGroups, size, repMin, repMax);
      LocalOkAfterResize(localView, nrGroups, size, repMin, repMax, position, Some(id));
      var next := nrGroups;
      if size < repMin && next > 1 { next := next / 2; }
      if size > repMax { next := next * 2; }
      Regroup(next);
      localView := ReAdd(localView, notAdded);
    }

    /** Peers that were left out enter the view if they now match; known peers are not replaced. */
    method ReAdd(kept: LocalView, notAdded: seq<PeerData>) returns (r: LocalView)
      requires InUnit(position) && PowerOfTwo(nrGroups) && myGroup == Group(nrGroups, position)
      requires LocalOk(kept, Half(nrGroups), position, Some(id))
      requires forall p :: p in notAdded ==> InUnit(p.pos)
      ensures LocalOk(r, Half(nrGroups), position, Some(id))
      ensures forall k :: k in kept ==> k in r && r[k] == kept[k]
      ensures forall k :: k in r && k !in kept ==> r[k] in notAdded && Wanted(r[k], nrGroups, myGroup, Some(id))
      ensures forall p :: p in notAdded && Wanted(p, nrGroups, myGroup, Some(id)) ==> p.id in r
    {
      r := kept;
      for i := 0 to |notAdded|
        invariant LocalOk(r, Half(nrGroups), position, Some(id))
        invariant forall k :: k in kept ==> k in r && r[k] == kept[k]
        invariant forall k :: k in r && k !in kept ==> r[k] in notAdded && Wanted(r[k], nrGroups, myGroup, Some(id))
        invariant forall j :: 0 <= j < i && Wanted(notAdded[j], nrGroups, myGroup, Some(id)) ==> notAdded[j].id in r
      {
        var peer := notAdded[i];
        assert peer in notAdded;
        if Group(nrGroups, peer.pos) == myGroup && Some(peer.id) != Some(id) && peer.id !in r {
          WantedAtHalf(peer, nrGroups, position);
          r := r[peer.id := peer];
        }
      }
    }

    /** Every sequence of messages keeps the invariant. */
    method Run(messages: seq<Message>)
      requires Valid() && forall m :: m in messages ==> WellFormed(m.received)
      modifies this`nrGroups, this`myGroup, this`localView, this`recovering, store
      ensures Valid() && store.db == old(store.db)
    {
      for i := 0 to |messages|
        invariant Valid() && store.db == old(store.db)
      {
        assert messages[i] in messages;
        match messages[i]
        case Gossip(received) => ReceiveMessage(received);
        case Local(received) => ReceiveLocalMessage(received);
      }
    }
  }
}
