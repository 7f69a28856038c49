/** The client's smart load balancer: a view of the system with one slot of peers per group, which
is split and merged in powers of two as the estimate of the number of groups changes.
*/
module LoadBalancer {
  import opened Common
  import opened Slices
  import opened Groups
  import opened GroupConstruction
  import opened Versions

  type Slot = seq<PeerData>

  // ----- one slot

  ghost predicate SortedByAge(s: Slot) {
    forall i, j :: 0 <= i < j < |s| ==> s[i].age <= s[j].age
  }

  ghost predicate UniqueIds(s: Slot) {
    forall i, j :: 0 <= i < j < |s| ==> s[i].id != s[j].id
  }

  ghost predicate SlotOk(s: Slot, g: int, n: int) {
    && SortedByAge(s) && UniqueIds(s)
    && forall p :: p in s ==> InUnit(p.pos) && Group(n, p.pos) == g
  }

  /** The slot holds this peer with an entry at least as young. */
  ghost predicate Represents(s: Slot, p: PeerData) {
    exists x :: x in s && x.id == p.id && x.age <= p.age
  }

  lemma Without(view: Slot, i: nat, peer: PeerData)
    requires SortedByAge(view) && UniqueIds(view) && i < |view| && view[i].id == peer.id
    ensures SortedByAge(view[..i] + view[i + 1..]) && UniqueIds(view[..i] + view[i + 1..])
    ensures forall x :: x in view[..i] + view[i + 1..] <==> x in view && x.id != peer.id
    ensures Represents(view, peer) <==> view[i].age <= peer.age
  {
  }

  lemma InsertedAt(view: Slot, at: nat, peer: PeerData)
    requires SortedByAge(view) && UniqueIds(view) && at <= |view|
    requires forall j :: 0 <= j < |view| ==> view[j].id != peer.id
    requires forall j :: 0 <= j < at ==> view[j].age < peer.age
    requires at < |view| ==> view[at].age >= peer.age
    ensures SortedByAge(view[..at] + [peer] + view[at..]) && UniqueIds(view[..at] + [peer] + view[at..])
  {
  }

  /** `insert_peer_data_with_order`: an older entry for the same peer is replaced, a younger one
      wins, and the slot stays sorted. */
  method InsertWithOrder(view: Slot, peer: PeerData) returns (r: Slot)
    requires SortedByAge(view) && UniqueIds(view)
    ensures SortedByAge(r) && UniqueIds(r)
    ensures Represents(view, peer) ==> r == view
    ensures !Represents(view, peer) ==> forall x :: x in r <==> x == peer || (x in view && x.id != peer.id)
    decreases |view|
  {
    for i := 0 to |view|
      invariant forall j :: 0 <= j < i ==> view[j].id != peer.id
    {
      if view[i].id == peer.id {
        Without(view, i, peer);
        if view[i].age > peer.age {
          r := InsertWithOrder(view[..i] + view[i + 1..], peer);
        } else {
          r := view;
        }
        return;
      }
    }
    var at := |view|;
    for i := 0 to |view|
      invariant at == |view| && forall j :: 0 <= j < i ==> view[j].age < peer.age
    {
      if view[i].age >= peer.age {
        at := i;
        break;
      }
    }
    InsertedAt(view, at, peer);
    r := view[..at] + [peer] + view[at..];
    assert view == view[..at] + view[at..];
  }

  /** Inserting keeps the slot well formed and everyone represented. */
  lemma InsertKeepsSlot(view: Slot, peer: PeerData, r: Slot, g: int, n: int)
    requires SlotOk(view, g, n) && InUnit(peer.pos) && Group(n, peer.pos) == g
    requires SortedByAge(r) && UniqueIds(r)
    requires Represents(view, peer) ==> r == view
    requires !Represents(view, peer) ==> forall x :: x in r <==> x == peer || (x in view && x.id != peer.id)
    ensures SlotOk(r, g, n)
    ensures Represents(r, peer)
    ensures forall x :: Represents(view, x) ==> Represents(r, x)
    ensures forall x :: x in r ==> x in view || x == peer
  {
  }

  method InsertAll(view: Slot, peers: seq<PeerData>, ghost g: int, ghost n: int) returns (r: Slot)
    requires SlotOk(view, g, n) && forall p :: p in peers ==> InUnit(p.pos) && Group(n, p.pos) == g
    ensures SlotOk(r, g, n)
    ensures forall x :: x in r ==> x in view || x in peers
    ensures forall x :: Represents(view, x) || x in peers ==> Represents(r, x)
  {
    r := view;
    for i := 0 to |peers|
      invariant SlotOk(r, g, n)
      invariant forall x :: x in r ==> x in view || x in peers
      invariant forall x :: Represents(view, x) || x in peers[..i] ==> Represents(r, x)
    {
      assert peers[i] in peers;
      assert peers[..i + 1] == peers[..i] + [peers[i]];
      ghost var before := r;
      r := InsertWithOrder(r, peers[i]);
      InsertKeepsSlot(before, peers[i], r, g, n);
    }
    assert peers[..|peers|] == peers;
  }

  /** A prefix of a slot is a slot. */
  lemma PrefixOk(s: Slot, k: nat, g: int, n: int)
    requires SlotOk(s, g, n) && k <= |s|
    ensures SlotOk(s[..k], g, n)
  {
  }

  // ----- who is crowded out

  /** The peers that the slot knows with an age of at most `age`. */
  ghost function UpTo(s: Slot, age: int): set<PeerId> {
    set x | x in s && x.age <= age :: x.id
  }

  /** The slot represents the peer, or holds `cap` other entries that are no older. */
  ghost predicate Accounted(s: Slot, p: PeerData, cap: nat) {
    Represents(s, p) || |UpTo(s, p.age)| >= cap
  }

  lemma {:induction false} UpToAtMost(s: Slot, age: int)
    ensures |UpTo(s, age)| <= |s|
  {
    if s == [] {
      assert UpTo(s, age) == {};
    } else {
      var front, last := s[..|s| - 1], s[|s| - 1];
      UpToAtMost(front, age);
      assert s == front + [last];
      assert UpTo(s, age) == UpTo(front, age) + if last.age <= age then {last.id} else {};
    }
  }

  lemma {:induction false} UpToAll(s: Slot, age: int)
    requires UniqueIds(s) && forall x :: x in s ==> x.age <= age
    ensures |UpTo(s, age)| == |s|
  {
    if s == [] {
      assert UpTo(s, age) == {};
    } else {
      var front, last := s[..|s| - 1], s[|s| - 1];
      assert s == front + [last];
      UpToAll(front, age);
      assert last.id !in UpTo(front, age);
      assert UpTo(s, age) == UpTo(front, age) + {last.id};
    }
  }

  /** If an entry of a sorted slot is too old, all that are young enough come before it. */
  lemma UpToBefore(s: Slot, k: nat, age: int)
    requires SortedByAge(s) && k < |s| && s[k].age > age
    ensures |UpTo(s, age)| <= k
  {
    forall x | x in s && x.age <= age ensures x in s[..k] {
      var i :| 0 <= i < |s| && s[i] == x;
      assert s[..k][i] == x;
    }
    assert UpTo(s, age) == UpTo(s[..k], age);
    UpToAtMost(s[..k], age);
  }

  /** Whoever is accounted for stays so when everyone represented stays represented. */
  lemma AccountedStays(s: Slot, r: Slot, p: PeerData, cap: nat)
    requires Accounted(s, p, cap) && forall x :: x in s ==> Represents(r, x)
    ensures Accounted(r, p, cap)
  {
    forall k | k in UpTo(s, p.age) ensures k in UpTo(r, p.age) {
      var x :| x in s && x.age <= p.age && x.id == k;
      var y :| y in r && y.id == x.id && y.age <= x.age;
    }
    CardinalityDecides(UpTo(s, p.age), UpTo(r, p.age));
  }

  /** Cutting a slot off after `cap` entries crowds out only older peers. */
  lemma AccountedInPrefix(s: Slot, p: PeerData, cap: nat)
    requires SortedByAge(s) && UniqueIds(s) && |s| > cap && Accounted(s, p, cap)
    ensures Accounted(s[..cap], p, cap)
  {
    var r := s[..cap];
    if k :| 0 <= k < cap && s[k].age > p.age {
      UpToBefore(s, k, p.age);
      var x :| x in s && x.id == p.id && x.age <= p.age;
      var i :| 0 <= i < |s| && s[i] == x;
      assert r[i] == x;
    } else {
      assert forall x :: x in r ==> x.age <= p.age;
      UpToAll(r, p.age);
    }
  }

  // ----- the view

  ghost predicate ViewOk(view: seq<Slot>) {
    && PowerOfTwo(|view|)
    && forall i :: 0 <= i < |view| ==> SlotOk(view[i], i + 1, |view|)
  }

  /** `split_groups_from_view` loses no peer and gives each the slot of its finer group. */
  method SplitGroups(view: seq<Slot>) returns (r: seq<Slot>)
    requires ViewOk(view)
    ensures ViewOk(r) && |r| == 2 * |view|
    ensures forall i, p :: 0 <= i < |view| ==> (p in view[i] <==> p in r[2 * i] || p in r[2 * i + 1])
  {
    var n := |view| * 2;
    PowerDoubles(|view|);
    r := [];
    for i := 0 to |view|
      invariant |r| == 2 * i
      invariant forall j :: 0 <= j < 2 * i ==> SlotOk(r[j], j + 1, n)
      invariant forall j, p :: 0 <= j < i ==> (p in view[j] <==> p in r[2 * j] || p in r[2 * j + 1])
    {
      var lower, upper := SplitSlot(view[i], i, |view|);
      ghost var before := r;
      r := r + [lower, upper];
      assert forall j :: 0 <= j < |before| ==> r[j] == before[j];
      assert r[2 * i] == lower && r[2 * i + 1] == upper;
    }
  }

  method SplitSlot(slot: Slot, i: nat, m: nat) returns (lower: Slot, upper: Slot)
    requires m >= 1 && SlotOk(slot, i + 1, m)
    ensures SlotOk(lower, 2 * i + 1, 2 * m) && SlotOk(upper, 2 * i + 2, 2 * m)
    ensures forall p :: p in slot <==> p in lower || p in upper
  {
    lower, upper := [], [];
    for k := 0 to |slot|
      invariant SlotOk(lower, 2 * i + 1, 2 * m) && SlotOk(upper, 2 * i + 2, 2 * m)
      invariant forall p :: p in slot[..k] <==> p in lower || p in upper
    {
      var peer := slot[k];
      assert peer in slot;
      assert slot[..k + 1] == slot[..k] + [peer];
      GroupSplits(m, peer.pos);
      assert forall x :: x in slot[..k] ==> x.id != peer.id && x.age <= peer.age;
      if Group(2 * m, peer.pos) == 2 * i + 2 {
        ghost var before := upper;
        upper := InsertWithOrder(upper, peer);
        InsertKeepsSlot(before, peer, upper, 2 * i + 2, 2 * m);
      } else {
        lower := AppendOldest(lower, peer);
      }
    }
    assert slot[..|slot|] == slot;
  }

  /** What stays in place while the rest of the slot is moved out. */
  method AppendOldest(s: Slot, peer: PeerData) returns (r: Slot)
    requires SortedByAge(s) && UniqueIds(s)
    requires forall x :: x in s ==> x.id != peer.id && x.age <= peer.age
    ensures r == s + [peer] && SortedByAge(r) && UniqueIds(r)
  {
    r := s + [peer];
    assert forall i :: 0 <= i < |s| ==> s[i] in s;
  }

  ghost predicate AccountedInEither(a: Slot, b: Slot, p: PeerData, cap: nat) {
    Accounted(a, p, cap) || Accounted(b, p, cap)
  }

  /** `merge_groups_from_view` joins neighbouring slots, keeping the youngest up to the cap. */
  method MergeGroups(view: seq<Slot>, cap: nat) returns (r: seq<Slot>)
    requires ViewOk(view)
    ensures ViewOk(r) && |r| == Half(|view|)
    ensures |view| == 1 ==> r == view
    ensures |view| > 1 ==> forall i :: 0 <= i < |r| ==> |r[i]| <= cap
    ensures |view| > 1 ==> forall i, p :: 0 <= i < |r| && p in r[i] ==> p in view[2 * i] || p in view[2 * i + 1]
    ensures |view| > 1 ==> forall i, p :: 0 <= i < |r| && AccountedInEither(view[2 * i], view[2 * i + 1], p, cap) ==>
              Accounted(r[i], p, cap)
  {
    if |view| == 1 { return view; }
    var m := |view| / 2;
    r := [];
    for i := 0 to m
      invariant |r| == i
      invariant forall j :: 0 <= j < i ==> SlotOk(r[j], j + 1, m) && |r[j]| <= cap
      invariant forall j, p :: 0 <= j < i && p in r[j] ==> p in view[2 * j] || p in view[2 * j + 1]
      invariant forall j, p :: 0 <= j < i && AccountedInEither(view[2 * j], view[2 * j + 1], p, cap) ==>
                  Accounted(r[j], p, cap)
    {
      var slot := MergeSlots(view[2 * i], view[2 * i + 1], i, m, cap);
      r := r + [slot];
    }
  }

  lemma CoarserSlot(s: Slot, g: int, m: int)
    requires m >= 1 && SlotOk(s, g, 2 * m)
    ensures SlotOk(s, (g + 1) / 2, m)
  {
  }

  method MergeSlots(a: Slot, b: Slot, i: nat, m: nat, cap: nat) returns (r: Slot)
    requires m >= 1 && SlotOk(a, 2 * i + 1, 2 * m) && SlotOk(b, 2 * i + 2, 2 * m)
    ensures SlotOk(r, i + 1, m) && |r| <= cap
    ensures forall p :: p in r ==> p in a || p in b
    ensures forall p :: AccountedInEither(a, b, p, cap) ==> Accounted(r, p, cap)
  {
    CoarserSlot(a, 2 * i + 1, m);
    CoarserSlot(b, 2 * i + 2, m);
    var all := InsertAll(a, b, i + 1, m);
    assert forall x :: x in a || x in b ==> Represents(all, x) by { SlotRepresents(a); }
    var size := if |all| < cap then |all| else cap;
    PrefixOk(all, size, i + 1, m);
    r := all[..size];
    forall p | AccountedInEither(a, b, p, cap) ensures Accounted(r, p, cap) {
      MergedAccounts(a, b, all, p, cap);
    }
  }

  lemma SlotRepresents(s: Slot)
    ensures forall x :: x in s ==> Represents(s, x)
  {
  }

  lemma MergedAccounts(a: Slot, b: Slot, all: Slot, p: PeerData, cap: nat)
    requires SortedByAge(all) && UniqueIds(all)
    requires forall x :: x in a || x in b ==> Represents(all, x)
    requires AccountedInEither(a, b, p, cap)
    ensures Accounted(all[..if |all| < cap then |all| else cap], p, cap)
  {
    if Accounted(a, p, cap) { AccountedStays(a, all, p, cap); } else { AccountedStays(b, all, p, cap); }
    if |all| > cap { AccountedInPrefix(all, p, cap); } else { assert all[..|all|] == all; }
  }

  /** With room left, everyone accounted for and young enough is represented. */
  ghost predicate KeepsYoung(s: Slot, r: Slot, maxViewAge: int, cap: nat) {
    |r| < cap ==> forall p :: Accounted(s, p, cap) && p.age < maxViewAge ==> Represents(r, p)
  }

  /** Keep the peers below the age limit, at most `cap` of them. */
  method CleanSlot(s: Slot, maxViewAge: int, cap: nat, ghost g: int, ghost n: int) returns (r: Slot)
    requires SlotOk(s, g, n)
    ensures SlotOk(r, g, n) && |r| <= cap
    ensures forall p :: p in r ==> p in s && p.age < maxViewAge
    ensures KeepsYoung(s, r, maxViewAge, cap)
  {
    var keep := 0;
    for i := 0 to |s|
      invariant keep == i && forall j :: 0 <= j < i ==> s[j].age < maxViewAge
    {
      if s[i].age < maxViewAge { keep := keep + 1; } else { break; }
    }
    assert forall j :: keep <= j < |s| ==> s[j].age >= maxViewAge;
    var size := if cap < keep then cap else keep;
    PrefixOk(s, size, g, n);
    r := s[..size];
    if size < cap {
      forall p | Accounted(s, p, cap) && p.age < maxViewAge ensures Represents(r, p) {
        if keep < |s| { UpToBefore(s, keep, p.age); } else { UpToAtMost(s, p.age); }
        var x :| x in s && x.id == p.id && x.age <= p.age;
        assert x in r;
      }
    }
  }

  /** A peer of slot `i`, or one just received that belongs there. */
  ghost predicate Candidate(view: seq<Slot>, received: seq<PeerData>, i: nat, p: PeerData)
    requires i < |view|
  {
    p in view[i] || (p in received && Group(|view|, p.pos) == i + 1)
  }

  /** `all` holds, and represents, the candidates of each slot. */
  ghost predicate Holds(view: seq<Slot>, received: seq<PeerData>, all: seq<Slot>)
    requires |all| == |view|
  {
    && (forall i, p :: 0 <= i < |all| && p in all[i] ==> p in view[i] || p in received)
    && (forall i, p :: 0 <= i < |all| && Candidate(view, received, i, p) ==> Represents(all[i], p))
  }

  lemma HoldsMore(view: seq<Slot>, received: seq<PeerData>, all: seq<Slot>, peer: PeerData, slot: Slot)
    requires |all| == |view| && Holds(view, received, all) && 1 <= Group(|view|, peer.pos) <= |view|
    requires Represents(slot, peer)
    requires forall x :: Represents(all[Group(|view|, peer.pos) - 1], x) ==> Represents(slot, x)
    requires forall x :: x in slot ==> x in all[Group(|view|, peer.pos) - 1] || x == peer
    ensures Holds(view, received + [peer], all[Group(|view|, peer.pos) - 1 := slot])
  {
  }

  /** Insert each received peer in the slot of its group. */
  method InsertReceived(view: seq<Slot>, received: seq<PeerData>) returns (r: seq<Slot>)
    requires ViewOk(view) && WellFormed(received)
    ensures ViewOk(r) && |r| == |view| && Holds(view, received, r)
  {
    r := view;
    for k := 0 to |received|
      invariant ViewOk(r) && |r| == |view| && Holds(view, received[..k], r)
    {
      var peer := received[k];
      assert peer in received;
      assert received[..k + 1] == received[..k] + [peer];
      GroupInRange(|view|, peer.pos);
      var at := Group(|view|, peer.pos) - 1;
      var slot := InsertWithOrder(r[at], peer);
      InsertKeepsSlot(r[at], peer, slot, at + 1, |view|);
      HoldsMore(view, received[..k], r, peer, slot);
      r := r[at := slot];
    }
    assert received[..|received|] == received;
  }

  /** What cleaning makes of one slot. */
  ghost predicate Cleaned(s: Slot, r: Slot, g: int, n: int, maxViewAge: int, cap: nat) {
    && SlotOk(r, g, n) && |r| <= cap
    && (forall p :: p in r ==> p in s && p.age < maxViewAge)
    && KeepsYoung(s, r, maxViewAge, cap)
  }

  method CleanView(view: seq<Slot>, maxViewAge: int, cap: nat) returns (r: seq<Slot>)
    requires ViewOk(view)
    ensures ViewOk(r) && |r| == |view|
    ensures forall i :: 0 <= i < |r| ==> Cleaned(view[i], r[i], i + 1, |view|, maxViewAge, cap)
  {
    r := [];
    for i := 0 to |view|
      invariant |r| == i
      invariant forall j :: 0 <= j < i ==> Cleaned(view[j], r[j], j + 1, |view|, maxViewAge, cap)
    {
      var slot := CleanSlot(view[i], maxViewAge, cap, i + 1, |view|);
      assert Cleaned(view[i], slot, i + 1, |view|, maxViewAge, cap);
      r := r + [slot];
    }
  }

  /** A peer that slot `i` accounts for, or one just received that belongs there. */
  ghost predicate Waiting(view: seq<Slot>, received: seq<PeerData>, i: nat, p: PeerData, cap: nat)
    requires i < |view|
  {
    Accounted(view[i], p, cap) || (p in received && Group(|view|, p.pos) == i + 1)
  }

  /** Every entry is below the age limit and every slot within the cap, nobody is new, and a peer is
      missing from a slot only because of one or the other. */
  ghost predicate IncorporatedInto(view: seq<Slot>, received: seq<PeerData>, r: seq<Slot>, maxViewAge: int, cap: nat) {
    && |r| == |view|
    && (forall i :: 0 <= i < |r| ==> |r[i]| <= cap)
    && (forall i, p :: 0 <= i < |r| && p in r[i] ==> p.age < maxViewAge && (p in view[i] || p in received))
    && (forall i, p :: 0 <= i < |r| && |r[i]| < cap && Waiting(view, received, i, p, cap) && p.age < maxViewAge ==>
          Represents(r[i], p))
  }

  /** `incorporate_peers_in_view`. */
  method IncorporatePeers(view: seq<Slot>, received: seq<PeerData>, maxViewAge: int, cap: nat) returns (r: seq<Slot>)
    requires ViewOk(view) && WellFormed(received)
    ensures ViewOk(r) && IncorporatedInto(view, received, r, maxViewAge, cap)
  {
    var all := InsertReceived(view, received);
    r := CleanView(all, maxViewAge, cap);
    assert forall i :: 0 <= i < |r| ==> Cleaned(all[i], r[i], i + 1, |view|, maxViewAge, cap);
    forall i, p | 0 <= i < |r| && |r[i]| < cap && Waiting(view, received, i, p, cap) && p.age < maxViewAge
      ensures Represents(r[i], p)
    {
      assert forall x :: x in view[i] ==> Candidate(view, received, i, x);
      if Accounted(view[i], p, cap) { AccountedStays(view[i], all[i], p, cap); }
      else { assert Candidate(view, received, i, p); }
      assert Accounted(all[i], p, cap) && Cleaned(all[i], r[i], i + 1, |view|, maxViewAge, cap);
    }
  }

  // ----- who is where in the view

  ghost predicate InView(view: seq<Slot>, p: PeerData) {
    exists i :: 0 <= i < |view| && p in view[i]
  }

  /** The slot of the peer's group accounts for the peer. */
  ghost predicate AccountedIn(view: seq<Slot>, p: PeerData, cap: nat) {
    && InUnit(p.pos) && 1 <= Group(|view|, p.pos) <= |view|
    && Accounted(view[Group(|view|, p.pos) - 1], p, cap)
  }

  lemma InViewIsAccounted(view: seq<Slot>, p: PeerData, cap: nat)
    requires ViewOk(view) && InView(view, p)
    ensures AccountedIn(view, p, cap)
  {
    var i :| 0 <= i < |view| && p in view[i];
    assert SlotOk(view[i], i + 1, |view|);
  }

  lemma SplitKeepsInView(view: seq<Slot>, r: seq<Slot>, p: PeerData)
    requires |r| == 2 * |view|
    requires forall i, x :: 0 <= i < |view| ==> (x in view[i] <==> x in r[2 * i] || x in r[2 * i + 1])
    ensures InView(view, p) <==> InView(r, p)
  {
    if k :| 0 <= k < |r| && p in r[k] {
      var i := k / 2;
      assert k == 2 * i || k == 2 * i + 1;
      assert p in view[i];
    }
  }

  lemma MergeKeepsAccounted(view: seq<Slot>, r: seq<Slot>, p: PeerData, cap: nat)
    requires |r| >= 1 && |view| == 2 * |r| && AccountedIn(view, p, cap)
    requires forall i, x :: 0 <= i < |r| && AccountedInEither(view[2 * i], view[2 * i + 1], x, cap) ==> Accounted(r[i], x, cap)
    ensures AccountedIn(r, p, cap)
  {
    GroupSplits(|r|, p.pos);
    GroupInRange(|r|, p.pos);
    var i := Group(|r|, p.pos) - 1;
    assert AccountedInEither(view[2 * i], view[2 * i + 1], p, cap);
  }

  lemma MergeComesFromView(view: seq<Slot>, r: seq<Slot>, p: PeerData)
    requires |view| == 2 * |r| && InView(r, p)
    requires forall i, x :: 0 <= i < |r| && x in r[i] ==> x in view[2 * i] || x in view[2 * i + 1]
    ensures InView(view, p)
  {
    var i :| 0 <= i < |r| && p in r[i];
    assert p in view[2 * i] || p in view[2 * i + 1];
  }

  /** One merge: nobody new, and everyone accounted for stays so. */
  method MergeOnce(view: seq<Slot>, cap: nat) returns (r: seq<Slot>)
    requires ViewOk(view) && |view| > 1
    ensures ViewOk(r) && |r| == |view| / 2
    ensures forall p :: InView(r, p) ==> InView(view, p)
    ensures forall p :: AccountedIn(view, p, cap) ==> AccountedIn(r, p, cap)
  {
    r := MergeGroups(view, cap);
    forall p | InView(r, p) ensures InView(view, p) { MergeComesFromView(view, r, p); }
    forall p | AccountedIn(view, p, cap) ensures AccountedIn(r, p, cap) { MergeKeepsAccounted(view, r, p, cap); }
  }

  /** One split: the same peers. */
  method SplitOnce(view: seq<Slot>) returns (r: seq<Slot>)
    requires ViewOk(view)
    ensures ViewOk(r) && |r| == 2 * |view|
    ensures forall p :: InView(r, p) <==> InView(view, p)
  {
    r := SplitGroups(view);
    forall p ensures InView(view, p) <==> InView(r, p) { SplitKeepsInView(view, r, p); }
  }

  /** `reconfigure_view_if_needed` terminates with one slot per group, with nobody new and everyone
      accounted for. */
  method Reconfigure(view: seq<Slot>, nrGroups: int, cap: nat) returns (r: seq<Slot>)
    requires ViewOk(view) && PowerOfTwo(nrGroups)
    ensures ViewOk(r) && |r| == nrGroups
    ensures |view| == nrGroups ==> r == view
    ensures forall p :: InView(r, p) ==> InView(view, p)
    ensures forall p :: InView(view, p) ==> AccountedIn(r, p, cap)
  {
    r := view;
    if |view| > nrGroups {
      forall p | InView(view, p) ensures AccountedIn(r, p, cap) { InViewIsAccounted(view, p, cap); }
      while |r| != nrGroups
        invariant ViewOk(r) && |r| >= nrGroups
        invariant |view| != nrGroups
        invariant forall p :: InView(r, p) ==> InView(view, p)
        invariant forall p :: InView(view, p) ==> AccountedIn(r, p, cap)
        decreases |r|
      {
        PowersAreApart(nrGroups, |r|);
        r := MergeOnce(r, cap);
      }
    } else {
      while |r| != nrGroups
        invariant ViewOk(r) && |r| <= nrGroups
        invariant |view| == nrGroups ==> r == view
        invariant forall p :: InView(r, p) <==> InView(view, p)
        decreases nrGroups - |r|
      {
        PowersAreApart(|r|, nrGroups);
        r := SplitOnce(r);
      }
      forall p | InView(view, p) ensures AccountedIn(r, p, cap) { InViewIsAccounted(r, p, cap); }
    }
  }

  function AgedSlot(s: Slot): Slot {
    seq(|s|, i requires 0 <= i < |s| => s[i].(age := s[i].age + 1))
  }

  lemma AgedSlotOk(s: Slot, g: int, n: int)
    requires SlotOk(s, g, n)
    ensures SlotOk(AgedSlot(s), g, n)
  {
  }

  method AgeView(view: seq<Slot>) returns (r: seq<Slot>)
    requires ViewOk(view)
    ensures ViewOk(r) && |r| == |view|
    ensures forall i :: 0 <= i < |view| ==> r[i] == AgedSlot(view[i])
  {
    r := [];
    for i := 0 to |view|
      invariant |r| == i
      invariant forall j :: 0 <= j < i ==> r[j] == AgedSlot(view[j]) && SlotOk(r[j], j + 1, |view|)
    {
      AgedSlotOk(view[i], i + 1, |view|);
      r := r + [AgedSlot(view[i])];
    }
  }

  // ----- who is in the view after a message

  /** The entry was in the view before it aged by `years`. */
  ghost predicate WasIn(was: seq<Slot>, p: PeerData, years: int) {
    InView(was, p.(age := p.age - years))
  }

  /** Every entry of the view is below the age limit and was received, or was there before. */
  ghost predicate OnlyOffered(was: seq<Slot>, years: int, received: seq<PeerData>, view: seq<Slot>, maxViewAge: int) {
    forall p :: InView(view, p) ==> p.age < maxViewAge && (p in received || WasIn(was, p, years))
  }

  /** The slot of the peer's group exists and has room. */
  ghost predicate HasRoom(view: seq<Slot>, p: PeerData, cap: nat) {
    1 <= Group(|view|, p.pos) <= |view| && |view[Group(|view|, p.pos) - 1]| < cap
  }

  ghost predicate RepresentedIn(view: seq<Slot>, p: PeerData) {
    1 <= Group(|view|, p.pos) <= |view| && Represents(view[Group(|view|, p.pos) - 1], p)
  }

  /** Everyone received and everyone who was there is represented in the slot of the peer's group, if
      below the age limit and the slot has room. */
  ghost predicate NobodyDropped(was: seq<Slot>, years: int, received: seq<PeerData>, view: seq<Slot>,
                                maxViewAge: int, cap: nat) {
    forall p :: (p in received || WasIn(was, p, years)) && p.age < maxViewAge && HasRoom(view, p, cap) ==>
      RepresentedIn(view, p)
  }

  lemma IncorporationOffers(was: seq<Slot>, years: int, mid: seq<Slot>, received: seq<PeerData>, r: seq<Slot>,
                            maxViewAge: int, cap: nat)
    requires IncorporatedInto(mid, received, r, maxViewAge, cap)
    requires forall p :: InView(mid, p) ==> WasIn(was, p, years)
    ensures OnlyOffered(was, years, received, r, maxViewAge)
  {
    forall p | InView(r, p) ensures p.age < maxViewAge && (p in received || WasIn(was, p, years)) {
      var i :| 0 <= i < |r| && p in r[i];
      if p in mid[i] { assert InView(mid, p); }
    }
  }

  lemma IncorporationDropsNobody(was: seq<Slot>, years: int, mid: seq<Slot>, received: seq<PeerData>, r: seq<Slot>,
                                 maxViewAge: int, cap: nat)
    requires IncorporatedInto(mid, received, r, maxViewAge, cap)
    requires forall p :: WasIn(was, p, years) ==> AccountedIn(mid, p, cap)
    ensures NobodyDropped(was, years, received, r, maxViewAge, cap)
  {
    forall p | (p in received || WasIn(was, p, years)) && p.age < maxViewAge && HasRoom(r, p, cap)
      ensures RepresentedIn(r, p)
    {
      var i := Group(|r|, p.pos) - 1;
      assert Waiting(mid, received, i, p, cap);
    }
  }

  lemma SameAge(was: seq<Slot>, p: PeerData)
    ensures WasIn(was, p, 0) <==> InView(was, p)
  {
    assert p.(age := p.age - 0) == p;
  }

  lemma AgedByOne(view: seq<Slot>, r: seq<Slot>, p: PeerData)
    requires |r| == |view| && forall i :: 0 <= i < |view| ==> r[i] == AgedSlot(view[i])
    ensures InView(r, p) <==> WasIn(view, p, 1)
  {
    var q := p.(age := p.age - 1);
    if i :| 0 <= i < |r| && p in r[i] {
      var k :| 0 <= k < |r[i]| && r[i][k] == p;
      assert view[i][k] == q;
    }
    if i :| 0 <= i < |view| && q in view[i] {
      var k :| 0 <= k < |view[i]| && view[i][k] == q;
      assert r[i][k] == p;
    }
  }

  // ----- the load balancer

  class SmartLoadBalancer {
    const position: real
    const repMin: int
    const repMax: int
    const maxAge: int
    const maxViewAge: int
    const cap: nat
    var nrGroups: int
    var myGroup: int
    var localView: LocalView
    var view: seq<Slot>
    var recovering: bool

    /** The run invariant: one slot per group, each peer in the slot of its group, slots sorted by
        age without repeated peers, and a local view of this client's group. */
    ghost predicate Valid()
      reads this
    {
      && InUnit(position)
      && PowerOfTwo(nrGroups)
      && myGroup == Group(nrGroups, position)
      && ViewOk(view) && |view| == nrGroups
      && LocalOk(localView, Half(nrGroups), position, None)
    }

    /** Every slot is within the cap and below the age limit, as each incorporation leaves it. */
    ghost predicate Trimmed()
      reads this
    {
      forall i :: 0 <= i < |view| ==> |view[i]| <= cap && forall p :: p in view[i] ==> p.age < maxViewAge
    }

    /** The bootstrapper hands out distinct peers, all with the same age. */
    constructor (position: real, repMin: int, repMax: int, maxAge: int, maxViewAge: int, cap: nat, boot: Slot)
      requires InUnit(position) && SortedByAge(boot) && UniqueIds(boot) && WellFormed(boot)
      ensures Valid() && view == [boot] && recovering
    {
      this.position, this.repMin, this.repMax, this.maxAge := position, repMin, repMax, maxAge;
      this.maxViewAge, this.cap := maxViewAge, cap;
      nrGroups, myGroup, localView, view, recovering := 1, 1, map[], [boot], true;
      GroupInRange(1, position);
      forall p | p in boot ensures Group(1, p.pos) == 1 { GroupInRange(1, p.pos); }
    }

    /** Adopt a group count: this client's group and the slots of the view follow, and the received
        peers are incorporated. */
    method Adopt(n: int, received: seq<PeerData>)
      requires InUnit(position) && PowerOfTwo(n) && ViewOk(view) && WellFormed(received)
      modifies this`nrGroups, this`myGroup, this`view
      ensures nrGroups == n && myGroup == Group(n, position) && ViewOk(view) && |view| == n && Trimmed()
      ensures OnlyOffered(old(view), 0, received, view, maxViewAge)
      ensures NobodyDropped(old(view), 0, received, view, maxViewAge, cap)
    {
      nrGroups := n;
      myGroup := Group(nrGroups, position);
      ghost var was := view;
      view := Reconfigure(view, nrGroups, cap);
      ghost var mid := view;
      Incorporate(received);
      forall p ensures WasIn(was, p, 0) <==> InView(was, p) { SameAge(was, p); }
      IncorporationOffers(was, 0, mid, received, view, maxViewAge, cap);
      IncorporationDropsNobody(was, 0, mid, received, view, maxViewAge, cap);
    }

    method RecoverLocalView(received: seq<PeerData>) returns (requested: bool)
      requires Valid() && WellFormed(received)
      modifies this
      ensures Valid()
      ensures
        var n := old(nrGroups);
        var known := RefreshAll(old(localView), received, n, old(myGroup), None);
        if n > MaxSlices(received) && |known| >= repMin then
          && !recovering && !requested
          && (if |known| > repMax
              then nrGroups == 2 * n && localView == Kept(known, nrGroups, myGroup, maxAge) && Trimmed()
                   && OnlyOffered(old(view), 0, received, view, maxViewAge)
                   && NobodyDropped(old(view), 0, received, view, maxViewAge, cap)
              else nrGroups == n && localView == known && view == old(view))
        else
          && nrGroups == MaxSlices(received) && Trimmed()
          && OnlyOffered(old(view), 0, received, view, maxViewAge)
          && NobodyDropped(old(view), 0, received, view, maxViewAge, cap)
          && localView == Kept(known, nrGroups, myGroup, maxAge)
          && requested == !(repMin <= |localView| <= repMax)
          && recovering == (old(recovering) && requested && nrGroups != 1)
    {
      requested := false;
      var moved;
      var fromPeers := MaxSlicesOf(received);
      MaxSlicesIsPower(received);
      AddAllOk(localView, received, nrGroups, position, None);
      localView := IncorporateLocalPeers(localView, received, nrGroups, myGroup, None);
      ghost var known, half := localView, Half(nrGroups);
      var estimation := |localView|;
      if nrGroups > fromPeers && estimation >= repMin {
        if estimation > repMax {
          PowerDoubles(nrGroups);
          Adopt(nrGroups * 2, received);
          KeptOk(known, nrGroups, position, None, maxAge, half);
          localView, moved := CleanLocalView(localView, nrGroups, myGroup, maxAge);
          LocalOkAtHalf(localView, nrGroups, position, None);
        }
        recovering := false;
        return;
      }
      Adopt(fromPeers, received);
      KeptOk(known, nrGroups, position, None, maxAge, half);
      localView, moved := CleanLocalView(localView, nrGroups, myGroup, maxAge);
      LocalOkAtHalf(localView, nrGroups, position, None);
      if fromPeers == 1 { recovering := false; }
      estimation := |localView|;
      if repMin <= estimation && estimation <= repMax {
        recovering := false;
      } else {
        requested := true;
      }
    }

    method ReceiveLocalMessage(received: seq<PeerData>)
      requires Valid() && WellFormed(received)
      modifies this
      ensures Valid()
      ensures !old(recovering) ==>
        && nrGroups == old(nrGroups) && view == old(view) && !recovering
        && localView == RefreshAll(old(localView), received, nrGroups, myGroup, None)
      ensures old(recovering) && view != old(view) ==>
        && OnlyOffered(old(view), 0, received, view, maxViewAge)
        && NobodyDropped(old(view), 0, received, view, maxViewAge, cap)
    {
      if recovering {
        var _ := RecoverLocalView(received);
        return;
      }
      AddAllOk(localView, received, nrGroups, position, None);
      localView := IncorporateLocalPeers(localView, received, nrGroups, myGroup, None);
    }

    /** Merge or split the groups when the local view is too small or too large. */
    method Resize(estimation: int)
      requires PowerOfTwo(nrGroups) && ViewOk(view) && |view| == nrGroups
      modifies this`nrGroups, this`myGroup, this`view
      ensures nrGroups == NextGroups(old(nrGroups), estimation, repMin, repMax) && PowerOfTwo(nrGroups)
      ensures ViewOk(view) && |view| == nrGroups && myGroup == Group(nrGroups, position)
      ensures forall p :: InView(view, p) ==> InView(old(view), p)
      ensures repMin <= repMax ==> forall p :: InView(old(view), p) ==> AccountedIn(view, p, cap)
    {
      NextGroupsIsPower(nrGroups, estimation, repMin, repMax);
      ghost var was := view;
      forall p | InView(view, p) ensures AccountedIn(view, p, cap) { InViewIsAccounted(view, p, cap); }
      if estimation < repMin && nrGroups > 1 {
        nrGroups := nrGroups / 2;
        view := MergeOnce(view, cap);
      }
      if estimation > repMax {
        nrGroups := nrGroups * 2;
        view := SplitOnce(view);
        forall p | InView(view, p) ensures AccountedIn(view, p, cap) { InViewIsAccounted(view, p, cap); }
      }
      myGroup := Group(nrGroups, position);
    }

    /** The first half of `receive_message`: age both views, add what was received to the local
        view, clean it, and resize. */
    method AgeAndResize(received: seq<PeerData>) returns (notAdded: seq<PeerData>)
      requires Valid() && WellFormed(received)
      modifies this`nrGroups, this`myGroup, this`view, this`localView
      ensures Valid()
      ensures localView == Kept(Grown(old(localView), received, old(nrGroups), old(myGroup), None),
                                old(nrGroups), old(myGroup), maxAge)
      ensures Resized(old(nrGroups), nrGroups, |localView|, repMin, repMax)
      ensures forall p :: p in notAdded <==> LeftOut(p, old(localView), received, old(nrGroups), old(myGroup), None)
      ensures forall p :: p in notAdded ==> InUnit(p.pos)
      ensures forall p :: InView(view, p) ==> WasIn(old(view), p, 1)
      ensures repMin <= repMax ==> forall p :: WasIn(old(view), p, 1) ==> AccountedIn(view, p, cap)
    {
      localView, notAdded := AgeAddClean(localView, received, nrGroups, position, None, maxAge);
      NextGroupsIff(nrGroups, |localView|, repMin, repMax);
      ghost var was := view;
      view := AgeView(view);
      forall p ensures InView(view, p) <==> WasIn(was, p, 1) { AgedByOne(was, view, p); }
      var estimation := |localView|;
      LocalOkAfterResize(localView, nrGroups, estimation, repMin, repMax, position, None);
      Resize(estimation);
    }

    /** Peers left out before the resize enter the local view if they now share the group. */
    method Readmit(notAdded: seq<PeerData>)
      requires Valid() && forall p :: p in notAdded ==> InUnit(p.pos)
      modifies this`localView
      ensures Valid()
      ensures forall k :: k in old(localView) ==> k in localView && localView[k].age <= old(localView)[k].age
      ensures forall k :: k in localView && !(k in old(localView) && localView[k] == old(localView)[k]) ==>
                localView[k] in notAdded && Wanted(localView[k], nrGroups, myGroup, None)
      ensures forall p :: p in notAdded && Wanted(p, nrGroups, myGroup, None) ==>
                p.id in localView && localView[p.id].age <= p.age
    {
      var rest;
      AddManyOk(localView, notAdded, nrGroups, position);
      forall k { AddedEntries(localView, notAdded, nrGroups, myGroup, None, k); }
      localView, rest := AddReceived(localView, notAdded, nrGroups, myGroup, None);
    }

    method Incorporate(received: seq<PeerData>)
      requires ViewOk(view) && WellFormed(received)
      modifies this`view
      ensures ViewOk(view) && |view| == old(|view|) && Trimmed()
      ensures IncorporatedInto(old(view), received, view, maxViewAge, cap)
    {
      view := IncorporatePeers(view, received, maxViewAge, cap);
    }

    method ReceiveMessage(received: seq<PeerData>)
      requires Valid() && WellFormed(received)
      modifies this
      ensures Valid()
      ensures old(recovering) && view != old(view) ==>
        && OnlyOffered(old(view), 0, received, view, maxViewAge)
        && NobodyDropped(old(view), 0, received, view, maxViewAge, cap)
      ensures !old(recovering) ==>
        && !recovering && Trimmed()
        && OnlyOffered(old(view), 1, received, view, maxViewAge)
        && (repMin <= repMax ==> NobodyDropped(old(view), 1, received, view, maxViewAge, cap))
      ensures !old(recovering) ==>
        var n, g := old(nrGroups), old(myGroup);
        var kept := Kept(Grown(old(localView), received, n, g, None), n, g, maxAge);
        && Resized(n, nrGroups, |kept|, repMin, repMax)
        && (forall k :: k in kept ==> k in localView && localView[k].age <= kept[k].age)
        && (forall k :: k in localView && !(k in kept && localView[k] == kept[k]) ==>
              LeftOut(localView[k], old(localView), received, n, g, None) && Wanted(localView[k], nrGroups, myGroup, None))
        && (forall p :: LeftOut(p, old(localView), received, n, g, None) && Wanted(p, nrGroups, myGroup, None) ==>
              p.id in localView && localView[p.id].age <= p.age)
    {
      if recovering {
        var _ := RecoverLocalView(received);
        return;
      }
      ghost var was := view;
      var notAdded := AgeAndResize(received);
      Readmit(notAdded);
      ghost var mid := view;
      Incorporate(received);
      IncorporationOffers(was, 1, mid, received, view, maxViewAge, cap);
      if repMin <= repMax { IncorporationDropsNobody(was, 1, mid, received, view, maxViewAge, cap); }
    }

    /** Every sequence of messages keeps the invariant. */
    method Run(messages: seq<Message>)
      requires Valid() && forall m :: m in messages ==> WellFormed(m.received)
      modifies this
      ensures Valid()
    {
      for i := 0 to |messages|
        invariant Valid()
      {
        assert messages[i] in messages;
        match messages[i]
        case Gossip(received) => ReceiveMessage(received);
        case Local(received) => ReceiveLocalMessage(received);
      }
    }

    /** The slot a key is routed to exists, and holds only peers of the key's slice. */
    method SlotForKey(target: nat) returns (slot: Slot)
      requires Valid() && Routable(target, nrGroups)
      ensures forall p :: p in slot <==> InView(view, p) && Group(nrGroups, p.pos) == SliceOf(target, nrGroups)
    {
      var slice := ClientSlice(target, nrGroups);
      SliceBounds(target, nrGroups);
      slot := view[slice - 1];
    }
  }

  /** Adding peers to a local view: well formed at half granularity, entries only get younger. */
  lemma {:induction false} AddManyOk(local: LocalView, peers: seq<PeerData>, n: int, pos: real)
    requires PowerOfTwo(n) && InUnit(pos) && LocalOk(local, Half(n), pos, None)
    requires forall p :: p in peers ==> InUnit(p.pos)
    ensures var r := AddAll(local, peers, n, Group(n, pos), None);
            LocalOk(r, Half(n), pos, None) && forall k :: k in local ==> k in r && r[k].age <= local[k].age
  {
    if peers == [] {
    } else {
      var front, p := peers[..|peers| - 1], peers[|peers| - 1];
      assert p in peers;
      AddManyOk(local, front, n, pos);
      if Group(n, p.pos) == Group(n, pos) { WantedAtHalf(p, n, pos); }
      AddOneOk(AddAll(local, front, n, Group(n, pos), None), p, n, pos, None, Half(n));
    }
  }
}
