/** Directory metadata sent in blocks: splitting at the sender, collection in the temporary
database, and reassembly.
*/
module Reassembly {
  import opened Common
  import opened Versions
  import opened CompositeKeys
  import opened DirMetadata
  import opened Slices
  import opened Store

  const BLK_SIZE: nat := 4096

  /** Number of blocks of `size` bytes. */
  function NrBlocks(size: nat): nat {
    size / BLK_SIZE + if size % BLK_SIZE > 0 then 1 else 0
  }

  /** `split_data`: block `i`, counted from 1. */
  function Block(data: Bytes, i: nat): Bytes
    requires 1 <= i <= NrBlocks(|data|)
  {
    if i == NrBlocks(|data|) then data[(i - 1) * BLK_SIZE..]
    else data[(i - 1) * BLK_SIZE..(i - 1) * BLK_SIZE + BLK_SIZE]
  }

  function Joined(data: Bytes, n: nat): Bytes
    requires n <= NrBlocks(|data|)
  {
    if n == 0 then [] else Joined(data, n - 1) + Block(data, n)
  }

  lemma BeforeLast(size: nat, n: nat)
    requires 1 <= n <= NrBlocks(size)
    ensures (n - 1) * BLK_SIZE < size && n * BLK_SIZE == (n - 1) * BLK_SIZE + BLK_SIZE
    ensures n < NrBlocks(size) ==> n * BLK_SIZE < size
  {
  }

  lemma PrefixStep(data: Bytes, n: nat)
    requires 1 <= n <= NrBlocks(|data|)
    ensures (n - 1) * BLK_SIZE < |data|
    ensures data[..(n - 1) * BLK_SIZE] + Block(data, n) == if n == NrBlocks(|data|) then data else data[..n * BLK_SIZE]
  {
    BeforeLast(|data|, n);
  }

  lemma {:induction false} JoinedPrefix(data: Bytes, n: nat)
    requires n <= NrBlocks(|data|)
    ensures Joined(data, n) == if n == NrBlocks(|data|) then data else data[..n * BLK_SIZE]
  {
    if n == 0 {
    } else {
      JoinedPrefix(data, n - 1);
      PrefixStep(data, n);
    }
  }

  /** Concatenating the blocks gives back the data. */
  lemma SplitRoundTrip(data: Bytes)
    ensures Joined(data, NrBlocks(|data|)) == data
  {
    JoinedPrefix(data, NrBlocks(|data|));
  }

  // ----- the temporary database

  datatype TmpValue = BlockValue(bytes: Bytes) | SizeValue(text: string)

  type TmpDb = map<string, TmpValue>

  /** What the senders hold under each path and version. */
  type Source = (string, Version) -> set<Bytes>

  /** The bytes are block `i` of some sender's data. */
  ghost predicate IsBlockOf(senders: set<Bytes>, i: nat, bytes: Bytes) {
    exists d :: d in senders && 1 <= i <= NrBlocks(|d|) && bytes == Block(d, i)
  }

  ghost predicate IsSizeOf(senders: set<Bytes>, text: string) {
    exists d :: d in senders && text == Dec(|d|)
  }

  /** Every entry comes from a sender of its own path and version. */
  ghost predicate FromSource(tmp: TmpDb, source: Source) {
    && (forall path, v, i: nat :: BlockKey(path, v, i) in tmp ==>
          tmp[BlockKey(path, v, i)].BlockValue? && IsBlockOf(source(path, v), i, tmp[BlockKey(path, v, i)].bytes))
    && (forall path, v :: SizeKey(path, v) in tmp ==>
          tmp[SizeKey(path, v)].SizeValue? && IsSizeOf(source(path, v), tmp[SizeKey(path, v)].text))
  }

  ghost predicate HasBlock(tmp: TmpDb, path: string, v: Version, i: nat) {
    BlockKey(path, v, i) in tmp && tmp[BlockKey(path, v, i)].BlockValue?
  }

  ghost predicate Complete(tmp: TmpDb, path: string, v: Version, n: nat) {
    forall i: nat :: 1 <= i <= n ==> HasBlock(tmp, path, v, i)
  }

  lemma BlockStays(tmp: TmpDb, source: Source, path: string, v: Version, i: nat, bytes: Bytes)
    requires FromSource(tmp, source) && IsBlockOf(source(path, v), i, bytes)
    ensures FromSource(tmp[BlockKey(path, v, i) := BlockValue(bytes)], source)
  {
    var tmp' := tmp[BlockKey(path, v, i) := BlockValue(bytes)];
    forall q, w, j: nat | BlockKey(q, w, j) in tmp'
      ensures tmp'[BlockKey(q, w, j)].BlockValue? && IsBlockOf(source(q, w), j, tmp'[BlockKey(q, w, j)].bytes)
    {
      KeysNeverCollide(path, v, i, q, w, j);
    }
    forall q, w | SizeKey(q, w) in tmp'
      ensures tmp'[SizeKey(q, w)].SizeValue? && IsSizeOf(source(q, w), tmp'[SizeKey(q, w)].text)
    {
      KeysNeverCollide(path, v, i, q, w, 0);
    }
  }

  lemma SizeStays(tmp: TmpDb, source: Source, path: string, v: Version, text: string)
    requires FromSource(tmp, source) && IsSizeOf(source(path, v), text)
    ensures FromSource(tmp[SizeKey(path, v) := SizeValue(text)], source)
  {
    var tmp' := tmp[SizeKey(path, v) := SizeValue(text)];
    forall q, w, j: nat | BlockKey(q, w, j) in tmp'
      ensures tmp'[BlockKey(q, w, j)].BlockValue? && IsBlockOf(source(q, w), j, tmp'[BlockKey(q, w, j)].bytes)
    {
      KeysNeverCollide(q, w, j, path, v, 0);
    }
    forall q, w | SizeKey(q, w) in tmp'
      ensures tmp'[SizeKey(q, w)].SizeValue? && IsSizeOf(source(q, w), tmp'[SizeKey(q, w)].text)
    {
      KeysNeverCollide(path, v, 0, q, w, 0);
    }
  }

  // ----- what the blocks of one path and version add up to

  ghost function StoredBlock(tmp: TmpDb, path: string, v: Version, i: nat): Bytes
    requires HasBlock(tmp, path, v, i)
  {
    tmp[BlockKey(path, v, i)].bytes
  }

  /** The stored blocks of the path and version by number. */
  ghost function BlocksAt(tmp: TmpDb, path: string, v: Version): nat -> Bytes {
    (i: nat) => if HasBlock(tmp, path, v, i) then StoredBlock(tmp, path, v, i) else []
  }

  ghost function Concat(blocks: nat -> Bytes, n: nat): Bytes {
    if n == 0 then [] else Concat(blocks, n - 1) + blocks(n)
  }

  ghost function Assembled(tmp: TmpDb, path: string, v: Version, n: nat): Bytes {
    Concat(BlocksAt(tmp, path, v), n)
  }

  /** All senders of the path and version hold `data`. */
  ghost predicate Agreed(source: Source, path: string, v: Version, data: Bytes) {
    source(path, v) == {data}
  }

  lemma {:induction false} ConcatIsJoined(blocks: nat -> Bytes, data: Bytes, n: nat)
    requires n <= NrBlocks(|data|) && forall i: nat :: 1 <= i <= n ==> blocks(i) == Block(data, i)
    ensures Concat(blocks, n) == Joined(data, n)
  {
    if n == 0 {
    } else {
      ConcatIsJoined(blocks, data, n - 1);
    }
  }

  lemma AgreedBlock(tmp: TmpDb, source: Source, path: string, v: Version, i: nat, data: Bytes)
    requires FromSource(tmp, source) && HasBlock(tmp, path, v, i) && Agreed(source, path, v, data)
    ensures 1 <= i <= NrBlocks(|data|) && StoredBlock(tmp, path, v, i) == Block(data, i)
  {
    assert IsBlockOf(source(path, v), i, StoredBlock(tmp, path, v, i));
  }

  /** If the senders agree, what is assembled from all blocks is their data, whatever else is in
      the database. */
  lemma AgreedSendersReassemble(tmp: TmpDb, source: Source, path: string, v: Version, data: Bytes)
    requires FromSource(tmp, source) && Complete(tmp, path, v, NrBlocks(|data|)) && Agreed(source, path, v, data)
    ensures Assembled(tmp, path, v, NrBlocks(|data|)) == data
  {
    var blocks := BlocksAt(tmp, path, v);
    forall i: nat | 1 <= i <= NrBlocks(|data|) ensures blocks(i) == Block(data, i) {
      assert HasBlock(tmp, path, v, i);
      AgreedBlock(tmp, source, path, v, i, data);
    }
    ConcatIsJoined(blocks, data, NrBlocks(|data|));
    SplitRoundTrip(data);
  }

  // ----- two senders that hold different data

  function Count(d: Bytes): nat {
    NrBlocks(|d|)
  }

  /** The block that a mixture takes at `i`: `first` chooses where both senders have one. */
  function Taken(d: Bytes, e: Bytes, first: nat -> bool, i: nat): Bytes
    requires 1 <= i && (i <= Count(d) || i <= Count(e))
  {
    if i > Count(e) || (i <= Count(d) && first(i)) then Block(d, i) else Block(e, i)
  }

  /** The first `n` blocks of a mixture. */
  ghost function Mixed(d: Bytes, e: Bytes, first: nat -> bool, n: nat): Bytes
    requires n <= Count(d) || n <= Count(e)
  {
    if n == 0 then [] else Mixed(d, e, first, n - 1) + Taken(d, e, first, n)
  }

  /** All blocks taken are those of `x`. */
  ghost predicate TakenFrom(d: Bytes, e: Bytes, first: nat -> bool, n: nat, x: Bytes)
    requires n <= Count(x) && (n <= Count(d) || n <= Count(e))
  {
    n == 0 || (TakenFrom(d, e, first, n - 1, x) && Taken(d, e, first, n) == Block(x, n))
  }

  lemma {:induction false} TakenAt(d: Bytes, e: Bytes, first: nat -> bool, n: nat, x: Bytes, i: nat)
    requires 1 <= i <= n <= Count(x) && (n <= Count(d) || n <= Count(e)) && TakenFrom(d, e, first, n, x)
    ensures Taken(d, e, first, i) == Block(x, i)
  {
    if i == n {
    } else {
      TakenAt(d, e, first, n - 1, x, i);
    }
  }

  /** Taking the blocks of `x` gives the start of `x`. */
  lemma {:induction false} TakenFromAll(d: Bytes, e: Bytes, first: nat -> bool, n: nat, x: Bytes)
    requires n <= Count(x) && (n <= Count(d) || n <= Count(e))
    requires forall i: nat :: 1 <= i <= n ==> Taken(d, e, first, i) == Block(x, i)
    ensures TakenFrom(d, e, first, n, x) && Mixed(d, e, first, n) == Joined(x, n)
  {
    if n == 0 {
    } else {
      TakenFromAll(d, e, first, n - 1, x);
    }
  }

  /** Every block but the last is full. */
  lemma FullBlock(d: Bytes, i: nat)
    requires 1 <= i < Count(d)
    ensures |Block(d, i)| == BLK_SIZE && i * BLK_SIZE < |d|
  {
  }

  lemma {:induction false} MixedLength(d: Bytes, e: Bytes, first: nat -> bool, n: nat)
    requires n < Count(d) && n < Count(e)
    ensures |Mixed(d, e, first, n)| == n * BLK_SIZE
  {
    if n == 0 {
    } else {
      MixedLength(d, e, first, n - 1);
      FullBlock(d, n);
      FullBlock(e, n);
    }
  }

  lemma {:induction false} JoinedLength(x: Bytes, n: nat)
    requires n < Count(x)
    ensures |Joined(x, n)| == n * BLK_SIZE
  {
    if n == 0 {
    } else {
      JoinedLength(x, n - 1);
      FullBlock(x, n);
    }
  }

  lemma EqualParts<T>(a: seq<T>, b: seq<T>, x: seq<T>, y: seq<T>)
    requires |a| == |x|
    ensures a + b == x + y <==> a == x && b == y
  {
    if a + b == x + y {
      assert a == (a + b)[..|a|] && x == (x + y)[..|a|];
      assert b == (a + b)[|a|..] && y == (x + y)[|a|..];
    }
  }

  lemma MixedStep(d: Bytes, e: Bytes, first: nat -> bool, n: nat, x: Bytes)
    requires 1 <= n <= Count(d) && n <= Count(e) && n <= Count(x)
    ensures Mixed(d, e, first, n) == Joined(x, n) <==>
            Mixed(d, e, first, n - 1) == Joined(x, n - 1) && Taken(d, e, first, n) == Block(x, n)
  {
    MixedLength(d, e, first, n - 1);
    JoinedLength(x, n - 1);
    EqualParts(Mixed(d, e, first, n - 1), Taken(d, e, first, n), Joined(x, n - 1), Block(x, n));
  }

  /** Where both senders have blocks, a mixture is the start of `x` exactly when all blocks taken are
      those of `x`. */
  lemma {:induction false} MixedIs(d: Bytes, e: Bytes, first: nat -> bool, n: nat, x: Bytes)
    requires n <= Count(d) && n <= Count(e) && n <= Count(x)
    ensures Mixed(d, e, first, n) == Joined(x, n) <==> TakenFrom(d, e, first, n, x)
  {
    if n == 0 {
    } else {
      MixedIs(d, e, first, n - 1, x);
      MixedStep(d, e, first, n, x);
    }
  }

  lemma {:induction false} MixedSwap(d: Bytes, e: Bytes, first: nat -> bool, second: nat -> bool, n: nat)
    requires n <= Count(d) || n <= Count(e)
    requires forall i: nat :: second(i) == !first(i)
    ensures Mixed(d, e, first, n) == Mixed(e, d, second, n)
  {
    if n == 0 {
    } else {
      MixedSwap(d, e, first, second, n - 1);
      assert second(n) == !first(n);
    }
  }

  /** Both senders have block `i`, and not the same one. */
  ghost predicate DifferAt(d: Bytes, e: Bytes, i: nat) {
    1 <= i <= Count(d) && i <= Count(e) && Block(d, i) != Block(e, i)
  }

  /** A mixture of the length of one of the senders is the data of one of them. */
  ghost predicate IsWhole(d: Bytes, e: Bytes, first: nat -> bool) {
    Mixed(d, e, first, Count(d)) in {d, e} && Mixed(d, e, first, Count(e)) in {d, e}
  }

  lemma WholeMixture(d: Bytes, e: Bytes, first: nat -> bool, x: Bytes)
    requires Count(d) == Count(e) == Count(x)
    ensures Mixed(d, e, first, Count(d)) == x <==> TakenFrom(d, e, first, Count(d), x)
  {
    MixedIs(d, e, first, Count(d), x);
    SplitRoundTrip(x);
  }

  /** Two blocks that differ can be taken from different senders. */
  lemma MixtureOfBoth(d: Bytes, e: Bytes, i: nat, j: nat) returns (first: nat -> bool)
    requires Count(d) == Count(e) && DifferAt(d, e, i) && DifferAt(d, e, j) && i != j
    ensures !IsWhole(d, e, first)
  {
    first := (k: nat) => k == i;
    WholeMixture(d, e, first, d);
    WholeMixture(d, e, first, e);
    if TakenFrom(d, e, first, Count(d), d) { TakenAt(d, e, first, Count(d), d, j); }
    if TakenFrom(d, e, first, Count(d), e) { TakenAt(d, e, first, Count(d), e, i); }
  }

  lemma MixtureOfOne(d: Bytes, e: Bytes, first: nat -> bool)
    requires Count(d) == Count(e) && forall i, j :: DifferAt(d, e, i) && DifferAt(d, e, j) ==> i == j
    ensures IsWhole(d, e, first)
  {
    var x := if exists i :: DifferAt(d, e, i) && !first(i) then e else d;
    forall k: nat | 1 <= k <= Count(d) ensures Taken(d, e, first, k) == Block(x, k) {
      if DifferAt(d, e, k) && x == e && x != d {
        var i :| DifferAt(d, e, i) && !first(i);
        assert i == k;
      }
    }
    TakenFromAll(d, e, first, Count(d), x);
    SplitRoundTrip(x);
  }

  /** With fewer blocks in `d`, the first blocks of `e` can be taken for the data of `d`. */
  lemma MixtureOfShorter(d: Bytes, e: Bytes, i: nat) returns (first: nat -> bool)
    requires Count(d) < Count(e) && DifferAt(d, e, i)
    ensures !IsWhole(d, e, first)
  {
    var n := Count(d);
    first := (k: nat) => false;
    TakenFromAll(d, e, first, n, e);
    JoinedLength(e, n);
    FullBlock(e, n);
    MixedIs(d, e, first, n, d);
    SplitRoundTrip(d);
    if TakenFrom(d, e, first, n, d) { TakenAt(d, e, first, n, d, i); }
  }

  lemma MixtureOfPrefix(d: Bytes, e: Bytes, first: nat -> bool)
    requires Count(d) <= Count(e) && forall i :: !DifferAt(d, e, i)
    ensures IsWhole(d, e, first)
  {
    forall k: nat | 1 <= k <= Count(d) ensures Taken(d, e, first, k) == Block(d, k) == Block(e, k) {
      assert !DifferAt(d, e, k);
    }
    TakenFromAll(d, e, first, Count(d), d);
    TakenFromAll(d, e, first, Count(e), e);
    SplitRoundTrip(d);
    SplitRoundTrip(e);
  }

  /** The senders differ in at most one block, or, if one has fewer blocks, in none of those. */
  ghost predicate NeverConfused(d: Bytes, e: Bytes) {
    if Count(d) == Count(e) then forall i, j :: DifferAt(d, e, i) && DifferAt(d, e, j) ==> i == j
    else forall i :: !DifferAt(d, e, i)
  }

  ghost predicate MixturesAreWhole(d: Bytes, e: Bytes) {
    forall first: nat -> bool :: IsWhole(d, e, first)
  }

  lemma WholeEitherWay(d: Bytes, e: Bytes, first: nat -> bool, second: nat -> bool)
    requires forall i: nat :: second(i) == !first(i)
    ensures IsWhole(d, e, first) <==> IsWhole(e, d, second)
  {
    MixedSwap(d, e, first, second, Count(d));
    MixedSwap(d, e, first, second, Count(e));
  }

  lemma NeverConfusedIsWhole(d: Bytes, e: Bytes, first: nat -> bool)
    requires NeverConfused(d, e)
    ensures IsWhole(d, e, first)
  {
    if Count(d) == Count(e) {
      MixtureOfOne(d, e, first);
    } else if Count(d) < Count(e) {
      MixtureOfPrefix(d, e, first);
    } else {
      var second := (i: nat) => !first(i);
      forall i ensures !DifferAt(e, d, i) { assert !DifferAt(d, e, i); }
      MixtureOfPrefix(e, d, second);
      WholeEitherWay(d, e, first, second);
    }
  }

  lemma ConfusedIsMixed(d: Bytes, e: Bytes) returns (first: nat -> bool)
    requires !NeverConfused(d, e)
    ensures !IsWhole(d, e, first)
  {
    if Count(d) == Count(e) {
      var i, j :| DifferAt(d, e, i) && DifferAt(d, e, j) && i != j;
      first := MixtureOfBoth(d, e, i, j);
    } else {
      var i :| DifferAt(d, e, i);
      if Count(d) < Count(e) {
        first := MixtureOfShorter(d, e, i);
      } else {
        var second := MixtureOfShorter(e, d, i);
        first := (k: nat) => !second(k);
        WholeEitherWay(d, e, first, second);
      }
    }
  }

  /** Whatever mixture of blocks arrives, and whichever size, one sender's data is reassembled:
      exactly for senders that cannot be confused. */
  lemma MixturesAreWholeIff(d: Bytes, e: Bytes)
    ensures MixturesAreWhole(d, e) <==> NeverConfused(d, e)
  {
    if NeverConfused(d, e) {
      forall first: nat -> bool ensures IsWhole(d, e, first) {
        NeverConfusedIsWhole(d, e, first);
      }
    } else {
      var first := ConfusedIsMixed(d, e);
      assert !IsWhole(d, e, first);
    }
  }

  /** `first` says which stored blocks are those of `d`. */
  ghost predicate Names(tmp: TmpDb, path: string, v: Version, d: Bytes, first: nat -> bool, i: nat) {
    first(i) == (1 <= i <= Count(d) && HasBlock(tmp, path, v, i) && StoredBlock(tmp, path, v, i) == Block(d, i))
  }

  lemma {:induction false} ConcatIsMixed(blocks: nat -> Bytes, d: Bytes, e: Bytes, first: nat -> bool, n: nat)
    requires n <= Count(d) || n <= Count(e)
    requires forall i: nat :: 1 <= i <= n ==> IsTaken(blocks(i), d, e, first, i)
    ensures Concat(blocks, n) == Mixed(d, e, first, n)
  {
    if n == 0 {
    } else {
      ConcatIsMixed(blocks, d, e, first, n - 1);
      assert IsTaken(blocks(n), d, e, first, n);
    }
  }

  ghost predicate IsTaken(bytes: Bytes, d: Bytes, e: Bytes, first: nat -> bool, i: nat) {
    1 <= i && (i <= Count(d) || i <= Count(e)) && bytes == Taken(d, e, first, i)
  }

  lemma AssembledBlock(tmp: TmpDb, source: Source, path: string, v: Version, i: nat,
                       d: Bytes, e: Bytes, first: nat -> bool)
    requires FromSource(tmp, source) && source(path, v) == {d, e} && HasBlock(tmp, path, v, i)
    requires Names(tmp, path, v, d, first, i)
    ensures 1 <= i && (i <= Count(d) || i <= Count(e)) && StoredBlock(tmp, path, v, i) == Taken(d, e, first, i)
  {
    assert IsBlockOf(source(path, v), i, StoredBlock(tmp, path, v, i));
  }

  /** Two senders that cannot be confused are told apart by every complete database. */
  lemma TwoSendersReassemble(tmp: TmpDb, source: Source, path: string, v: Version, d: Bytes, e: Bytes, n: nat)
    requires FromSource(tmp, source) && source(path, v) == {d, e} && NeverConfused(d, e)
    requires (n == Count(d) || n == Count(e)) && Complete(tmp, path, v, n)
    ensures Assembled(tmp, path, v, n) in source(path, v)
  {
    var first := (i: nat) => && 1 <= i <= Count(d) && HasBlock(tmp, path, v, i)
                             && StoredBlock(tmp, path, v, i) == Block(d, i);
    var blocks := BlocksAt(tmp, path, v);
    forall i: nat | 1 <= i <= n ensures IsTaken(blocks(i), d, e, first, i) {
      assert HasBlock(tmp, path, v, i);
      AssembledBlock(tmp, source, path, v, i, d, e, first);
    }
    ConcatIsMixed(blocks, d, e, first, n);
    NeverConfusedIsWhole(d, e, first);
  }

  /** Senders that differ in two blocks can be: a mixture is the data of neither. */
  lemma SendersCanBeConfused() returns (d: Bytes, e: Bytes, first: nat -> bool)
    ensures !IsWhole(d, e, first)
  {
    d, e := seq(2 * BLK_SIZE, _ => 0), seq(2 * BLK_SIZE, _ => 1);
    assert Block(d, 1)[0] == 0 && Block(e, 1)[0] == 1 && Block(d, 2)[0] == 0 && Block(e, 2)[0] == 1;
    first := MixtureOfBoth(d, e, 1, 2);
  }

  // ----- forgetting the blocks of one path and version

  ghost function Erased(tmp: TmpDb, path: string, v: Version, n: nat): TmpDb {
    if n == 0 then tmp - {SizeKey(path, v)} else Erased(tmp, path, v, n - 1) - {BlockKey(path, v, n)}
  }

  /** The size or one of the first `n` blocks of the path and version. */
  ghost predicate IsEntryOf(k: string, path: string, v: Version, n: nat) {
    k == SizeKey(path, v) || exists i: nat :: 1 <= i <= n && k == BlockKey(path, v, i)
  }

  lemma OneEntryMore(k: string, path: string, v: Version, n: nat)
    requires n > 0
    ensures IsEntryOf(k, path, v, n) <==> IsEntryOf(k, path, v, n - 1) || k == BlockKey(path, v, n)
  {
  }

  lemma RemovedKey(tmp: TmpDb, gone: string, k: string)
    ensures k in tmp - {gone} <==> k in tmp && k != gone
    ensures k in tmp - {gone} ==> (tmp - {gone})[k] == tmp[k]
  {
  }

  /** Exactly the size and the first `n` blocks go. */
  lemma {:induction false} ErasedKeys(tmp: TmpDb, path: string, v: Version, n: nat, k: string)
    ensures k in Erased(tmp, path, v, n) <==> k in tmp && !IsEntryOf(k, path, v, n)
    ensures k in Erased(tmp, path, v, n) ==> Erased(tmp, path, v, n)[k] == tmp[k]
  {
    if n == 0 {
      RemovedKey(tmp, SizeKey(path, v), k);
    } else {
      ErasedKeys(tmp, path, v, n - 1, k);
      OneEntryMore(k, path, v, n);
      RemovedKey(Erased(tmp, path, v, n - 1), BlockKey(path, v, n), k);
    }
  }

  lemma ErasedStays(tmp: TmpDb, source: Source, path: string, v: Version, n: nat)
    requires FromSource(tmp, source)
    ensures FromSource(Erased(tmp, path, v, n), source)
  {
    forall k ensures k in Erased(tmp, path, v, n) ==> k in tmp && Erased(tmp, path, v, n)[k] == tmp[k] {
      ErasedKeys(tmp, path, v, n, k);
    }
  }

  // ----- arrivals

  /** A block reply or a size announcement reaching the receiver, from a sender holding `data`. */
  datatype Arrival =
    | SizeArrives(path: string, version: Version, data: Bytes)
    | BlockArrives(path: string, version: Version, data: Bytes, blk: nat)

  ghost predicate Sendable(a: Arrival, source: Source) {
    && a.data in source(a.path, a.version)
    && (a.BlockArrives? ==> 1 <= a.blk <= NrBlocks(|a.data|))
  }

  /** Metadata put into the main store. */
  datatype Delivered = Delivered(path: string, version: Version, data: Bytes)

  function Incorporated(db: Db, delivered: seq<Delivered>, parse: Bytes -> Metadata): Db {
    if delivered == [] then db
    else
      var d := delivered[|delivered| - 1];
      PutDb(Incorporated(db, delivered[..|delivered| - 1], parse), d.path, d.version, DirPayload(parse(d.data))).db
  }

  class TmpStore {
    const store: KvStore
    const parse: Bytes -> Metadata
    var tmp: TmpDb

    constructor (store: KvStore, parse: Bytes -> Metadata)
      ensures this.store == store && this.parse == parse && tmp == map[]
    {
      this.store, this.parse := store, parse;
      tmp := map[];
    }

    method ComposeKey(path: string, v: Version) returns (s: string)
      ensures s == VersionedKey(path, v)
    {
      var vector := Vv2Str(v.vv);
      s := path + "#" + vector + "#" + Signed(v.clientId.n);
    }

    /** `put_tmp_key_entry_size`, for keys of the own slice. */
    method PutTmpKeyEntrySize(path: string, v: Version, size: nat) returns (ok: bool)
      requires store.Routes(path)
      modifies this
      ensures ok == store.Mine(path)
      ensures tmp == if ok then old(tmp)[SizeKey(path, v) := SizeValue(Dec(size))] else old(tmp)
    {
      var slice := PeerSlice(store.hash(path), store.nrSlices);
      if store.slice != slice { return false; }
      var key := ComposeKey(path, v);
      tmp := tmp[key + "#size" := SizeValue(Dec(size))];
      ok := true;
    }

    /** `put_tmp_anti_entropy`, for paths of the own slice and keys that end in a block number: the
        bytes go under that number. */
    method PutTmpAntiEntropy(base: string, v: Version, key: string, bytes: Bytes) returns (ok: bool)
      requires store.Routes(base)
      modifies this
      ensures ok == (store.Mine(base) && SplitBlockPath(key).Some?)
      ensures ok ==> tmp == old(tmp)[VersionedKey(base, v) + ":" + SplitBlockPath(key).value.1 := BlockValue(bytes)]
      ensures !ok ==> tmp == old(tmp)
    {
      var slice := PeerSlice(store.hash(base), store.nrSlices);
      if store.slice != slice { return false; }
      var composite := ComposeKey(base, v);
      var parts := SplitBlockPath(key);
      if parts.None? { return false; }
      tmp := tmp[composite + ":" + parts.value.1 := BlockValue(bytes)];
      ok := true;
    }

    method ReadBlock(path: string, v: Version, i: nat, ghost source: Source) returns (r: Option<Bytes>)
      requires FromSource(tmp, source)
      ensures r.Some? <==> HasBlock(tmp, path, v, i)
      ensures r.Some? ==> r.value == BlocksAt(tmp, path, v)(i)
    {
      var composite := ComposeKey(path, v);
      var blkPath := composite + ":" + Dec(i);
      assert blkPath == BlockKey(path, v, i);
      if blkPath !in tmp { return None; }
      r := Some(tmp[blkPath].bytes);
    }

    /** The loop of `check_if_have_all_blks_and_put_metadata`. */
    method AssembleBlocks(path: string, v: Version, n: nat, ghost source: Source) returns (r: Option<Bytes>)
      requires FromSource(tmp, source)
      ensures r.Some? <==> Complete(tmp, path, v, n)
      ensures r.Some? ==> r.value == Assembled(tmp, path, v, n)
    {
      var met: Bytes := [];
      ghost var blocks := BlocksAt(tmp, path, v);
      for i := 1 to n + 1
        invariant Complete(tmp, path, v, i - 1)
        invariant met == Concat(blocks, i - 1)
      {
        CompleteStep(tmp, path, v, i, n);
        var value := ReadBlock(path, v, i, source);
        if value.None? { return None; }
        met := met + value.value;
      }
      r := Some(met);
    }

    /** `check_if_have_all_blks_and_put_metadata`: with all blocks there, the assembled metadata is
        put into the main store. */
    method CheckIfHaveAllBlocks(path: string, v: Version, n: nat, ghost source: Source) returns (r: Option<Bytes>)
      requires store.garbageAt > 0 && store.Routes(path) && FromSource(tmp, source)
      modifies store`db, store`seen
      ensures r.Some? <==> store.Mine(path) && Complete(tmp, path, v, n)
      ensures r.Some? ==> r.value == Assembled(tmp, path, v, n)
      ensures store.db == if r.Some? then PutDb(old(store.db), path, v, DirPayload(parse(r.value))).db
                          else old(store.db)
      ensures store.seen == if r.Some? then Logged(old(store.seen), store.garbageAt, StoreKey(path, v, Directory))
                            else old(store.seen)
    {
      var slice := PeerSlice(store.hash(path), store.nrSlices);
      if store.slice != slice { return None; }
      r := AssembleBlocks(path, v, n, source);
      if r.Some? {
        var _ := store.Put(path, v, DirPayload(parse(r.value)));
      }
    }

    method DeleteFromTmp(path: string, v: Version, n: nat)
      modifies this
      ensures tmp == Erased(old(tmp), path, v, n)
    {
      var composite := ComposeKey(path, v);
      tmp := tmp - {composite + "#size"};
      for i := 1 to n + 1
        invariant tmp == Erased(old(tmp), path, v, i - 1)
      {
        assert composite + ":" + Dec(i) == BlockKey(path, v, i);
        tmp := tmp - {composite + ":" + Dec(i)};
      }
    }

    /** Handling of one block reply: store the block, and once the size is known and all blocks are
        there, put the metadata into the main store and forget the blocks. The seen logs hold no
        deletions here, so the check against them never stops a block. */
    method ProcessBlockReply(path: string, v: Version, i: nat, data: Bytes, ghost source: Source)
      returns (r: Option<Bytes>)
      requires store.garbageAt > 0 && store.Routes(path) && FromSource(tmp, source)
      requires data in source(path, v) && 1 <= i <= NrBlocks(|data|)
      modifies this, store`db, store`seen
      ensures FromSource(tmp, source)
      ensures !store.Mine(path) ==> r.None? && tmp == old(tmp)
      ensures store.db == if r.Some? then PutDb(old(store.db), path, v, DirPayload(parse(r.value))).db
                          else old(store.db)
      ensures forall d :: Agreed(source, path, v, d) ==>
                (r.Some? ==> r.value == d) && (r.Some? <==> store.Mine(path) && LacksOnly(old(tmp), path, v, d, i))
    {
      var key, bytes := BlockPath(path, i), Block(data, i);
      BlockPathSplits(path, i);
      var base := SplitBlockPath(key).value.0;
      BlockStays(tmp, source, path, v, i, bytes);
      var completed := PutTmpAntiEntropy(base, v, key, bytes);
      if !completed { return None; }
      assert tmp == old(tmp)[BlockKey(path, v, i) := BlockValue(bytes)];
      OneBlockMore(old(tmp), path, v, i, bytes);
      var composite := ComposeKey(base, v);
      if composite + "#size" !in tmp { return None; }
      assert composite + "#size" == SizeKey(path, v);
      assert IsSizeOf(source(path, v), tmp[SizeKey(path, v)].text);
      var size := NumberOf(tmp[composite + "#size"].text);
      assert forall d :: Agreed(source, path, v, d) ==> size == |d| by { SizesRoundTrip(); }
      var n := NrBlocks(size);
      forall d | Agreed(source, path, v, d) && Complete(tmp, path, v, n) ensures Assembled(tmp, path, v, n) == d {
        AgreedSendersReassemble(tmp, source, path, v, d);
      }
      r := CheckIfHaveAllBlocks(base, v, n, source);
      if r.Some? {
        ErasedStays(tmp, source, path, v, n);
        DeleteFromTmp(base, v, n);
      }
    }

    /** Any sequence of arrivals, in any order, repeated, and mixed over paths, versions and senders,
        changes the main store only by putting assembled metadata, and for every path and version on
        which the senders agree that is their data. */
    method Collect(arrivals: seq<Arrival>, ghost source: Source) returns (delivered: seq<Delivered>)
      requires store.garbageAt > 0 && FromSource(tmp, source)
      requires forall a :: a in arrivals ==> Sendable(a, source) && store.Routes(a.path)
      modifies this, store`db, store`seen
      ensures FromSource(tmp, source)
      ensures store.db == Incorporated(old(store.db), delivered, parse)
      ensures forall d, data :: d in delivered && Agreed(source, d.path, d.version, data) ==> d.data == data
    {
      delivered := [];
      for k := 0 to |arrivals|
        invariant FromSource(tmp, source)
        invariant store.db == Incorporated(old(store.db), delivered, parse)
        invariant forall d, data :: d in delivered && Agreed(source, d.path, d.version, data) ==> d.data == data
      {
        var a := arrivals[k];
        assert a in arrivals;
        match a {
          case SizeArrives(path, v, data) =>
            assert IsSizeOf(source(path, v), Dec(|data|));
            SizeStays(tmp, source, path, v, Dec(|data|));
            var _ := PutTmpKeyEntrySize(path, v, |data|);
          case BlockArrives(path, v, data, i) =>
            var r := ProcessBlockReply(path, v, i, data, source);
            if r.Some? {
              ghost var before := delivered;
              delivered := delivered + [Delivered(path, v, r.value)];
              assert delivered[..|before|] == before;
            }
        }
      }
    }
  }

  lemma CompleteStep(tmp: TmpDb, path: string, v: Version, i: nat, n: nat)
    requires 1 <= i <= n
    ensures Complete(tmp, path, v, i) <==> Complete(tmp, path, v, i - 1) && HasBlock(tmp, path, v, i)
    ensures Complete(tmp, path, v, n) ==> HasBlock(tmp, path, v, i)
  {
  }

  /** With block `i` of `d` everything would be there. */
  ghost predicate LacksOnly(tmp: TmpDb, path: string, v: Version, d: Bytes, i: nat) {
    && SizeKey(path, v) in tmp
    && forall j: nat :: 1 <= j <= NrBlocks(|d|) && j != i ==> HasBlock(tmp, path, v, j)
  }

  lemma OneBlockMore(tmp: TmpDb, path: string, v: Version, i: nat, bytes: Bytes)
    ensures var tmp' := tmp[BlockKey(path, v, i) := BlockValue(bytes)];
            && (SizeKey(path, v) in tmp' <==> SizeKey(path, v) in tmp)
            && (forall j: nat :: HasBlock(tmp', path, v, j) <==> j == i || HasBlock(tmp, path, v, j))
  {
    KeysNeverCollide(path, v, i, path, v, i);
    forall j: nat ensures BlockKey(path, v, j) == BlockKey(path, v, i) ==> j == i {
      KeysNeverCollide(path, v, i, path, v, j);
    }
  }

  lemma SizesRoundTrip()
    ensures forall n: nat :: NumberOf(Dec(n)) == n
  {
    forall n: nat ensures NumberOf(Dec(n)) == n { DecRoundTrip(n); }
  }
}
