/** Printed keys: decimal numbers, version vectors, and the composite keys of the temporary
anti-entropy database. Paths are arbitrary strings and may contain every separator.
*/
module CompositeKeys {
  import opened Common
  import opened Versions

  // ----- decimal numbers

  const DIGITS: string := "0123456789"

  function Dec(n: nat): string {
    if n < 10 then [DIGITS[n]] else Dec(n / 10) + [DIGITS[n % 10]]
  }

  function Signed(n: int): string {
    if n < 0 then "-" + Dec(-n) else Dec(n)
  }

  function DigitValue(c: char): nat {
    if '0' <= c <= '9' then c as int - '0' as int else 0
  }

  /** The number a digit string stands for, as `stol` and `stoi` read it. */
  function NumberOf(s: string): nat {
    if s == "" then 0 else 10 * NumberOf(s[..|s| - 1]) + DigitValue(s[|s| - 1])
  }

  predicate AllDigits(s: string) {
    forall c :: c in s ==> '0' <= c <= '9'
  }

  lemma DigitOf(n: nat)
    requires n < 10
    ensures DigitValue(DIGITS[n]) == n && '0' <= DIGITS[n] <= '9'
  {
  }

  lemma {:induction false} DecRoundTrip(n: nat)
    ensures NumberOf(Dec(n)) == n && AllDigits(Dec(n)) && Dec(n) != ""
  {
    DigitOf(n % 10);
    if n < 10 {
      assert Dec(n)[..0] == "" && NumberOf("") == 0;
    } else {
      DecRoundTrip(n / 10);
      assert Dec(n)[..|Dec(n)| - 1] == Dec(n / 10);
    }
  }

  lemma SignedIsInjective(a: int, b: int)
    requires Signed(a) == Signed(b)
    ensures a == b
  {
    DecRoundTrip(if a < 0 then -a else a);
    DecRoundTrip(if b < 0 then -b else b);
    assert a >= 0 ==> Signed(a)[0] in Signed(a);
    assert b >= 0 ==> Signed(b)[0] in Signed(b);
    assert a < 0 ==> Signed(a)[1..] == Dec(-a);
    assert b < 0 ==> Signed(b)[1..] == Dec(-b);
  }

  /** None of the separators is printed in a number. */
  lemma SignedHasNoSeparator(n: int, c: char)
    requires c in "@,#:"
    ensures c !in Signed(n)
  {
    DecRoundTrip(if n < 0 then -n else n);
    assert c == '@' || c == ',' || c == '#' || c == ':';
    assert forall d :: d in Signed(n) ==> d == '-' || '0' <= d <= '9';
  }

  // ----- splitting at a separator

  lemma SplitAtFirst(x: string, a: string, y: string, b: string, c: char)
    requires x + [c] + a == y + [c] + b && c !in x && c !in y
    ensures x == y && a == b
  {
    var s := x + [c] + a;
    assert s[|x|] == c && s[|y|] == c;
    assert x == s[..|x|] && y == s[..|y|] && a == s[|x| + 1..] && b == s[|y| + 1..];
  }

  lemma SplitAtLast(a: string, x: string, b: string, y: string, c: char)
    requires a + [c] + x == b + [c] + y && c !in x && c !in y
    ensures a == b && x == y
  {
    var s := a + [c] + x;
    assert s[|a|] == c && s[|b|] == c;
    assert a == s[..|a|] && b == s[..|b|] && x == s[|a| + 1..] && y == s[|b| + 1..];
  }

  /** Position of the last separator, or -1. */
  function LastIndex(s: string, c: char): (i: int)
    ensures -1 <= i < |s|
    ensures i >= 0 ==> s[i] == c
    ensures forall j :: i < j < |s| ==> s[j] != c
  {
    if s == "" then -1
    else if s[|s| - 1] == c then |s| - 1
    else LastIndex(s[..|s| - 1], c)
  }

  /** `get_base_path` and `get_blk_num`: the text before and after the last ':', if there is text
      after it. */
  function SplitBlockPath(key: string): Option<(string, string)> {
    var i := LastIndex(key, ':');
    if 0 <= i < |key| - 1 then Some((key[..i], key[i + 1..])) else None
  }

  function BlockPath(path: string, i: nat): string {
    path + ":" + Dec(i)
  }

  /** A block path splits back into its path and block number, whatever the path contains. */
  lemma BlockPathSplits(path: string, i: nat)
    ensures SplitBlockPath(BlockPath(path, i)) == Some((path, Dec(i)))
  {
    var key := BlockPath(path, i);
    DecRoundTrip(i);
    assert key[|path|] == ':';
    forall j | |path| < j < |key| ensures key[j] != ':' { assert key[j] in Dec(i); }
    assert LastIndex(key, ':') == |path|;
    assert key[..|path|] == path && key[|path| + 1..] == Dec(i);
  }

  lemma BlockPathIsInjective(p: string, i: nat, q: string, j: nat)
    requires BlockPath(p, i) == BlockPath(q, j)
    ensures p == q && i == j
  {
    BlockPathSplits(p, i);
    BlockPathSplits(q, j);
    DecRoundTrip(i);
    DecRoundTrip(j);
  }

  // ----- version vectors

  datatype Entry = Entry(client: ClientId, clock: int)

  predicate IsSmallest(c: ClientId, s: set<ClientId>) {
    c in s && forall d :: d in s ==> c.n <= d.n
  }

  lemma SmallestExists(s: set<ClientId>)
    requires s != {}
    ensures exists c :: IsSmallest(c, s)
  {
    var c :| c in s;
    if s == {c} {
      assert IsSmallest(c, s);
    } else {
      SmallestExists(s - {c});
      var d :| IsSmallest(d, s - {c});
      assert IsSmallest(if d.n < c.n then d else c, s);
    }
  }

  ghost function Smallest(s: set<ClientId>): (c: ClientId)
    requires s != {}
    ensures IsSmallest(c, s)
  {
    SmallestExists(s);
    var c :| IsSmallest(c, s);
    c
  }

  /** The entries of a vector in ascending order of client id, as the ordered map yields them. */
  ghost function Listing(vv: VersionVector): seq<Entry>
    decreases |vv|
  {
    if vv == map[] then []
    else
      var c := Smallest(vv.Keys);
      assert |vv.Keys - {c}| < |vv.Keys| && (vv - {c}).Keys == vv.Keys - {c};
      [Entry(c, vv[c])] + Listing(vv - {c})
  }

  ghost function FromListing(es: seq<Entry>): VersionVector {
    if es == [] then map[] else FromListing(es[1..])[es[0].client := es[0].clock]
  }

  lemma {:induction false} ListingRoundTrip(vv: VersionVector)
    ensures FromListing(Listing(vv)) == vv
    decreases |vv|
  {
    if vv == map[] {
    } else {
      var c := Smallest(vv.Keys);
      assert |vv.Keys - {c}| < |vv.Keys| && (vv - {c}).Keys == vv.Keys - {c};
      ListingRoundTrip(vv - {c});
      assert Listing(vv)[1..] == Listing(vv - {c});
      assert (vv - {c})[c := vv[c]] == vv;
    }
  }

  function EntryText(e: Entry): string {
    Signed(e.client.n) + "@" + Signed(e.clock)
  }

  /** Every entry followed by a comma. */
  function CommaText(es: seq<Entry>): string {
    if es == [] then "" else EntryText(es[0]) + "," + CommaText(es[1..])
  }

  lemma ListingStep(vv: VersionVector, c: ClientId)
    requires IsSmallest(c, vv.Keys)
    ensures |vv - {c}| < |vv|
    ensures Listing(vv) == [Entry(c, vv[c])] + Listing(vv - {c})
    ensures CommaText(Listing(vv)) == (Signed(c.n) + "@" + Signed(vv[c]) + ",") + CommaText(Listing(vv - {c}))
  {
  }

  lemma AppendAssociates(a: string, b: string, c: string)
    ensures a + (b + c) == (a + b) + c
  {
  }

  /** `vv2str`: the entries separated by commas. */
  ghost function VectorText(vv: VersionVector): string {
    var text := CommaText(Listing(vv));
    if text == "" then "" else text[..|text| - 1]
  }

  method Vv2Str(vv: VersionVector) returns (s: string)
    ensures s == VectorText(vv)
  {
    s := "";
    var todo := vv;
    while todo != map[]
      invariant s + CommaText(Listing(todo)) == CommaText(Listing(vv))
      decreases |todo|
    {
      SmallestExists(todo.Keys);
      var c :| c in todo.Keys && IsSmallest(c, todo.Keys);
      ListingStep(todo, c);
      var text := Signed(c.n) + "@" + Signed(todo[c]) + ",";
      AppendAssociates(s, text, CommaText(Listing(todo - {c})));
      s := s + text;
      todo := todo - {c};
    }
    if |s| > 0 {
      s := s[..|s| - 1];
    }
  }

  lemma EntryTextIsInjective(a: Entry, b: Entry)
    requires EntryText(a) == EntryText(b)
    ensures a == b
  {
    SignedHasNoSeparator(a.client.n, '@');
    SignedHasNoSeparator(b.client.n, '@');
    SplitAtFirst(Signed(a.client.n), Signed(a.clock), Signed(b.client.n), Signed(b.clock), '@');
    SignedIsInjective(a.client.n, b.client.n);
    SignedIsInjective(a.clock, b.clock);
  }

  lemma EntryTextHasNo(e: Entry, c: char)
    requires c in ",#:"
    ensures c !in EntryText(e)
  {
    SignedHasNoSeparator(e.client.n, c);
    SignedHasNoSeparator(e.clock, c);
  }

  lemma SplitOffEntry(a: Entry, x: string, b: Entry, y: string)
    requires EntryText(a) + "," + x == EntryText(b) + "," + y
    ensures a == b && x == y
  {
    EntryTextHasNo(a, ',');
    EntryTextHasNo(b, ',');
    SplitAtFirst(EntryText(a), x, EntryText(b), y, ',');
    EntryTextIsInjective(a, b);
  }

  lemma {:induction false} CommaTextIsInjective(a: seq<Entry>, b: seq<Entry>)
    requires CommaText(a) == CommaText(b)
    ensures a == b
  {
    if a != [] && b != [] {
      SplitOffEntry(a[0], CommaText(a[1..]), b[0], CommaText(b[1..]));
      CommaTextIsInjective(a[1..], b[1..]);
      assert a == [a[0]] + a[1..] && b == [b[0]] + b[1..];
    }
  }

  lemma {:induction false} CommaTextShape(es: seq<Entry>)
    ensures es != [] ==> CommaText(es) != "" && CommaText(es)[|CommaText(es)| - 1] == ','
    ensures '#' !in CommaText(es) && ':' !in CommaText(es)
  {
    if es == [] {
    } else {
      EntryTextHasNo(es[0], '#');
      EntryTextHasNo(es[0], ':');
      CommaTextShape(es[1..]);
    }
  }

  lemma CommaTextFromVectorText(vv: VersionVector)
    ensures CommaText(Listing(vv)) == if VectorText(vv) == "" then "" else VectorText(vv) + ","
  {
  }

  lemma VectorTextIsInjective(a: VersionVector, b: VersionVector)
    requires VectorText(a) == VectorText(b)
    ensures a == b
  {
    CommaTextFromVectorText(a);
    CommaTextFromVectorText(b);
    CommaTextIsInjective(Listing(a), Listing(b));
    ListingRoundTrip(a);
    ListingRoundTrip(b);
  }

  // ----- composite keys

  /** `compose_key_toString`. */
  ghost function VersionedKey(path: string, v: Version): string {
    path + "#" + VectorText(v.vv) + "#" + Signed(v.clientId.n)
  }

  ghost function BlockKey(path: string, v: Version, i: nat): string {
    VersionedKey(path, v) + ":" + Dec(i)
  }

  ghost function SizeKey(path: string, v: Version): string {
    VersionedKey(path, v) + "#size"
  }

  lemma VersionedKeyIsInjective(p: string, v: Version, q: string, w: Version)
    requires VersionedKey(p, v) == VersionedKey(q, w)
    ensures p == q && v == w
  {
    SignedHasNoSeparator(v.clientId.n, '#');
    SignedHasNoSeparator(w.clientId.n, '#');
    SplitAtLast(p + "#" + VectorText(v.vv), Signed(v.clientId.n), q + "#" + VectorText(w.vv), Signed(w.clientId.n), '#');
    SignedIsInjective(v.clientId.n, w.clientId.n);
    CommaTextShape(Listing(v.vv));
    CommaTextShape(Listing(w.vv));
    SplitAtLast(p, VectorText(v.vv), q, VectorText(w.vv), '#');
    VectorTextIsInjective(v.vv, w.vv);
  }

  /** Distinct (path, version, block) triples and distinct (path, version) sizes never share a key,
      and a block key is never a size key. */
  lemma KeysNeverCollide(p: string, v: Version, i: nat, q: string, w: Version, j: nat)
    ensures BlockKey(p, v, i) == BlockKey(q, w, j) ==> p == q && v == w && i == j
    ensures SizeKey(p, v) == SizeKey(q, w) ==> p == q && v == w
    ensures BlockKey(p, v, i) != SizeKey(q, w)
  {
    DecRoundTrip(i);
    DecRoundTrip(j);
    var a, b := BlockKey(p, v, i), SizeKey(q, w);
    assert a[|a| - 1] in Dec(i) by { assert a[|a| - 1] == Dec(i)[|Dec(i)| - 1]; }
    assert b[|b| - 1] == 'e';
    if BlockKey(p, v, i) == BlockKey(q, w, j) {
      assert ':' !in Dec(i) && ':' !in Dec(j);
      SplitAtLast(VersionedKey(p, v), Dec(i), VersionedKey(q, w), Dec(j), ':');
      VersionedKeyIsInjective(p, v, q, w);
    }
    if SizeKey(p, v) == SizeKey(q, w) {
      assert SizeKey(p, v)[..|SizeKey(p, v)| - 5] == VersionedKey(p, v);
      assert SizeKey(q, w)[..|SizeKey(q, w)| - 5] == VersionedKey(q, w);
      VersionedKeyIsInjective(p, v, q, w);
    }
  }
}
