/**
 The composite keys of the time-travel index: a user key followed by the eight big-endian bytes of
 `MaxUint64 - block`, so that newer versions of one key sort first.
 */
module TimeTravelKeys {
  import opened ByteOrder
  import opened Entries
  import opened Wrappers

  datatype Version = Version(key: Key, block: U64)

  function Composite(key: Key, block: U64): (c: Bytes)
    ensures |c| == |key| + 8 && key <= c
  {
    key + EncodeU64(MAX_U64 - block)
  }

  /** The version a composite key stands for. */
  function Split(c: Bytes): Version
    requires |c| >= 8
  {
    Version(c[..|c| - 8], MAX_U64 - DecodeU64(c[|c| - 8..]))
  }

  /** `c` is one of `key`'s own versions: nothing but eight bytes follow the key. */
  predicate Own(key: Key, c: Bytes) {
    |c| == |key| + 8 && key <= c
  }

  lemma {:induction false} SplitComposite(key: Key, block: U64)
    ensures Split(Composite(key, block)) == Version(key, block)
  {
    var c := Composite(key, block);
    assert c[..|c| - 8] == key && c[|c| - 8..] == EncodeU64(MAX_U64 - block);
    U64RoundTrip(MAX_U64 - block);
  }

  lemma {:induction false} CompositeSplit(c: Bytes)
    requires |c| >= 8
    ensures Composite(Split(c).key, Split(c).block) == c
  {
    U64Onto(c[|c| - 8..]);
    assert c == c[..|c| - 8] + c[|c| - 8..];
  }

  lemma OwnSplits(key: Key, c: Bytes)
    requires Own(key, c)
    ensures Split(c).key == key && Composite(key, Split(c).block) == c
  {
    assert c[..|c| - 8] == key;
    CompositeSplit(c);
  }

  /** Neither key is a prefix of the other (or they are the same key). */
  predicate Apart(p: Key, q: Key) {
    p == q || (!(p <= q) && !(q <= p))
  }

  ghost predicate PrefixFree(universe: iset<Key>) {
    forall p, q | p in universe && q in universe :: Apart(p, q)
  }

  /** Keys of one length never extend one another. */
  lemma FixedLengthIsPrefixFree(n: nat)
    ensures PrefixFree(iset k: Key | |k| == n)
  {
    var universe := iset k: Key | |k| == n;
    forall p, q | p in universe && q in universe
      ensures Apart(p, q)
    {
      assert p <= q ==> p == q[..n] == q;
      assert q <= p ==> q == p[..n] == p;
    }
  }

  /** Byte order on the versions of one key is descending block order. */
  lemma OwnOrder(key: Key, b: U64, c: U64)
    ensures Less(Composite(key, b), Composite(key, c)) <==> b > c
  {
    LessAfterPrefix(key, EncodeU64(MAX_U64 - b), EncodeU64(MAX_U64 - c));
    U64Order(MAX_U64 - b, MAX_U64 - c);
  }

  /** Byte order on composite keys is user key ascending, then block descending. */
  lemma {:induction false} OrderEmbedding(p: Key, b: U64, q: Key, c: U64)
    requires Apart(p, q)
    ensures Less(Composite(p, b), Composite(q, c)) <==> Less(p, q) || (p == q && b > c)
    ensures Composite(p, b) == Composite(q, c) <==> p == q && b == c
  {
    SplitComposite(p, b);
    SplitComposite(q, c);
    if p == q {
      OwnOrder(p, b, c);
      LessIrreflexive(p);
    } else {
      LessDiverging(p, q, EncodeU64(MAX_U64 - b), EncodeU64(MAX_U64 - c));
    }
  }

  /** Byte order on all versions of two keys is user key ascending, then block descending. */
  ghost predicate OrderHolds(p: Key, q: Key) {
    forall b: U64, c: U64 :: OrderHoldsAt(p, b, q, c)
  }

  predicate OrderHoldsAt(p: Key, b: U64, q: Key, c: U64) {
    Less(Composite(p, b), Composite(q, c)) <==> Less(p, q) || (p == q && b > c)
  }

  /** What the longer of two keys has beyond the length of the shorter. */
  function Added(p: Key, q: Key): Bytes {
    if |p| <= |q| then q[|p|..] else p[|q|..]
  }

  /**
   The order, exactly: it holds between all versions of two keys if and only if neither extends the other or
   the extension begins with eight `FF` bytes. Otherwise block 0 of the shorter key and the greatest block of
   the longer one break it.
   */
  lemma {:induction false} OrderExact(p: Key, q: Key)
    ensures OrderHolds(p, q) <==> Apart(p, q) || EncodeU64(MAX_U64) <= Added(p, q)
    ensures !OrderHolds(p, q) ==>
              if |p| < |q| then !OrderHoldsAt(p, 0, q, MAX_U64) else !OrderHoldsAt(p, MAX_U64, q, 0)
  {
    if Apart(p, q) {
      forall b: U64, c: U64
        ensures OrderHoldsAt(p, b, q, c)
      {
        OrderEmbedding(p, b, q, c);
      }
    } else if EncodeU64(MAX_U64) <= Added(p, q) {
      forall b: U64, c: U64
        ensures OrderHoldsAt(p, b, q, c)
      {
        MaximalKeepsOrder(p, b, q, c);
      }
    } else {
      NothingElseTops(Added(p, q));
      ExtensionAt(p, 0, q, MAX_U64);
      ExtensionAt(p, MAX_U64, q, 0);
    }
  }

  lemma MaximalKeepsOrder(p: Key, b: U64, q: Key, c: U64)
    requires !Apart(p, q) && EncodeU64(MAX_U64) <= Added(p, q)
    ensures OrderHoldsAt(p, b, q, c)
  {
    ExtensionAt(p, b, q, c);
    MaximalTops(Added(p, q), MAX_U64 - b, MAX_U64 - c);
    MaximalTops(Added(p, q), MAX_U64 - c, MAX_U64 - b);
  }

  /** Between a key and its extension the order comes down to the eight bytes after the shorter one. */
  lemma {:induction false} ExtensionAt(p: Key, b: U64, q: Key, c: U64)
    requires !Apart(p, q)
    ensures |Added(p, q)| > 0
    ensures OrderHoldsAt(p, b, q, c)
       <==> if |p| <= |q| then Less(EncodeU64(MAX_U64 - b), Added(p, q) + EncodeU64(MAX_U64 - c))
            else Less(EncodeU64(MAX_U64 - c), Added(p, q) + EncodeU64(MAX_U64 - b))
  {
    var e, x, y := Added(p, q), EncodeU64(MAX_U64 - b), EncodeU64(MAX_U64 - c);
    if |p| <= |q| {
      assert q == p + e && p == p + [] && q + y == p + (e + y);
      LessAfterPrefix(p, x, e + y);
      LessAfterPrefix(p, [], e);
    } else {
      assert p == q + e && q == q + [] && p + x == q + (e + x);
      LessAfterPrefix(q, e + x, y);
      LessAfterPrefix(q, e, []);
      assert |y| < |e + x|;
      LessTotal(e + x, y);
      if Less(y, e + x) {
        LessAsymmetric(y, e + x);
      }
    }
  }

  /** An extension of eight `FF` bytes sorts after every block stamp. */
  lemma {:induction false} MaximalTops(e: Bytes, v: U64, w: U64)
    requires EncodeU64(MAX_U64) <= e
    ensures Less(EncodeU64(v), e + EncodeU64(w))
  {
    var top, stamp := EncodeU64(MAX_U64), EncodeU64(v);
    var rest := e[8..] + EncodeU64(w);
    assert e + EncodeU64(w) == top + rest && stamp == stamp + [];
    if stamp == top {
      LessAfterPrefix(top, [], rest);
    } else {
      U64RoundTrip(v);
      U64Order(v, MAX_U64);
      LessDiverging(stamp, top, [], rest);
    }
  }

  /** Nothing else does. */
  lemma {:induction false} NothingElseTops(e: Bytes)
    requires !(EncodeU64(MAX_U64) <= e)
    ensures !Less(EncodeU64(MAX_U64), e + EncodeU64(0))
  {
    var top, all := EncodeU64(MAX_U64), e + EncodeU64(0);
    var start, rest := all[..8], all[8..];
    NotAllOnes(e);
    assert all == start + rest && top == top + [];
    assert Less(start, top) by {
      U64Onto(start);
      U64Order(DecodeU64(start), MAX_U64);
    }
    LessAsymmetric(start, top);
    SameLengthDiverges(top, start);
    LessDiverging(top, start, [], rest);
  }

  lemma SameLengthDiverges(a: Bytes, b: Bytes)
    requires |a| == |b| && a != b
    ensures !(a <= b) && !(b <= a)
  {
  }

  lemma {:induction false} NotAllOnes(e: Bytes)
    requires !(EncodeU64(MAX_U64) <= e)
    ensures (e + EncodeU64(0))[..8] != EncodeU64(MAX_U64)
  {
    var start := (e + EncodeU64(0))[..8];
    if |e| < 8 {
      EncodeExtremes();
      assert start[|e|] == 0;
    } else {
      assert start == e[..8];
    }
  }

  /** The order fails between a key and a one-byte extension of it: newer versions of the longer key
      land among the versions of the shorter. */
  lemma ExtensionBreaksOrder()
    ensures Less([1], [1, 128])
    ensures Less(Composite([1, 128], 0), Composite([1], 0))
  {
    var rest := EncodeU64(MAX_U64);
    EncodeExtremes();
    LessAfterPrefix([1], [], [128]);
    assert [1] + [] == [1] && [1] + [128] == [1, 128];
    assert Composite([1, 128], 0) == [1] + ([128] + rest);
    LessAfterPrefix([1], [128] + rest, rest);
  }

  // ---- The versions a database holds ----

  /** The database read as versions; every version is stored under its composite key. */
  ghost function Versions(kv: map<Bytes, Bytes>): (vs: map<Version, Value>)
    ensures HoldsVersions(kv, vs)
  {
    HasVersions(kv);
    var vs :| HoldsVersions(kv, vs);
    vs
  }

  ghost predicate HoldsVersions(kv: map<Bytes, Bytes>, vs: map<Version, Value>) {
    && (forall v: Version :: v in vs <==> Composite(v.key, v.block) in kv)
    && forall v: Version :: v in vs ==> vs[v] == kv[Composite(v.key, v.block)]
  }

  lemma {:induction false} HasVersions(kv: map<Bytes, Bytes>)
    ensures exists vs :: HoldsVersions(kv, vs)
    decreases kv
  {
    var vs: map<Version, Value> := map[];
    if kv != map[] {
      var c :| c in kv;
      HasVersions(kv - {c});
      vs :| HoldsVersions(kv - {c}, vs);
      if |c| >= 8 {
        CompositeSplit(c);
        vs := vs[Split(c) := kv[c]];
        forall v: Version | Composite(v.key, v.block) == c
          ensures v == Split(c)
        {
          SplitComposite(v.key, v.block);
        }
      }
    }
    assert HoldsVersions(kv, vs);
  }

  ghost predicate HasVersion(vs: map<Version, Value>, key: Key) {
    exists b: U64 :: Version(key, b) in vs
  }

  /** The greatest block at or below `b` at which `key` has a version: the relational query
      `where key = $1 and block_number <= $2 order by block_number desc limit 1`. */
  ghost function LatestAt(vs: map<Version, Value>, key: Key, b: U64): (r: Option<U64>)
    ensures r.None? <==> forall c: U64 | c <= b :: Version(key, c) !in vs
    ensures r.Some? ==> r.value <= b && Version(key, r.value) in vs
    ensures r.Some? ==> forall c: U64 | r.value < c <= b :: Version(key, c) !in vs
  {
    if Version(key, b) in vs then Some(b)
    else if b == 0 then None
    else LatestAt(vs, key, b - 1)
  }

  /** At or above every version, all requests find the same one. */
  lemma LatestBeyond(vs: map<Version, Value>, key: Key, limit: U64, b: U64, c: U64)
    requires forall d: U64 | Version(key, d) in vs :: d <= limit
    requires limit <= b && limit <= c
    ensures LatestAt(vs, key, b) == LatestAt(vs, key, c)
  {
  }

  /** A key with a single version. */
  lemma LatestOfOne(vs: map<Version, Value>, key: Key, b: U64, at: Option<U64>)
    requires forall c: U64 :: Version(key, c) in vs <==> at == Some(c)
    ensures LatestAt(vs, key, b) == if at.Some? && at.value <= b then at else None
  {
    if at.Some? {
      assert Version(key, at.value) in vs;
    }
  }

  /** Versions above the block asked about do not matter. */
  lemma LatestSame(vs: map<Version, Value>, vs': map<Version, Value>, key: Key, b: U64)
    requires forall c: U64 | c <= b :: Version(key, c) in vs <==> Version(key, c) in vs'
    ensures LatestAt(vs, key, b) == LatestAt(vs', key, b)
  {
    var r, r' := LatestAt(vs, key, b), LatestAt(vs', key, b);
    assert r.Some? ==> Version(key, r.value) in vs';
    assert r'.Some? ==> Version(key, r'.value) in vs;
  }

  /** A version added at or above all others is the latest; adding none changes nothing. */
  lemma LatestAfterAdding(vs: map<Version, Value>, vs': map<Version, Value>, key: Key, b: U64, added: bool)
    requires forall d: U64 | Version(key, d) in vs :: d <= b
    requires forall d: U64 :: Version(key, d) in vs' <==> Version(key, d) in vs || (added && d == b)
    ensures LatestAt(vs', key, MAX_U64) == if added then Some(b) else LatestAt(vs, key, MAX_U64)
  {
    var before, after := LatestAt(vs, key, MAX_U64), LatestAt(vs', key, MAX_U64);
    assert added ==> Version(key, b) in vs';
    assert before.Some? ==> Version(key, before.value) in vs';
    assert after.Some? ==> Version(key, after.value) in vs';
  }

  /** The least block at or above `b` at which `key` has a version. */
  ghost function EarliestFrom(vs: map<Version, Value>, key: Key, b: U64): (r: Option<U64>)
    ensures r.None? <==> forall c: U64 | b <= c :: Version(key, c) !in vs
    ensures r.Some? ==> b <= r.value && Version(key, r.value) in vs
    ensures r.Some? ==> forall c: U64 | b <= c < r.value :: Version(key, c) !in vs
    decreases MAX_U64 - b
  {
    if Version(key, b) in vs then Some(b)
    else if b == MAX_U64 then None
    else EarliestFrom(vs, key, b + 1)
  }

  lemma EarliestAtMost(vs: map<Version, Value>, key: Key, at: U64)
    requires Version(key, at) in vs
    ensures EarliestFrom(vs, key, 0).Some? && EarliestFrom(vs, key, 0).value <= at
  {
  }

  // ---- Building composite keys in place ----

  method MakeTimeTraversalKey(originalKey: Key, blockNumber: U64) returns (compositeKey: array<Byte>)
    ensures fresh(compositeKey)
    ensures compositeKey[..] == Composite(originalKey, blockNumber)
  {
    compositeKey := new Byte[|originalKey| + 8];
    var n := |originalKey|;
    for i := 0 to n
      invariant compositeKey[..i] == originalKey[..i]
    {
      compositeKey[i] := originalKey[i];
    }
    var reversedBlockNumber := MAX_U64 - blockNumber;
    PutUint64(compositeKey, n, reversedBlockNumber);
    assert compositeKey[..] == originalKey[..n] + EncodeU64(reversedBlockNumber);
  }
}
