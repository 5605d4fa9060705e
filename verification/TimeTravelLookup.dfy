/**
 What the time-travel store's seeks find, and exactly when that is the version asked for.

 The pure functions here follow the bytes, whatever the stored keys are. The theorems say how far the
 bytes agree with the versions: always, as long as no stored user key extends or is extended by another.
 */
module TimeTravelLookup {
  import opened ByteOrder
  import opened Entries
  import opened OrderedDb
  import opened TimeTravelKeys
  import opened Wrappers

  type Kv = map<Bytes, Bytes>

  /** `append(makeTimeTraversalKey(key, 0), 0)`: just past the oldest possible version. */
  function End(key: Key): Bytes {
    Composite(key, 0) + [0]
  }

  /** The stored key that `Get` stops at. */
  ghost function Stop(kv: Kv, key: Key, b: U64): Option<Bytes> {
    var hit := SeekFrom(kv.Keys, Composite(key, b));
    if hit.Some? && Less(hit.value, End(key)) then hit else None
  }

  ghost function Read(kv: Kv, key: Key, b: U64): Lookup {
    match Stop(kv, key, b)
    case Some(c) => if c in kv then Hit(kv[c]) else Miss
    case None => Miss
  }

  /** The stored key `Get` ought to stop at. */
  ghost function Latest(kv: Kv, key: Key, b: U64): Option<Bytes> {
    match LatestAt(Versions(kv), key, b)
    case Some(c) => Some(Composite(key, c))
    case None => None
  }

  /** A stored key of some other user key that sorts inside `key`'s range, ahead of the version asked for. */
  ghost predicate Intruder(kv: Kv, key: Key, b: U64, c: Bytes) {
    && c in kv && !Own(key, c)
    && !Less(c, Composite(key, b)) && Less(c, End(key))
    && (Latest(kv, key, b).Some? ==> Less(c, Latest(kv, key, b).value))
  }

  lemma OwnBelowEnd(key: Key, b: U64)
    ensures Less(Composite(key, b), End(key))
  {
    var zero := Composite(key, 0);
    LessAfterPrefix(zero, [], [0]);
    assert zero + [] == zero;
    OwnOrder(key, 0, b);
    LessMixed(Composite(key, b), zero, End(key));
  }

  /** A version at or below `b` is in the range the seek covers. */
  lemma VersionInRange(kv: Kv, key: Key, b: U64, c: U64)
    requires c <= b && Composite(key, c) in kv
    ensures Stop(kv, key, b).Some? && !Less(Composite(key, c), Stop(kv, key, b).value)
  {
    OwnOrder(key, c, b);
    OwnBelowEnd(key, c);
    LessMixed(SeekFrom(kv.Keys, Composite(key, b)).value, Composite(key, c), End(key));
  }

  /** An own key at or below `b` with no later own key at or below `b` is the latest. */
  lemma {:induction false} LatestUnique(kv: Kv, key: Key, b: U64, c: Bytes)
    requires c in kv && Own(key, c) && !Less(c, Composite(key, b))
    requires forall d: U64 | d <= b && Composite(key, d) in kv :: !Less(Composite(key, d), c)
    ensures Latest(kv, key, b) == Some(c)
  {
    OwnSplits(key, c);
    var at := Split(c).block;
    OwnOrder(key, at, b);
    assert Version(key, at) in Versions(kv);
    var latest := LatestAt(Versions(kv), key, b).value;
    OwnOrder(key, latest, at);
  }

  lemma {:induction false} OwnStopIsLatest(kv: Kv, key: Key, b: U64)
    requires Stop(kv, key, b).Some? && Own(key, Stop(kv, key, b).value)
    ensures Stop(kv, key, b) == Latest(kv, key, b)
  {
    var stop := Stop(kv, key, b).value;
    forall d: U64 | d <= b && Composite(key, d) in kv
      ensures !Less(Composite(key, d), stop)
    {
      VersionInRange(kv, key, b, d);
    }
    LatestUnique(kv, key, b, stop);
  }

  /**
   `Get`'s single seek stops at the latest version at or below `b` (and at nothing when there is none)
   exactly when no intruder is stored.
   */
  lemma {:induction false} SeekExact(kv: Kv, key: Key, b: U64)
    ensures Stop(kv, key, b) == Latest(kv, key, b) <==> !exists c :: Intruder(kv, key, b, c)
  {
    var stop, latest := Stop(kv, key, b), Latest(kv, key, b);
    if stop.Some? && !Own(key, stop.value) {
      if latest.Some? {
        VersionInRange(kv, key, b, LatestAt(Versions(kv), key, b).value);
        LessTotal(stop.value, latest.value);
      }
      assert Intruder(kv, key, b, stop.value);
    } else {
      if stop.Some? {
        OwnStopIsLatest(kv, key, b);
      } else if latest.Some? {
        VersionInRange(kv, key, b, LatestAt(Versions(kv), key, b).value);
      }
      forall c | Intruder(kv, key, b, c)
        ensures false
      {
        var hit := SeekFrom(kv.Keys, Composite(key, b)).value;
        LessMixed(hit, c, End(key));
      }
    }
  }

  /** Whatever sorts inside `key`'s range extends `key`. */
  lemma InRangeExtends(key: Key, b: U64, c: Bytes)
    requires !Less(c, Composite(key, b)) && !Less(End(key), c)
    ensures key <= c
  {
    assert key + (EncodeU64(MAX_U64) + [0]) == End(key);
    BetweenExtensions(key, EncodeU64(MAX_U64 - b), EncodeU64(MAX_U64) + [0], c);
  }

  /** Every stored key belongs to `universe`. */
  ghost predicate KeysIn(kv: Kv, universe: iset<Key>) {
    forall c | c in kv :: |c| >= 8 && Split(c).key in universe
  }

  /** A stored key with `key` as a prefix is one of its own versions. */
  lemma ExtensionIsOwn(kv: Kv, universe: iset<Key>, key: Key, c: Bytes)
    requires PrefixFree(universe) && KeysIn(kv, universe) && key in universe
    requires c in kv && key <= c
    ensures Own(key, c)
  {
    var k := Split(c).key;
    assert Apart(k, key);
    assert k == c[..|c| - 8];
    if |key| <= |k| {
      PrefixesNest(key, k, c);
    } else {
      PrefixesNest(k, key, c);
    }
  }

  /** Time-travel lookup: over a prefix-free set of keys, the value of the greatest block at or below `b`. */
  lemma {:induction false} ReadIsLatest(kv: Kv, universe: iset<Key>, key: Key, b: U64)
    requires PrefixFree(universe) && KeysIn(kv, universe) && key in universe
    ensures Stop(kv, key, b) == Latest(kv, key, b)
    ensures Read(kv, key, b) == match LatestAt(Versions(kv), key, b)
                                case Some(c) => Hit(Versions(kv)[Version(key, c)])
                                case None => Miss
  {
    forall c | Intruder(kv, key, b, c)
      ensures false
    {
      LessAsymmetric(c, End(key));
      InRangeExtends(key, b, c);
      ExtensionIsOwn(kv, universe, key, c);
    }
    SeekExact(kv, key, b);
  }

  /** Without that, `Get` can answer with another key's value: `[1]` was never written, `[1, 128]` was. */
  lemma ReadCrossesKeys(value: Value)
    ensures var kv := map[Composite([1, 128], 7) := value];
            && Read(kv, [1], MAX_U64) == Hit(value)
            && LatestAt(Versions(kv), [1], MAX_U64) == None
  {
    var c := Composite([1, 128], 7);
    var kv := map[c := value];
    ExtensionIsInRange();
    LessAsymmetric(Composite([1], MAX_U64), c);
    SeekUnique(kv.Keys, Composite([1], MAX_U64), SeekFrom(kv.Keys, Composite([1], MAX_U64)), Some(c)) by {
      LessIrreflexive(c);
    }
    forall b: U64
      ensures Version([1], b) !in Versions(kv)
    {
      assert |Composite([1], b)| == 9;
    }
  }

  lemma ExtensionIsInRange()
    ensures Less(Composite([1], MAX_U64), Composite([1, 128], 7))
    ensures Less(Composite([1, 128], 7), End([1]))
  {
    EncodeExtremes();
    var rest := [128] + EncodeU64(MAX_U64 - 7);
    var ones := EncodeU64(MAX_U64) + [0];
    assert Composite([1, 128], 7) == [1] + rest;
    assert End([1]) == [1] + ones;
    assert Less(EncodeU64(0), rest) && Less(rest, ones);
    LessAfterPrefix([1], EncodeU64(0), rest);
    LessAfterPrefix([1], rest, ones);
  }

  // ---- Oldest version ----

  /** Just before and just after every possible version of `key`, as `GetFirst` builds them. */
  function FirstBegin(key: Key): Bytes {
    key + [0, 0, 0, 0, 0, 0, 0, 0]
  }

  function FirstEnd(key: Key): Bytes {
    key + [255, 255, 255, 255, 255, 255, 255, 255, 0]
  }

  lemma FirstBounds(key: Key)
    ensures FirstBegin(key) == Composite(key, MAX_U64) && FirstEnd(key) == End(key)
  {
    EncodeExtremes();
  }

  /** The stored key that `GetFirst` answers with. */
  ghost function FirstStop(kv: Kv, key: Key): Option<Bytes> {
    var hit := SeekBack(kv.Keys, FirstEnd(key));
    if hit.Some? && !Less(hit.value, FirstBegin(key)) && Less(hit.value, FirstEnd(key)) then hit else None
  }

  ghost function ReadFirst(kv: Kv, key: Key): Lookup {
    match FirstStop(kv, key)
    case Some(c) => if c in kv then Hit(kv[c]) else Miss
    case None => Miss
  }

  ghost function Oldest(kv: Kv, key: Key): Option<Bytes> {
    match EarliestFrom(Versions(kv), key, 0)
    case Some(c) => Some(Composite(key, c))
    case None => None
  }

  /** A stored key of another user key that hides the oldest version, or stands in for a missing one. */
  ghost predicate FirstIntruder(kv: Kv, key: Key, c: Bytes) {
    && c in kv && !Own(key, c) && !Less(End(key), c)
    && match Oldest(kv, key)
       case Some(own) => Less(own, c)
       case None => !Less(c, FirstBegin(key)) && End(key) !in kv
  }

  lemma OldestInRange(kv: Kv, key: Key, c: U64)
    requires Composite(key, c) in kv
    ensures var hit := SeekBack(kv.Keys, FirstEnd(key));
            && hit.Some? && !Less(hit.value, Composite(key, c)) && !Less(hit.value, FirstBegin(key))
  {
    FirstBounds(key);
    OwnBelowEnd(key, c);
    OwnOrder(key, c, MAX_U64);
    var hit := SeekBack(kv.Keys, FirstEnd(key));
    if Less(End(key), Composite(key, c)) {
      LessTransitive(End(key), Composite(key, c), End(key));
      LessIrreflexive(End(key));
    }
    if Less(hit.value, FirstBegin(key)) {
      LessMixed(hit.value, FirstBegin(key), Composite(key, c));
    }
  }

  /** An own key not below the oldest version's is the oldest version's. */
  lemma {:induction false} OldestUnique(kv: Kv, key: Key, at: U64, oldest: U64)
    requires Composite(key, at) in kv && EarliestFrom(Versions(kv), key, 0) == Some(oldest)
    requires !Less(Composite(key, at), Composite(key, oldest))
    ensures at == oldest
  {
    assert Version(key, at) in Versions(kv);
    EarliestAtMost(Versions(kv), key, at);
    OwnOrder(key, at, oldest);
  }

  lemma {:induction false} OwnFirstStopIsOldest(kv: Kv, key: Key)
    requires FirstStop(kv, key).Some? && Own(key, FirstStop(kv, key).value)
    ensures FirstStop(kv, key) == Oldest(kv, key)
  {
    var stop := FirstStop(kv, key).value;
    OwnSplits(key, stop);
    var at := Split(stop).block;
    assert Version(key, at) in Versions(kv);
    EarliestAtMost(Versions(kv), key, at);
    var oldest := EarliestFrom(Versions(kv), key, 0).value;
    OldestInRange(kv, key, oldest);
    OldestUnique(kv, key, at, oldest);
  }

  /** With a version stored, only a key above the oldest one can hide it. */
  lemma ReverseSeekExactOwn(kv: Kv, key: Key)
    requires Oldest(kv, key).Some?
    ensures FirstStop(kv, key) == Oldest(kv, key) <==> !exists c :: FirstIntruder(kv, key, c)
  {
    FirstBounds(key);
    var hit := SeekBack(kv.Keys, FirstEnd(key));
    var own := Oldest(kv, key).value;
    var at := EarliestFrom(Versions(kv), key, 0).value;
    OldestInRange(kv, key, at);
    OwnBelowEnd(key, at);
    if hit.value == own {
      assert FirstStop(kv, key) == Some(own);
    } else {
      LessTotal(hit.value, own);
      NothingOwnAbove(kv, key, hit.value);
      assert FirstIntruder(kv, key, hit.value);
    }
  }

  lemma NothingOwnAbove(kv: Kv, key: Key, c: Bytes)
    requires Oldest(kv, key).Some? && c in kv && Less(Oldest(kv, key).value, c)
    ensures !Own(key, c)
  {
    if Own(key, c) {
      OwnSplits(key, c);
      assert Version(key, Split(c).block) in Versions(kv);
      OwnOrder(key, EarliestFrom(Versions(kv), key, 0).value, Split(c).block);
    }
  }

  /** Without one, a foreign key in range is taken for it, unless the excluded bound itself is stored. */
  lemma ReverseSeekExactNone(kv: Kv, key: Key)
    requires Oldest(kv, key).None?
    ensures FirstStop(kv, key).None? <==> !exists c :: FirstIntruder(kv, key, c)
  {
    FirstBounds(key);
    var hit := SeekBack(kv.Keys, FirstEnd(key));
    var stop := FirstStop(kv, key);
    if stop.Some? {
      if Own(key, stop.value) {
        OwnFirstStopIsOldest(kv, key);
      }
      LessAsymmetric(stop.value, End(key));
      LessIrreflexive(End(key));
      assert FirstIntruder(kv, key, stop.value);
    } else {
      forall c | FirstIntruder(kv, key, c)
        ensures false
      {
        LessTotal(hit.value, End(key));
        if Less(hit.value, FirstBegin(key)) {
          LessTotal(c, FirstBegin(key));
          LessMixed(hit.value, FirstBegin(key), c);
        }
      }
    }
  }

  /** `GetFirst`'s single reverse seek answers with the oldest version exactly when no such key is stored. */
  lemma {:induction false} ReverseSeekExact(kv: Kv, key: Key)
    ensures FirstStop(kv, key) == Oldest(kv, key) <==> !exists c :: FirstIntruder(kv, key, c)
  {
    if Oldest(kv, key).Some? {
      ReverseSeekExactOwn(kv, key);
    } else {
      ReverseSeekExactNone(kv, key);
    }
  }

  /** Oldest-version lookup, whatever block the request names. */
  lemma {:induction false} ReadFirstIsOldest(kv: Kv, universe: iset<Key>, key: Key)
    requires PrefixFree(universe) && KeysIn(kv, universe) && key in universe
    ensures FirstStop(kv, key) == Oldest(kv, key)
    ensures ReadFirst(kv, key) == match EarliestFrom(Versions(kv), key, 0)
                                  case Some(c) => Hit(Versions(kv)[Version(key, c)])
                                  case None => Miss
  {
    forall c | FirstIntruder(kv, key, c)
      ensures false
    {
      FirstIntruderInRange(kv, key, c);
      ExtensionIsOwn(kv, universe, key, c);
    }
    ReverseSeekExact(kv, key);
  }

  lemma FirstIntruderInRange(kv: Kv, key: Key, c: Bytes)
    requires FirstIntruder(kv, key, c)
    ensures key <= c
  {
    FirstBounds(key);
    var oldest := EarliestFrom(Versions(kv), key, 0);
    if oldest.Some? {
      LessAsymmetric(Composite(key, oldest.value), c);
      InRangeExtends(key, oldest.value, c);
    } else {
      InRangeExtends(key, MAX_U64, c);
    }
  }

  // ---- Existence ----

  /** A stored key that is `key`'s own is one of its versions, and the other way round. */
  lemma {:induction false} OwnMeansVersion(kv: Kv, key: Key)
    ensures HasVersion(Versions(kv), key) <==> exists c :: c in kv && Own(key, c)
  {
    if HasVersion(Versions(kv), key) {
      var b: U64 :| Version(key, b) in Versions(kv);
      assert Own(key, Composite(key, b));
    }
    if exists c :: c in kv && Own(key, c) {
      var c :| c in kv && Own(key, c);
      OwnSplits(key, c);
      assert Version(key, Split(c).block) in Versions(kv);
    }
  }

  /** The if-not-exist probe sees exactly the keys with a version. */
  lemma {:induction false} ProbeIsExistence(kv: Kv, universe: iset<Key>, key: Key)
    requires PrefixFree(universe) && KeysIn(kv, universe) && key in universe
    ensures HasPrefix(kv.Keys, key) <==> HasVersion(Versions(kv), key)
  {
    OwnMeansVersion(kv, key);
    HasPrefixExact(kv.Keys, key);
    forall c | c in kv && key <= c
      ensures Own(key, c)
    {
      ExtensionIsOwn(kv, universe, key, c);
    }
  }

  /** In general the probe also takes the versions of longer keys for the key's own, and it is wrong
      about a key exactly when only those start with it. */
  lemma {:induction false} ProbeExact(kv: Kv, key: Key)
    ensures (HasPrefix(kv.Keys, key) <==> HasVersion(Versions(kv), key))
       <==> ((exists c :: c in kv && key <= c) ==> exists c :: c in kv && Own(key, c))
  {
    HasPrefixExact(kv.Keys, key);
    OwnMeansVersion(kv, key);
  }
}
