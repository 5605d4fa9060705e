/** What the time-travel store's batch writes do to the bytes, and what that means for versions. */
module TimeTravelWrites {
  import opened ByteOrder
  import opened Chain
  import opened Entries
  import opened OrderedDb
  import opened TimeTravelKeys
  import opened TimeTravelLookup
  import opened Wrappers

  /** A batch under its composite keys. */
  ghost function Encoded(batch: map<Key, Value>, b: U64): (encoded: Kv)
    ensures Encodes(encoded, batch, b)
  {
    CanEncode(batch, b);
    var encoded :| Encodes(encoded, batch, b);
    encoded
  }

  ghost predicate Encodes(encoded: Kv, batch: map<Key, Value>, b: U64) {
    && (forall k, c: U64 :: Composite(k, c) in encoded <==> k in batch && c == b)
    && (forall k :: k in batch ==> encoded[Composite(k, b)] == batch[k])
    && forall c :: c in encoded ==> |c| >= 8
  }

  lemma {:induction false} CanEncode(batch: map<Key, Value>, b: U64)
    ensures exists encoded :: Encodes(encoded, batch, b)
    decreases batch
  {
    var encoded: Kv := map[];
    if batch != map[] {
      var k :| k in batch;
      CanEncode(batch - {k}, b);
      encoded :| Encodes(encoded, batch - {k}, b);
      encoded := encoded[Composite(k, b) := batch[k]];
      forall k': Key, c: U64
        ensures Composite(k', c) == Composite(k, b) ==> k' == k && c == b
      {
        SplitComposite(k, b);
        SplitComposite(k', c);
      }
    }
    assert Encodes(encoded, batch, b);
  }

  lemma EncodedOnly(batch: map<Key, Value>, b: U64, c: Bytes)
    requires c in Encoded(batch, b)
    ensures |c| >= 8 && Split(c).key in batch && c == Composite(Split(c).key, b)
  {
    CompositeSplit(c);
  }

  lemma EncodedNone(b: U64)
    ensures Encoded(map[], b) == map[]
  {
    forall c
      ensures c !in Encoded(map[], b)
    {
      if c in Encoded(map[], b) {
        EncodedOnly(map[], b, c);
      }
    }
  }

  lemma {:induction false} EncodedSet(batch: map<Key, Value>, b: U64, k: Key, v: Value)
    ensures Encoded(batch[k := v], b) == Encoded(batch, b)[Composite(k, b) := v]
  {
    var batch' := batch[k := v];
    forall c
      ensures c in Encoded(batch', b) <==> c == Composite(k, b) || c in Encoded(batch, b)
      ensures c in Encoded(batch', b) && c != Composite(k, b) ==> Encoded(batch', b)[c] == Encoded(batch, b)[c]
    {
      if c in Encoded(batch', b) {
        EncodedOnly(batch', b, c);
      }
      if c in Encoded(batch, b) {
        EncodedOnly(batch, b, c);
      }
    }
  }

  /** The part of a batch that gets past the existence probe, all of it checked before any of it lands. */
  ghost function Accepted(kv: Kv, batch: map<Key, Value>, ifNotExist: bool): map<Key, Value> {
    if ifNotExist then batch - (set k | k in batch && HasPrefix(kv.Keys, k)) else batch
  }

  lemma AcceptedStep(kv: Kv, batch: map<Key, Value>, ifNotExist: bool, k: Key, v: Value)
    ensures Accepted(kv, batch[k := v], ifNotExist)
         == if ifNotExist && HasPrefix(kv.Keys, k) then Accepted(kv, batch, ifNotExist)
            else Accepted(kv, batch, ifNotExist)[k := v]
  {
  }

  ghost function Put(kv: Kv, batch: map<Key, Value>, ifNotExist: bool, b: U64): Kv {
    kv + Encoded(Accepted(kv, batch, ifNotExist), b)
  }

  /** What one more entry adds to the batch being built. */
  lemma PendingStep(kv: Kv, entries: seq<Entry>, i: nat, ifNotExist: bool, b: U64)
    requires i < |entries|
    ensures Encoded(Accepted(kv, LastWins(entries[..i + 1]), ifNotExist), b)
         == if ifNotExist && HasPrefix(kv.Keys, entries[i].key)
            then Encoded(Accepted(kv, LastWins(entries[..i]), ifNotExist), b)
            else
              var before := Encoded(Accepted(kv, LastWins(entries[..i]), ifNotExist), b);
              before[Composite(entries[i].key, b) := entries[i].value]
  {
    LastWinsStep(entries, i);
    AcceptedStep(kv, LastWins(entries[..i]), ifNotExist, entries[i].key, entries[i].value);
    EncodedSet(Accepted(kv, LastWins(entries[..i]), ifNotExist), b, entries[i].key, entries[i].value);
  }

  lemma EncodedOne(k: Key, v: Value, b: U64)
    ensures Encoded(map[k := v], b) == map[Composite(k, b) := v]
  {
    var none: map<Key, Value> := map[];
    EncodedNone(b);
    EncodedSet(none, b, k, v);
    assert none[k := v] == map[k := v];
  }

  lemma AcceptedOne(kv: Kv, k: Key, v: Value, ifNotExist: bool)
    ensures Accepted(kv, map[k := v], ifNotExist) == if ifNotExist && HasPrefix(kv.Keys, k) then map[] else map[k := v]
  {
    var none: map<Key, Value> := map[];
    AcceptedStep(kv, none, ifNotExist, k, v);
    assert none[k := v] == map[k := v];
    assert Accepted(kv, none, ifNotExist) == none;
  }

  lemma PutOne(kv: Kv, k: Key, v: Value, ifNotExist: bool, b: U64)
    ensures Put(kv, map[k := v], ifNotExist, b)
         == if ifNotExist && HasPrefix(kv.Keys, k) then kv else kv[Composite(k, b) := v]
  {
    AcceptedOne(kv, k, v, ifNotExist);
    EncodedNone(b);
    EncodedOne(k, v, b);
    MergeOne(kv, Composite(k, b), v);
  }

  lemma EmptyBatch(kv: Kv, ifNotExist: bool, b: U64)
    ensures Encoded(Accepted(kv, map[], ifNotExist), b) == map[]
  {
    assert Accepted(kv, map[], ifNotExist) == map[];
    EncodedNone(b);
  }

  lemma PutNone(kv: Kv, ifNotExist: bool, b: U64)
    ensures Put(kv, map[], ifNotExist, b) == kv
  {
    EmptyBatch(kv, ifNotExist, b);
    MergeOne(kv, [], []);
  }

  lemma MergeOne(kv: Kv, c: Bytes, v: Value)
    ensures kv + map[] == kv && kv + map[c := v] == kv[c := v]
  {
  }

  lemma {:induction false} PutHas(kv: Kv, batch: map<Key, Value>, ifNotExist: bool, b: U64, k: Key, c: U64)
    ensures var accepted := k in batch && (!ifNotExist || !HasPrefix(kv.Keys, k)) && c == b;
            && (Composite(k, c) in Put(kv, batch, ifNotExist, b) <==> Composite(k, c) in kv || accepted)
            && (accepted ==> Put(kv, batch, ifNotExist, b)[Composite(k, c)] == batch[k])
            && (!accepted && Composite(k, c) in kv ==>
                  Put(kv, batch, ifNotExist, b)[Composite(k, c)] == kv[Composite(k, c)])
  {
    assert Encodes(Encoded(Accepted(kv, batch, ifNotExist), b), Accepted(kv, batch, ifNotExist), b);
  }

  lemma PutKeysIn(kv: Kv, universe: iset<Key>, batch: map<Key, Value>, ifNotExist: bool, b: U64)
    requires KeysIn(kv, universe) && forall k :: k in batch ==> k in universe
    ensures KeysIn(Put(kv, batch, ifNotExist, b), universe)
  {
    forall c | c in Put(kv, batch, ifNotExist, b) && c !in kv
      ensures |c| >= 8 && Split(c).key in universe
    {
      EncodedOnly(Accepted(kv, batch, ifNotExist), b, c);
    }
  }

  // ---- Histories ----

  /** Each block of `chain` written as one batch, starting from an empty database. */
  ghost function PutAll(chain: seq<Block>): Kv {
    if |chain| == 0 then map[]
    else
      var last := chain[|chain| - 1];
      Put(PutAll(chain[..|chain| - 1]), LastWins(last.entries), last.ifNotExist, last.num)
  }

  /** The last value accepted for `key` at block `b`: an if-not-exist batch is accepted for the keys
      nothing was accepted for before. */
  function AcceptedAt(chain: seq<Block>, key: Key, b: U64): Option<Value> {
    if |chain| == 0 then None
    else
      var last, front := chain[|chain| - 1], chain[..|chain| - 1];
      if last.num == b && Writes(last, key) && (!last.ifNotExist || Writer(front, key).None?)
      then Some(LastWins(last.entries)[key])
      else AcceptedAt(front, key, b)
  }

  ghost predicate AcceptsAt(chain: seq<Block>, key: Key, b: U64) {
    AcceptedAt(chain, key, b).Some?
  }

  /** Something has been accepted at some block exactly when a write stands. */
  lemma {:induction false} AcceptedSomewhere(chain: seq<Block>, key: Key)
    ensures Writer(chain, key).Some? <==> exists b: U64 :: AcceptsAt(chain, key, b)
  {
    if |chain| > 0 {
      var last, front := chain[|chain| - 1], chain[..|chain| - 1];
      AcceptedSomewhere(front, key);
      if b: U64 :| AcceptsAt(chain, key, b) {
        assert AcceptsAt(front, key, b) || Writer(chain, key).Some?;
      }
      if Writer(front, key).Some? {
        var b: U64 :| AcceptsAt(front, key, b);
        assert AcceptsAt(chain, key, b);
      } else if Writer(chain, key).Some? {
        assert AcceptsAt(chain, key, last.num);
      }
    }
  }

  /** Version `(key, b)` of the database is what the history accepted last for `key` at `b`. */
  ghost predicate Agrees(kv: Kv, chain: seq<Block>, key: Key, b: U64) {
    if Composite(key, b) in kv
    then AcceptedAt(chain, key, b) == Some(kv[Composite(key, b)])
    else AcceptedAt(chain, key, b).None?
  }

  lemma {:induction false} PutAllKeysIn(chain: seq<Block>, universe: iset<Key>)
    requires KeysWithin(chain, universe)
    ensures KeysIn(PutAll(chain), universe)
  {
    if |chain| > 0 {
      var last, front := chain[|chain| - 1], chain[..|chain| - 1];
      assert forall i, k :: 0 <= i < |front| && Writes(front[i], k) ==> Writes(chain[i], k);
      PutAllKeysIn(front, universe);
      assert forall k :: k in LastWins(last.entries) ==> Writes(chain[|chain| - 1], k);
      PutKeysIn(PutAll(front), universe, LastWins(last.entries), last.ifNotExist, last.num);
    }
  }

  ghost predicate AgreesEverywhere(kv: Kv, chain: seq<Block>, key: Key) {
    forall b: U64 :: Agrees(kv, chain, key, b)
  }

  lemma {:induction false} PutAllSnoc(front: seq<Block>, last: Block)
    ensures PutAll(front + [last]) == Put(PutAll(front), LastWins(last.entries), last.ifNotExist, last.num)
  {
    assert (front + [last])[..|front|] == front;
  }

  /** One more batch: the probe answers for the whole history, whatever the batch's flag and block. */
  lemma {:induction false} BatchAgrees(kv: Kv, front: seq<Block>, last: Block, universe: iset<Key>, key: Key)
    requires AgreesEverywhere(kv, front, key)
    requires PrefixFree(universe) && KeysIn(kv, universe) && key in universe
    ensures AgreesEverywhere(Put(kv, LastWins(last.entries), last.ifNotExist, last.num), front + [last], key)
  {
    ProbeIsExistence(kv, universe, key);
    ExistsIffAccepted(kv, front, key);
    forall b: U64
      ensures Agrees(Put(kv, LastWins(last.entries), last.ifNotExist, last.num), front + [last], key, b)
    {
      AgreesAfterPut(kv, front, last, key, b);
    }
  }

  /**
   The database after any history of batches, with any mix of flags and block numbers: one version for
   each block at which something was accepted, holding the value accepted last.
   */
  lemma {:induction false} HistoryRefinement(chain: seq<Block>, universe: iset<Key>, key: Key)
    requires PrefixFree(universe) && KeysWithin(chain, universe) && key in universe
    ensures AgreesEverywhere(PutAll(chain), chain, key)
  {
    if |chain| > 0 {
      var front, last := chain[..|chain| - 1], chain[|chain| - 1];
      assert chain == front + [last];
      KeysWithinFront(chain, universe);
      HistoryRefinement(front, universe, key);
      PutAllKeysIn(front, universe);
      BatchAgrees(PutAll(front), front, last, universe, key);
      PutAllSnoc(front, last);
    }
  }

  lemma {:induction false} KeysWithinFront(chain: seq<Block>, universe: iset<Key>)
    requires KeysWithin(chain, universe) && |chain| > 0
    ensures KeysWithin(chain[..|chain| - 1], universe)
  {
    var front := chain[..|chain| - 1];
    assert forall i, k :: 0 <= i < |front| && Writes(front[i], k) ==> Writes(chain[i], k);
  }

  lemma ExistsIffAccepted(kv: Kv, chain: seq<Block>, key: Key)
    requires AgreesEverywhere(kv, chain, key)
    ensures HasVersion(Versions(kv), key) <==> Writer(chain, key).Some?
  {
    AcceptedSomewhere(chain, key);
    if b: U64 :| AcceptsAt(chain, key, b) {
      assert Agrees(kv, chain, key, b);
      assert Version(key, b) in Versions(kv);
    }
    if b: U64 :| Version(key, b) in Versions(kv) {
      assert Agrees(kv, chain, key, b);
      assert AcceptsAt(chain, key, b);
    }
  }

  lemma {:induction false} AgreesAfterPut(kv: Kv, front: seq<Block>, last: Block, key: Key, b: U64)
    requires Agrees(kv, front, key, b)
    requires HasPrefix(kv.Keys, key) <==> Writer(front, key).Some?
    ensures Agrees(Put(kv, LastWins(last.entries), last.ifNotExist, last.num), front + [last], key, b)
  {
    PutHas(kv, LastWins(last.entries), last.ifNotExist, last.num, key, b);
    assert (front + [last])[..|front|] == front;
  }

  /** Time-travel reads after any history: the value accepted last at the greatest block at or below `b`
      at which the key had one accepted. */
  lemma {:induction false} ReadAfterHistory(chain: seq<Block>, universe: iset<Key>, key: Key, b: U64)
    requires PrefixFree(universe) && KeysWithin(chain, universe) && key in universe
    ensures match Read(PutAll(chain), key, b)
            case Hit(value) => exists c: U64 | c <= b ::
              && AcceptedAt(chain, key, c) == Some(value)
              && forall d: U64 | c < d <= b :: !AcceptsAt(chain, key, d)
            case Miss => forall c: U64 | c <= b :: !AcceptsAt(chain, key, c)
            case Corrupt => false
  {
    PutAllKeysIn(chain, universe);
    ReadIsLatest(PutAll(chain), universe, key, b);
    VersionsAreAccepted(chain, universe, key);
    var latest := LatestAt(Versions(PutAll(chain)), key, b);
    if latest.Some? {
      HistoryRefinement(chain, universe, key);
      assert Agrees(PutAll(chain), chain, key, latest.value);
    }
  }

  lemma VersionsAreAccepted(chain: seq<Block>, universe: iset<Key>, key: Key)
    requires PrefixFree(universe) && KeysWithin(chain, universe) && key in universe
    ensures forall c: U64 :: AcceptsAt(chain, key, c) <==> Version(key, c) in Versions(PutAll(chain))
  {
    HistoryRefinement(chain, universe, key);
    forall c: U64
      ensures AcceptsAt(chain, key, c) <==> Version(key, c) in Versions(PutAll(chain))
    {
      assert Agrees(PutAll(chain), chain, key, c);
    }
  }

  /** If-not-exist histories accept each key once, at the first batch that contains it. */
  lemma {:induction false} AcceptedOnce(chain: seq<Block>, key: Key, b: U64)
    requires Uniform(chain, true)
    ensures AcceptedAt(chain, key, b) == match Writer(chain, key)
                                         case Some(w) => if w.num == b then Some(w.value) else None
                                         case None => None
  {
    if |chain| > 0 {
      AcceptedOnce(chain[..|chain| - 1], key, b);
      AcceptedSomewhere(chain[..|chain| - 1], key);
    }
  }

  /** The standing write of an if-not-exist history is its key's one stored version. */
  lemma {:induction false} OneVersion(chain: seq<Block>, universe: iset<Key>, key: Key, b: U64)
    requires PrefixFree(universe) && KeysWithin(chain, universe) && key in universe && Uniform(chain, true)
    ensures Version(key, b) in Versions(PutAll(chain))
       <==> Writer(chain, key).Some? && Writer(chain, key).value.num == b
    ensures Version(key, b) in Versions(PutAll(chain)) ==>
              Versions(PutAll(chain))[Version(key, b)] == Writer(chain, key).value.value
  {
    HistoryRefinement(chain, universe, key);
    assert Agrees(PutAll(chain), chain, key, b);
    AcceptedOnce(chain, key, b);
  }

  /** Write-once: after any if-not-exist history a key has at most one version, from its first batch,
      and reads find it from that block on. */
  lemma {:induction false} WriteOnce(chain: seq<Block>, universe: iset<Key>, key: Key, b: U64)
    requires PrefixFree(universe) && KeysWithin(chain, universe) && key in universe && Uniform(chain, true)
    ensures Version(key, b) in Versions(PutAll(chain))
       <==> Writer(chain, key).Some? && Writer(chain, key).value.num == b
    ensures Read(PutAll(chain), key, b) == match Writer(chain, key)
                                           case Some(w) => if w.num <= b then Hit(w.value) else Miss
                                           case None => Miss
  {
    var at := if Writer(chain, key).Some? then Some(Writer(chain, key).value.num) else None;
    forall c: U64
      ensures Version(key, c) in Versions(PutAll(chain)) <==> at == Some(c)
    {
      OneVersion(chain, universe, key, c);
    }
    LatestOfOne(Versions(PutAll(chain)), key, b, at);
    PutAllKeysIn(chain, universe);
    ReadIsLatest(PutAll(chain), universe, key, b);
    if at.Some? {
      OneVersion(chain, universe, key, at.value);
    }
  }

  /** The probe reads the database, not the batch: a key repeated in one if-not-exist batch gets its last value. */
  lemma RepeatedKeyTakesLast(kv: Kv, entries: seq<Entry>, i: nat, b: U64)
    requires i < |entries| && forall j :: i < j < |entries| ==> entries[j].key != entries[i].key
    requires !HasPrefix(kv.Keys, entries[i].key)
    ensures var c := Composite(entries[i].key, b);
            && c in Put(kv, LastWins(entries), true, b)
            && Put(kv, LastWins(entries), true, b)[c] == entries[i].value
  {
    LastWinsIsLastMention(entries, entries[i].key);
    PutHas(kv, LastWins(entries), true, b, entries[i].key, b);
  }
}
