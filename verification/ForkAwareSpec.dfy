/**
 The fork-aware cache as a state: the wrapped store's contents, one in-memory slot a key, and the last
 flush point. What each operation does is stated key by key.
 */
module ForkAwareSpec {
  import opened Backing
  import opened ByteOrder
  import opened Entries
  import opened FanOut
  import opened Wrappers
  import Cells = LatestCells
  import Writes = TimeTravelWrites

  datatype Cached = Cached(value: Value, blockNumber: U64)

  datatype State = State(back: Back, cache: map<Key, Cached>, flushUpTo: U64)

  // ---- Reads ----

  /** The cache slot, if it is not from the future; else whatever the wrapped store answers. */
  ghost function ReadKey(st: State, key: Key, b: U64): Lookup {
    if key in st.cache && st.cache[key].blockNumber <= b then Hit(st.cache[key].value)
    else Read(st.back, key, b)
  }

  ghost function ReadKeyFirst(st: State, key: Key, b: U64): Lookup {
    if key in st.cache && st.cache[key].blockNumber <= b then Hit(st.cache[key].value)
    else ReadFirst(st.back, key, b)
  }

  /** A response to `Get`: one answer a key, in the order of the request, or an error of the wrapped store. */
  ghost predicate Responds(st: State, keys: seq<Key>, b: U64, r: Result<seq<Answer>, StoreError>) {
    match r
    case Ok(answers) =>
      && |answers| == |keys|
      && (forall i :: 0 <= i < |keys| ==> !Read(st.back, keys[i], b).Corrupt?)
      && forall i :: 0 <= i < |keys| ==> Ok(answers[i]) == Outcome(keys[i], ReadKey(st, keys[i], b))
    case Err(e) => e.key in keys && Read(st.back, e.key, b).Corrupt?
  }

  ghost predicate RespondsFirst(st: State, keys: seq<Key>, b: U64, r: Result<seq<Answer>, StoreError>) {
    match r
    case Ok(answers) =>
      && |answers| == |keys|
      && (forall i :: 0 <= i < |keys| ==> !ReadFirst(st.back, keys[i], b).Corrupt?)
      && forall i :: 0 <= i < |keys| ==> Ok(answers[i]) == Outcome(keys[i], ReadKeyFirst(st, keys[i], b))
    case Err(e) => e.key in keys && ReadFirst(st.back, e.key, b).Corrupt?
  }

  // ---- Writes ----

  /** The first filter of an if-not-exist batch: keys with no slot. */
  ghost function Uncached(cache: map<Key, Cached>, batch: map<Key, Value>, ifNotExist: bool): map<Key, Value> {
    if ifNotExist then batch - cache.Keys else batch
  }

  /** The second filter: keys the wrapped store does not find at the batch's block. */
  ghost function Unfound(back: Back, batch: map<Key, Value>, ifNotExist: bool, b: U64): map<Key, Value> {
    if ifNotExist then batch - (set k | k in batch && !Read(back, k, b).Miss?) else batch
  }

  ghost function Accepted(st: State, batch: map<Key, Value>, ifNotExist: bool, b: U64): map<Key, Value> {
    Unfound(st.back, Uncached(st.cache, batch, ifNotExist), ifNotExist, b)
  }

  ghost function Stamped(batch: map<Key, Value>, b: U64): (slots: map<Key, Cached>)
    ensures slots.Keys == batch.Keys
    ensures forall k :: k in batch ==> slots[k] == Cached(batch[k], b)
  {
    if batch == map[] then map[]
    else
      var k :| k in batch;
      Stamped(batch - {k}, b)[k := Cached(batch[k], b)]
  }

  /** The existence check runs into a stored value it cannot read. */
  ghost predicate SetAllFails(st: State, batch: map<Key, Value>, ifNotExist: bool, b: U64) {
    ifNotExist && exists k :: k in batch && k !in st.cache && Read(st.back, k, b).Corrupt?
  }

  ghost function SetAll(st: State, batch: map<Key, Value>, ifNotExist: bool, b: U64): State {
    var accepted := Accepted(st, batch, ifNotExist, b);
    State(if b <= st.flushUpTo then Put(st.back, accepted, ifNotExist, b) else st.back,
          st.cache + Stamped(accepted, b),
          st.flushUpTo)
  }

  /** The values of the slots at or below `limit`. */
  ghost function Flushable(cache: map<Key, Cached>, limit: U64): (batch: map<Key, Value>)
    ensures forall k :: k in batch <==> k in cache && cache[k].blockNumber <= limit
    ensures forall k :: k in batch ==> batch[k] == cache[k].value
  {
    if cache == map[] then map[]
    else
      var k :| k in cache;
      var rest := Flushable(cache - {k}, limit);
      if cache[k].blockNumber <= limit then rest[k := cache[k].value] else rest
  }

  ghost function Flush(st: State, limit: U64, ifNotExist: bool): State {
    var flushed := Flushable(st.cache, limit);
    State(Put(st.back, flushed, ifNotExist, limit), st.cache - flushed.Keys, limit)
  }

  ghost function Evict(st: State, from: U64): State {
    st.(cache := st.cache - (set k | k in st.cache && st.cache[k].blockNumber >= from))
  }

  lemma PutNothing(back: Back, ifNotExist: bool, b: U64)
    ensures Put(back, map[], ifNotExist, b) == back
  {
    match back
    case TimeTravel(kv) => Writes.PutNone(kv, ifNotExist, b);
    case Latest(kv) => assert Cells.Cells(kv, map[], ifNotExist, b) == map[];
  }

  lemma {:induction false} FlushNothing(st: State, limit: U64, ifNotExist: bool)
    requires Flushable(st.cache, limit) == map[]
    ensures Flush(st, limit, ifNotExist) == st.(flushUpTo := limit)
  {
    PutNothing(st.back, ifNotExist, limit);
    var none: set<Key> := {};
    assert Flushable(st.cache, limit).Keys == none && st.cache - none == st.cache;
  }

  // ---- What one operation does ----

  /**
   An if-not-exist batch, with any repetitions: the cache changes on exactly the keys that had no slot and
   were not found below, and each takes the value of its last mention.
   */
  lemma {:induction false} BatchAlignment(st: State, entries: seq<Entry>, b: U64, key: Key)
    ensures var st' := SetAll(st, LastWins(entries), true, b);
            var mentioned := exists i :: 0 <= i < |entries| && entries[i].key == key;
            var fresh' := mentioned && key !in st.cache && Read(st.back, key, b).Miss?;
            && (key in st'.cache <==> key in st.cache || fresh')
            && (key in st.cache ==> st'.cache[key] == st.cache[key])
            && (fresh' ==> exists i :: && 0 <= i < |entries| && entries[i].key == key
                                       && st'.cache[key] == Cached(entries[i].value, b)
                                       && forall j :: i < j < |entries| ==> entries[j].key != key)
  {
    LastWinsIsLastMention(entries, key);
    var st' := SetAll(st, LastWins(entries), true, b);
    if key in Accepted(st, LastWins(entries), true, b) {
      var i :| && 0 <= i < |entries| && entries[i] == Entry(key, LastWins(entries)[key])
               && forall j :: i < j < |entries| ==> entries[j].key != key;
      assert entries[i].key == key && st'.cache[key] == Cached(entries[i].value, b);
    }
  }

  /** When a batch fails: if-not-exist, and some mentioned key has no slot and a stored value too short to carry
      its stamp. The time-travel store never makes it fail. */
  lemma {:induction false} BatchFailsExactly(st: State, entries: seq<Entry>, ifNotExist: bool, b: U64)
    ensures SetAllFails(st, LastWins(entries), ifNotExist, b)
       <==> && ifNotExist && st.back.Latest?
            && exists i :: && 0 <= i < |entries| && entries[i].key !in st.cache
                           && entries[i].key in st.back.kv && |st.back.kv[entries[i].key]| < 8
  {
    forall k: Key
      ensures k in LastWins(entries) <==> exists i :: 0 <= i < |entries| && entries[i].key == k
      ensures Read(st.back, k, b).Corrupt? <==> st.back.Latest? && k in st.back.kv && |st.back.kv[k]| < 8
    {
      LastWinsIsLastMention(entries, k);
    }
    if i :| && 0 <= i < |entries| && entries[i].key !in st.cache && st.back.Latest?
            && entries[i].key in st.back.kv && |st.back.kv[entries[i].key]| < 8 {
      assert entries[i].key in LastWins(entries);
    }
  }

  /** Writing through. A batch at or below the flush point is in the wrapped store at once, at its own block, as far
      as that store accepts it; a batch above it leaves the wrapped store alone. */
  lemma {:induction false} WriteThrough(st: State, universe: iset<Key>, batch: map<Key, Value>, ifNotExist: bool,
                                        b: U64, key: Key)
    requires Valid(st.back, universe) && key in universe && forall k :: k in batch ==> k in universe
    ensures var back := SetAll(st, batch, ifNotExist, b).back;
            var accepted := key in batch
              && (ifNotExist ==> key !in st.cache && Top(st.back, key).None? && Read(st.back, key, b).Miss?);
            && (b <= st.flushUpTo ==> Read(back, key, b) == if accepted then Hit(batch[key]) else Read(st.back, key, b))
            && (b > st.flushUpTo ==> back == st.back)
  {
    if b <= st.flushUpTo {
      ReadAtPut(st.back, universe, Accepted(st, batch, ifNotExist, b), ifNotExist, b, key);
    }
  }

  /**
   Flush transparency. With every stamp of the wrapped store at or below the flush point, a flush leaves
   all reads of a key from the flush point on as they were, except in one case: the flush is if-not-exist
   and the key is already stored with a different value than the one being flushed.
   */
  lemma {:induction false} FlushTransparency(st: State, universe: iset<Key>, limit: U64, ifNotExist: bool, key: Key)
    requires Valid(st.back, universe) && StampsUpTo(st.back, limit)
    requires key in universe && forall k :: k in st.cache ==> k in universe
    ensures (forall b: U64 | limit <= b :: ReadKey(Flush(st, limit, ifNotExist), key, b) == ReadKey(st, key, b))
       <==> !(ifNotExist && key in Flushable(st.cache, limit)
              && Top(st.back, key).Some? && Top(st.back, key).value != st.cache[key].value)
  {
    var st' := Flush(st, limit, ifNotExist);
    var flushed := Flushable(st.cache, limit);
    PutTop(st.back, universe, flushed, ifNotExist, limit, key);
    PutKeepsValid(st.back, universe, limit, flushed, ifNotExist, limit);
    forall b: U64 | limit <= b
      ensures Read(st.back, key, b) == ToLookup(Top(st.back, key))
      ensures Read(st'.back, key, b) == ToLookup(Top(st'.back, key))
    {
      ReadAbove(st.back, universe, limit, key, b);
      ReadAbove(st'.back, universe, limit, key, b);
    }
    assert ReadKey(st', key, limit) == ToLookup(Top(st'.back, key)) || key in st'.cache;
  }

  /**
   Below the flush block, time-travel store: a flush changes a read exactly when the read was answered from
   a slot and the store below answers differently; the value is then stamped out of the read's reach.
   */
  lemma {:induction false} FlushBelowTimeTravel(st: State, universe: iset<Key>, limit: U64, ifNotExist: bool,
                                                key: Key, b: U64)
    requires st.back.TimeTravel? && Valid(st.back, universe) && key in universe && b < limit
    requires forall k :: k in st.cache ==> k in universe
    ensures ReadKey(Flush(st, limit, ifNotExist), key, b) == ReadKey(st, key, b)
       <==> !(key in st.cache && st.cache[key].blockNumber <= b && Read(st.back, key, b) != Hit(st.cache[key].value))
  {
    ReadBelowPut(st.back.kv, universe, Flushable(st.cache, limit), ifNotExist, limit, key, b);
  }

  /**
   Below the flush block, store without time travel: a key whose cell the flush replaces reads as missing
   afterwards, so only a read that found nothing stays; for the others the rule above holds.
   */
  lemma {:induction false} FlushBelowLatest(st: State, universe: iset<Key>, limit: U64, ifNotExist: bool, key: Key,
                                            b: U64)
    requires st.back.Latest? && Valid(st.back, universe) && b < limit
    ensures var flushed := key in Flushable(st.cache, limit);
            ReadKey(Flush(st, limit, ifNotExist), key, b) == ReadKey(st, key, b)
            <==> if flushed && (!ifNotExist || key !in st.back.kv) then ReadKey(st, key, b).Miss?
                 else !(flushed && st.cache[key].blockNumber <= b && Read(st.back, key, b) != Hit(st.cache[key].value))
  {
    if key in Flushable(st.cache, limit) {
      Cells.CellParts(limit, st.cache[key].value);
    }
  }

  /** Such a change over the time-travel store: written at block 1, flushed at block 2, gone from block 1. */
  lemma {:induction false} FlushHidesOldReads(key: Key, value: Value)
    ensures var st := State(TimeTravel(map[]), map[key := Cached(value, 1)], 0);
            && ReadKey(st, key, 1) == Hit(value)
            && ReadKey(Flush(st, 2, true), key, 1) == Miss
            && ReadKey(Flush(st, 2, true), key, 2) == Hit(value)
  {
    var universe := iset{key};
    var st := State(TimeTravel(map[]), map[key := Cached(value, 1)], 0);
    EmptyBack(universe, 2);
    ReadAbove(st.back, universe, 0, key, 1) by {
      EmptyBack(universe, 0);
    }
    ReadBelowPut(st.back.kv, universe, Flushable(st.cache, 2), true, 2, key, 1);
    FlushTransparency(st, universe, 2, true, key);
  }
}
