/**
 Badger as its callers see it: a map of byte strings kept in byte order, read by point lookups and by seeks
 in either direction, and written through batches that land all at once.
 */
module OrderedDb {
  import opened ByteOrder
  import opened Wrappers

  /** `k` is the least of `keys` that is not below `start`. */
  ghost predicate IsLeastFrom(keys: set<Bytes>, start: Bytes, k: Bytes) {
    && k in keys
    && !Less(k, start)
    && forall j | j in keys && !Less(j, start) :: !Less(j, k)
  }

  /** `k` is the greatest of `keys` that is not above `end`. */
  ghost predicate IsGreatestUpTo(keys: set<Bytes>, end: Bytes, k: Bytes) {
    && k in keys
    && !Less(end, k)
    && forall j | j in keys && !Less(end, j) :: !Less(k, j)
  }

  ghost predicate SeekAnswer(keys: set<Bytes>, start: Bytes, r: Option<Bytes>) {
    match r
    case Some(k) => IsLeastFrom(keys, start, k)
    case None => forall j | j in keys :: Less(j, start)
  }

  ghost predicate SeekBackAnswer(keys: set<Bytes>, end: Bytes, r: Option<Bytes>) {
    match r
    case Some(k) => IsGreatestUpTo(keys, end, k)
    case None => forall j | j in keys :: Less(end, j)
  }

  /** One more key either becomes the answer or leaves it alone. */
  lemma {:induction false} SeekStep(keys: set<Bytes>, start: Bytes, r: Option<Bytes>, k: Bytes)
    requires SeekAnswer(keys, start, r)
    ensures SeekAnswer(keys + {k}, start, if !Less(k, start) && (r.None? || Less(k, r.value)) then Some(k) else r)
  {
    LessIrreflexive(k);
    if !Less(k, start) && r.Some? && Less(k, r.value) {
      forall j | j in keys && !Less(j, start)
        ensures !Less(j, k)
      {
        if Less(j, k) {
          LessTransitive(j, k, r.value);
        }
      }
    }
  }

  lemma {:induction false} SeekBackStep(keys: set<Bytes>, end: Bytes, r: Option<Bytes>, k: Bytes)
    requires SeekBackAnswer(keys, end, r)
    ensures SeekBackAnswer(keys + {k}, end, if !Less(end, k) && (r.None? || Less(r.value, k)) then Some(k) else r)
  {
    LessIrreflexive(k);
    if !Less(end, k) && r.Some? && Less(r.value, k) {
      forall j | j in keys && !Less(end, j)
        ensures !Less(k, j)
      {
        if Less(k, j) {
          LessTransitive(r.value, k, j);
        }
      }
    }
  }

  lemma SeekUnique(keys: set<Bytes>, start: Bytes, r: Option<Bytes>, r': Option<Bytes>)
    requires SeekAnswer(keys, start, r) && SeekAnswer(keys, start, r')
    ensures r == r'
  {
    if r.Some? && r'.Some? {
      LessTotal(r.value, r'.value);
    }
  }

  lemma SeekBackUnique(keys: set<Bytes>, end: Bytes, r: Option<Bytes>, r': Option<Bytes>)
    requires SeekBackAnswer(keys, end, r) && SeekBackAnswer(keys, end, r')
    ensures r == r'
  {
    if r.Some? && r'.Some? {
      LessTotal(r.value, r'.value);
    }
  }

  /** Where a forward iterator stands after `Seek(start)`. */
  ghost function SeekFrom(keys: set<Bytes>, start: Bytes): (r: Option<Bytes>)
    ensures SeekAnswer(keys, start, r)
  {
    if keys == {} then None
    else
      var k :| k in keys;
      var r := SeekFrom(keys - {k}, start);
      SeekStep(keys - {k}, start, r, k);
      assert keys - {k} + {k} == keys;
      if !Less(k, start) && (r.None? || Less(k, r.value)) then Some(k) else r
  }

  /** Where a reverse iterator stands after `Seek(end)`. */
  ghost function SeekBack(keys: set<Bytes>, end: Bytes): (r: Option<Bytes>)
    ensures SeekBackAnswer(keys, end, r)
  {
    if keys == {} then None
    else
      var k :| k in keys;
      var r := SeekBack(keys - {k}, end);
      SeekBackStep(keys - {k}, end, r, k);
      assert keys - {k} + {k} == keys;
      if !Less(end, k) && (r.None? || Less(r.value, k)) then Some(k) else r
  }

  /** `Seek(prefix)` followed by `ValidForPrefix(prefix)`: does any stored key start with `prefix`? */
  ghost predicate HasPrefix(keys: set<Bytes>, prefix: Bytes) {
    var hit := SeekFrom(keys, prefix);
    hit.Some? && prefix <= hit.value
  }

  /** The probe looks at one key only, yet it misses nothing. */
  lemma {:induction false} HasPrefixExact(keys: set<Bytes>, prefix: Bytes)
    ensures HasPrefix(keys, prefix) <==> exists c :: c in keys && prefix <= c
  {
    forall c | c in keys && prefix <= c
      ensures HasPrefix(keys, prefix)
    {
      PrefixNotAfter(prefix, c);
      var hit := SeekFrom(keys, prefix);
      assert prefix + [] == prefix && prefix + c[|prefix|..] == c;
      BetweenExtensions(prefix, [], c[|prefix|..], hit.value);
    }
  }

  /** The open database. */
  class Db {
    var kv: map<Bytes, Bytes>

    constructor ()
      ensures kv == map[]
    {
      kv := map[];
    }

    method Get(key: Bytes) returns (r: Option<Bytes>)
      ensures r == if key in kv then Some(kv[key]) else None
    {
      r := if key in kv then Some(kv[key]) else None;
    }

    method Seek(start: Bytes) returns (r: Option<Bytes>)
      ensures r == SeekFrom(kv.Keys, start)
    {
      r := None;
      var unseen := kv.Keys;
      ghost var seen := {};
      while unseen != {}
        invariant seen + unseen == kv.Keys
        invariant SeekAnswer(seen, start, r)
        decreases unseen
      {
        var k :| k in unseen;
        SeekStep(seen, start, r, k);
        if !Less(k, start) && (r.None? || Less(k, r.value)) {
          r := Some(k);
        }
        unseen, seen := unseen - {k}, seen + {k};
      }
      assert seen == kv.Keys;
      SeekUnique(kv.Keys, start, r, SeekFrom(kv.Keys, start));
    }

    method SeekReverse(end: Bytes) returns (r: Option<Bytes>)
      ensures r == SeekBack(kv.Keys, end)
    {
      r := None;
      var unseen := kv.Keys;
      ghost var seen := {};
      while unseen != {}
        invariant seen + unseen == kv.Keys
        invariant SeekBackAnswer(seen, end, r)
        decreases unseen
      {
        var k :| k in unseen;
        SeekBackStep(seen, end, r, k);
        if !Less(end, k) && (r.None? || Less(r.value, k)) {
          r := Some(k);
        }
        unseen, seen := unseen - {k}, seen + {k};
      }
      assert seen == kv.Keys;
      SeekBackUnique(kv.Keys, end, r, SeekBack(kv.Keys, end));
    }

    /** A read-write transaction that sets one key. */
    method Update(key: Bytes, value: Bytes)
      modifies this
      ensures kv == old(kv)[key := value]
    {
      kv := kv[key := value];
    }
  }

  /** Writes held back until `Flush`; of two writes to one key the later wins. */
  class WriteBatch {
    const db: Db
    var pending: map<Bytes, Bytes>

    constructor (db: Db)
      ensures this.db == db && pending == map[]
    {
      this.db := db;
      pending := map[];
    }

    method Set(key: Bytes, value: Bytes)
      modifies this
      ensures pending == old(pending)[key := value]
    {
      pending := pending[key := value];
    }

    method Flush()
      modifies db
      ensures db.kv == old(db.kv) + pending
    {
      db.kv := db.kv + pending;
    }
  }
}
