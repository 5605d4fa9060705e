/**
 The two Badger stores behind one interface, and the contract the fork-aware cache relies on, proved for
 each of them once.

 `universe` is the set of keys in use. The time-travel store needs it to be prefix-free; the other store
 asks nothing of it.
 */
module Backing {
  import opened ByteOrder
  import opened Entries
  import opened FanOut
  import opened OrderedDb
  import opened Wrappers
  import Cells = LatestCells
  import Keys = TimeTravelKeys
  import LatestStore
  import Lookups = TimeTravelLookup
  import Readers
  import TimeTravelStore
  import Writes = TimeTravelWrites

  /** A store's contents. */
  datatype Back = TimeTravel(kv: map<Bytes, Bytes>) | Latest(kv: map<Bytes, Bytes>)

  ghost function Read(back: Back, key: Key, b: U64): Lookup {
    match back
    case TimeTravel(kv) => Lookups.Read(kv, key, b)
    case Latest(kv) => Cells.Read(kv, key, b)
  }

  ghost function ReadFirst(back: Back, key: Key, b: U64): Lookup {
    match back
    case TimeTravel(kv) => Lookups.ReadFirst(kv, key)
    case Latest(kv) => Cells.Read(kv, key, b)
  }

  ghost function Put(back: Back, batch: map<Key, Value>, ifNotExist: bool, b: U64): Back {
    match back
    case TimeTravel(kv) => TimeTravel(Writes.Put(kv, batch, ifNotExist, b))
    case Latest(kv) => Latest(Cells.Put(kv, batch, ifNotExist, b))
  }

  /** What each worker of a request comes back with. */
  ghost function Outcomes(back: Back, keys: seq<Key>, b: U64): (r: seq<Result<Answer, StoreError>>)
    ensures |r| == |keys|
  {
    match back
    case TimeTravel(kv) => Readers.LatestVersion(b).Outcomes(kv, keys)
    case Latest(kv) => Readers.LatestCell(b).Outcomes(kv, keys)
  }

  ghost function OutcomesFirst(back: Back, keys: seq<Key>, b: U64): (r: seq<Result<Answer, StoreError>>)
    ensures |r| == |keys|
  {
    match back
    case TimeTravel(kv) => Readers.Worker.OldestVersion.Outcomes(kv, keys)
    case Latest(kv) => Readers.LatestCell(b).Outcomes(kv, keys)
  }

  lemma OutcomeAt(back: Back, keys: seq<Key>, b: U64, i: nat)
    requires i < |keys|
    ensures Outcomes(back, keys, b)[i] == Outcome(keys[i], Read(back, keys[i], b))
    ensures OutcomesFirst(back, keys, b)[i] == Outcome(keys[i], ReadFirst(back, keys[i], b))
  {
  }

  // ---- The contract ----

  ghost predicate Valid(back: Back, universe: iset<Key>) {
    match back
    case TimeTravel(kv) => Keys.PrefixFree(universe) && Lookups.KeysIn(kv, universe)
    case Latest(kv) => forall k | k in kv :: |kv[k]| >= 8
  }

  /** `value` is stored for `key` under the stamp `b`. */
  ghost predicate StoredAt(back: Back, key: Key, b: U64, value: Value) {
    match back
    case TimeTravel(kv) => Keys.Composite(key, b) in kv && kv[Keys.Composite(key, b)] == value
    case Latest(kv) => key in kv && kv[key] == Cells.Cell(b, value)
  }

  /** No stamp in the store exceeds `limit`. */
  ghost predicate StampsUpTo(back: Back, limit: U64) {
    forall k, b: U64, v | StoredAt(back, k, b, v) :: b <= limit
  }

  /** The value a read at the end of time gets. */
  ghost function Top(back: Back, key: Key): Option<Value> {
    match Read(back, key, MAX_U64)
    case Hit(value) => Some(value)
    case _ => None
  }

  function ToLookup(v: Option<Value>): Lookup {
    match v
    case Some(value) => Hit(value)
    case None => Miss
  }

  /** A read that finds something finds a value stored under a stamp at or below its block; a read that
      finds nothing has nothing there to find. */
  lemma {:induction false} ReadExact(back: Back, universe: iset<Key>, key: Key, b: U64)
    requires Valid(back, universe) && key in universe
    ensures match Read(back, key, b)
            case Hit(value) => exists c: U64 :: c <= b && StoredAt(back, key, c, value)
            case Miss => forall c: U64, v | c <= b :: !StoredAt(back, key, c, v)
            case Corrupt => false
  {
    match back
    case TimeTravel(kv) => ReadExactTimeTravel(kv, universe, key, b);
    case Latest(kv) => ReadExactLatest(kv, universe, key, b);
  }

  lemma ReadExactTimeTravel(kv: map<Bytes, Bytes>, universe: iset<Key>, key: Key, b: U64)
    requires Valid(TimeTravel(kv), universe) && key in universe
    ensures match Lookups.Read(kv, key, b)
            case Hit(value) => exists c: U64 :: c <= b && StoredAt(TimeTravel(kv), key, c, value)
            case Miss => forall c: U64, v | c <= b :: !StoredAt(TimeTravel(kv), key, c, v)
            case Corrupt => false
  {
    Lookups.ReadIsLatest(kv, universe, key, b);
    var latest := Keys.LatestAt(Keys.Versions(kv), key, b);
    if latest.Some? {
      assert StoredAt(TimeTravel(kv), key, latest.value, Keys.Versions(kv)[Keys.Version(key, latest.value)]);
    } else {
      forall c: U64, v | c <= b
        ensures !StoredAt(TimeTravel(kv), key, c, v)
      {
        assert Keys.Version(key, c) !in Keys.Versions(kv);
      }
    }
  }

  lemma ReadExactLatest(kv: map<Bytes, Bytes>, universe: iset<Key>, key: Key, b: U64)
    requires Valid(Latest(kv), universe)
    ensures match Cells.Read(kv, key, b)
            case Hit(value) => exists c: U64 :: c <= b && StoredAt(Latest(kv), key, c, value)
            case Miss => forall c: U64, v | c <= b :: !StoredAt(Latest(kv), key, c, v)
            case Corrupt => false
  {
    if key in kv {
      Cells.CellOnto(kv[key]);
      assert StoredAt(Latest(kv), key, DecodeU64(kv[key][..8]), kv[key][8..]);
      forall c: U64, v | StoredAt(Latest(kv), key, c, v)
        ensures c == DecodeU64(kv[key][..8])
      {
        Cells.CellParts(c, v);
      }
    }
  }

  lemma VersionsUpTo(kv: map<Bytes, Bytes>, limit: U64, key: Key)
    requires StampsUpTo(TimeTravel(kv), limit)
    ensures forall c: U64 | Keys.Version(key, c) in Keys.Versions(kv) :: c <= limit
  {
    forall c: U64 | Keys.Version(key, c) in Keys.Versions(kv)
      ensures c <= limit
    {
      assert StoredAt(TimeTravel(kv), key, c, kv[Keys.Composite(key, c)]);
    }
  }

  /** At or above every stamp, all reads agree. */
  lemma {:induction false} ReadAbove(back: Back, universe: iset<Key>, limit: U64, key: Key, b: U64)
    requires Valid(back, universe) && key in universe && StampsUpTo(back, limit) && limit <= b
    ensures Read(back, key, b) == ToLookup(Top(back, key))
  {
    match back
    case TimeTravel(kv) =>
      Lookups.ReadIsLatest(kv, universe, key, b);
      Lookups.ReadIsLatest(kv, universe, key, MAX_U64);
      VersionsUpTo(kv, limit, key);
      Keys.LatestBeyond(Keys.Versions(kv), key, limit, b, MAX_U64);
    case Latest(kv) =>
      if key in kv {
        Cells.CellOnto(kv[key]);
        assert StoredAt(back, key, DecodeU64(kv[key][..8]), kv[key][8..]);
      }
  }

  /** What a batch stores: its accepted keys under its own block, and nothing else is new. */
  lemma {:induction false} PutStores(back: Back, batch: map<Key, Value>, ifNotExist: bool, b: U64, key: Key,
                                     c: U64, value: Value)
    requires StoredAt(Put(back, batch, ifNotExist, b), key, c, value)
    ensures StoredAt(back, key, c, value) || (c == b && key in batch && batch[key] == value)
  {
    match back
    case TimeTravel(kv) =>
      Writes.PutHas(kv, batch, ifNotExist, b, key, c);
    case Latest(kv) =>
      if !StoredAt(back, key, c, value) {
        Cells.CellParts(b, batch[key]);
        Cells.CellParts(c, value);
      }
  }

  /** What an if-not-exist batch leaves stored for a key. */
  ghost predicate NewOrKept(back: Back, batch: map<Key, Value>, b: U64, key: Key, c: U64, value: Value) {
    StoredAt(back, key, c, value) || (Top(back, key).None? && key in batch && c == b && value == batch[key])
  }

  /** An if-not-exist batch stores exactly its values for keys with nothing stored, and leaves all others. */
  lemma {:induction false} PutStoresNew(back: Back, universe: iset<Key>, batch: map<Key, Value>, b: U64,
                                        key: Key, c: U64, value: Value)
    requires Valid(back, universe) && key in universe
    ensures StoredAt(Put(back, batch, true, b), key, c, value) <==> NewOrKept(back, batch, b, key, c, value)
  {
    match back
    case TimeTravel(kv) => PutStoresNewVersion(kv, universe, batch, b, key, c, value);
    case Latest(kv) =>
      if key in batch {
        Cells.CellParts(c, value);
        Cells.CellParts(b, batch[key]);
      }
  }

  lemma {:induction false} PutStoresNewVersion(kv: map<Bytes, Bytes>, universe: iset<Key>, batch: map<Key, Value>,
                                               b: U64, key: Key, c: U64, value: Value)
    requires Valid(TimeTravel(kv), universe) && key in universe
    ensures StoredAt(Put(TimeTravel(kv), batch, true, b), key, c, value)
       <==> NewOrKept(TimeTravel(kv), batch, b, key, c, value)
  {
    Writes.PutHas(kv, batch, true, b, key, c);
    ProbeIsTop(kv, universe, key);
  }

  /** The existence probe finds exactly the keys with a value stored. */
  lemma {:induction false} ProbeIsTop(kv: map<Bytes, Bytes>, universe: iset<Key>, key: Key)
    requires Valid(TimeTravel(kv), universe) && key in universe
    ensures HasPrefix(kv.Keys, key) <==> Top(TimeTravel(kv), key).Some?
    ensures forall c: U64 :: Keys.Composite(key, c) in kv ==> Top(TimeTravel(kv), key).Some?
  {
    Lookups.ProbeIsExistence(kv, universe, key);
    TopTimeTravel(kv, universe, key);
    forall c: U64 | Keys.Composite(key, c) in kv
      ensures Keys.HasVersion(Keys.Versions(kv), key)
    {
      assert Keys.Version(key, c) in Keys.Versions(kv);
    }
  }

  /** Over the time-travel store a batch changes no read below its own block. */
  lemma {:induction false} ReadBelowPut(kv: map<Bytes, Bytes>, universe: iset<Key>, batch: map<Key, Value>,
                                        ifNotExist: bool, b: U64, key: Key, c: U64)
    requires Valid(TimeTravel(kv), universe) && key in universe && forall k :: k in batch ==> k in universe
    requires c < b
    ensures Read(Put(TimeTravel(kv), batch, ifNotExist, b), key, c) == Read(TimeTravel(kv), key, c)
  {
    var kv' := Writes.Put(kv, batch, ifNotExist, b);
    Writes.PutKeysIn(kv, universe, batch, ifNotExist, b);
    NewVersions(kv, batch, ifNotExist, b, key);
    Keys.LatestSame(Keys.Versions(kv), Keys.Versions(kv'), key, c);
    Lookups.ReadIsLatest(kv, universe, key, c);
    Lookups.ReadIsLatest(kv', universe, key, c);
    var latest := Keys.LatestAt(Keys.Versions(kv), key, c);
    if latest.Some? {
      Writes.PutHas(kv, batch, ifNotExist, b, key, latest.value);
    }
  }

  /** What a read at a batch's own block finds afterwards: the batch's value, if it was accepted, else what it
      found before. */
  lemma {:induction false} ReadAtPut(back: Back, universe: iset<Key>, batch: map<Key, Value>, ifNotExist: bool,
                                     b: U64, key: Key)
    requires Valid(back, universe) && key in universe && forall k :: k in batch ==> k in universe
    ensures Read(Put(back, batch, ifNotExist, b), key, b)
         == if key in batch && (!ifNotExist || Top(back, key).None?) then Hit(batch[key]) else Read(back, key, b)
  {
    match back
    case TimeTravel(kv) => ReadAtPutVersion(kv, universe, batch, ifNotExist, b, key);
    case Latest(kv) =>
      if key in batch {
        Cells.CellParts(b, batch[key]);
      }
  }

  lemma {:induction false} ReadAtPutVersion(kv: map<Bytes, Bytes>, universe: iset<Key>, batch: map<Key, Value>,
                                            ifNotExist: bool, b: U64, key: Key)
    requires Valid(TimeTravel(kv), universe) && key in universe && forall k :: k in batch ==> k in universe
    ensures Read(Put(TimeTravel(kv), batch, ifNotExist, b), key, b)
         == if key in batch && (!ifNotExist || Top(TimeTravel(kv), key).None?) then Hit(batch[key])
            else Read(TimeTravel(kv), key, b)
  {
    var kv' := Writes.Put(kv, batch, ifNotExist, b);
    Writes.PutKeysIn(kv, universe, batch, ifNotExist, b);
    ProbeIsTop(kv, universe, key);
    Lookups.ReadIsLatest(kv, universe, key, b);
    Lookups.ReadIsLatest(kv', universe, key, b);
    if key in batch && (!ifNotExist || !HasPrefix(kv.Keys, key)) {
      Writes.PutHas(kv, batch, ifNotExist, b, key, b);
      assert Keys.Version(key, b) in Keys.Versions(kv');
    } else {
      NewVersions(kv, batch, ifNotExist, b, key);
      Keys.LatestSame(Keys.Versions(kv), Keys.Versions(kv'), key, b);
      var latest := Keys.LatestAt(Keys.Versions(kv), key, b);
      if latest.Some? {
        Writes.PutHas(kv, batch, ifNotExist, b, key, latest.value);
      }
    }
  }

  lemma {:induction false} PutKeepsValid(back: Back, universe: iset<Key>, limit: U64, batch: map<Key, Value>,
                                         ifNotExist: bool, b: U64)
    requires Valid(back, universe) && forall k :: k in batch ==> k in universe
    ensures Valid(Put(back, batch, ifNotExist, b), universe)
    ensures StampsUpTo(back, limit) && b <= limit ==> StampsUpTo(Put(back, batch, ifNotExist, b), limit)
  {
    if back.TimeTravel? {
      Writes.PutKeysIn(back.kv, universe, batch, ifNotExist, b);
    }
    forall k, c: U64, v | StoredAt(Put(back, batch, ifNotExist, b), k, c, v)
      ensures StoredAt(back, k, c, v) || c == b
    {
      PutStores(back, batch, ifNotExist, b, k, c, v);
    }
  }

  /**
   Writing at or above every stamp is an update of the top values: accepted keys take the batch's value,
   the others keep theirs. If-not-exist accepts exactly the keys with no top value.
   */
  lemma {:induction false} PutTop(back: Back, universe: iset<Key>, batch: map<Key, Value>, ifNotExist: bool,
                                  b: U64, key: Key)
    requires Valid(back, universe) && key in universe && StampsUpTo(back, b)
    requires forall k :: k in batch ==> k in universe
    ensures Top(Put(back, batch, ifNotExist, b), key)
         == if key in batch && (!ifNotExist || Top(back, key).None?) then Some(batch[key]) else Top(back, key)
  {
    match back
    case TimeTravel(kv) =>
      PutTopTimeTravel(kv, universe, batch, ifNotExist, b, key);
    case Latest(kv) =>
      if key in kv {
        Cells.CellOnto(kv[key]);
      }
      if key in batch {
        Cells.CellParts(b, batch[key]);
      }
  }

  lemma {:induction false} PutTopTimeTravel(kv: map<Bytes, Bytes>, universe: iset<Key>, batch: map<Key, Value>,
                                             ifNotExist: bool, b: U64, key: Key)
    requires Valid(TimeTravel(kv), universe) && key in universe && StampsUpTo(TimeTravel(kv), b)
    requires forall k :: k in batch ==> k in universe
    ensures Top(Put(TimeTravel(kv), batch, ifNotExist, b), key)
         == if key in batch && (!ifNotExist || Top(TimeTravel(kv), key).None?) then Some(batch[key])
            else Top(TimeTravel(kv), key)
  {
    var kv' := Writes.Put(kv, batch, ifNotExist, b);
    var accepted := key in batch && (!ifNotExist || !HasPrefix(kv.Keys, key));
    Writes.PutKeysIn(kv, universe, batch, ifNotExist, b);
    VersionsUpTo(kv, b, key);
    NewVersions(kv, batch, ifNotExist, b, key);
    Keys.LatestAfterAdding(Keys.Versions(kv), Keys.Versions(kv'), key, b, accepted);
    TopTimeTravel(kv, universe, key);
    TopTimeTravel(kv', universe, key);
    Lookups.ProbeIsExistence(kv, universe, key);
    var before := Keys.LatestAt(Keys.Versions(kv), key, MAX_U64);
    if before.Some? {
      Writes.PutHas(kv, batch, ifNotExist, b, key, before.value);
    }
    Writes.PutHas(kv, batch, ifNotExist, b, key, b);
  }

  lemma TopTimeTravel(kv: map<Bytes, Bytes>, universe: iset<Key>, key: Key)
    requires Valid(TimeTravel(kv), universe) && key in universe
    ensures Top(TimeTravel(kv), key) == match Keys.LatestAt(Keys.Versions(kv), key, MAX_U64)
                                        case Some(c) => Some(kv[Keys.Composite(key, c)])
                                        case None => None
    ensures Top(TimeTravel(kv), key).Some? <==> Keys.HasVersion(Keys.Versions(kv), key)
  {
    Lookups.ReadIsLatest(kv, universe, key, MAX_U64);
  }

  lemma NewVersions(kv: map<Bytes, Bytes>, batch: map<Key, Value>, ifNotExist: bool, b: U64, key: Key)
    ensures var accepted := key in batch && (!ifNotExist || !HasPrefix(kv.Keys, key));
            forall c: U64 :: Keys.Version(key, c) in Keys.Versions(Writes.Put(kv, batch, ifNotExist, b)) <==>
              Keys.Version(key, c) in Keys.Versions(kv) || (accepted && c == b)
  {
    forall c: U64
      ensures Keys.Version(key, c) in Keys.Versions(Writes.Put(kv, batch, ifNotExist, b)) <==>
              || Keys.Version(key, c) in Keys.Versions(kv)
              || (key in batch && (!ifNotExist || !HasPrefix(kv.Keys, key)) && c == b)
    {
      Writes.PutHas(kv, batch, ifNotExist, b, key, c);
    }
  }

  lemma EmptyBack(universe: iset<Key>, limit: U64)
    ensures Valid(Latest(map[]), universe) && StampsUpTo(Latest(map[]), limit)
    ensures StampsUpTo(TimeTravel(map[]), limit)
    ensures Keys.PrefixFree(universe) ==> Valid(TimeTravel(map[]), universe)
    ensures forall key :: Top(Latest(map[]), key) == None && Top(TimeTravel(map[]), key) == None
  {
  }

  // ---- The stores behind it ----

  /** The wrapped store: one of the two Badger stores. */
  datatype Wrapped = WithTimeTravel(versions: TimeTravelStore.Store) | WithoutTimeTravel(cells: LatestStore.Store) {

    function Db(): Db {
      if WithTimeTravel? then versions.db else cells.db
    }

    predicate HasWorkers() {
      if WithTimeTravel? then versions.numWorkers >= 1 else cells.numWorkers >= 1
    }

    ghost function Contents(): Back
      reads Db()
    {
      if WithTimeTravel? then TimeTravel(Db().kv) else Latest(Db().kv)
    }

    method SetAll(entries: seq<Entry>, ifNotExist: bool, blockNumber: U64)
      modifies Db()
      ensures Contents() == Put(old(Contents()), LastWins(entries), ifNotExist, blockNumber)
    {
      match this
      case WithTimeTravel(s) => s.SetAll(entries, ifNotExist, blockNumber);
      case WithoutTimeTravel(s) => s.SetAll(entries, ifNotExist, blockNumber);
    }

    method Get(keys: seq<Key>, blockNumber: U64) returns (r: Result<seq<Answer>, StoreError>)
      requires HasWorkers()
      ensures Gathers(Outcomes(Contents(), keys, blockNumber), r)
    {
      match this
      case WithTimeTravel(s) => r := s.Get(keys, blockNumber);
      case WithoutTimeTravel(s) => r := s.Get(keys, blockNumber);
    }

    method GetFirst(keys: seq<Key>, blockNumber: U64) returns (r: Result<seq<Answer>, StoreError>)
      requires HasWorkers()
      ensures Gathers(OutcomesFirst(Contents(), keys, blockNumber), r)
    {
      match this
      case WithTimeTravel(s) => r := s.GetFirst(keys, blockNumber);
      case WithoutTimeTravel(s) => r := s.GetFirst(keys, blockNumber);
    }
  }
}
