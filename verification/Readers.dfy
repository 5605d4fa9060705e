/**
 What the goroutines of the readers do, and the fan-out that runs them: one worker a key, at most
 `numWorkers` of them past the semaphore at a time, scheduled in any order.
 */
module Readers {
  import opened ByteOrder
  import opened Entries
  import opened FanOut
  import opened OrderedDb
  import opened TimeTravelKeys
  import opened Wrappers
  import Cells = LatestCells
  import Lookups = TimeTravelLookup

  /** The read transaction a request runs for each of its keys. */
  datatype Worker = LatestVersion(blockNumber: U64) | OldestVersion | LatestCell(blockNumber: U64) {

    ghost function Finds(kv: map<Bytes, Bytes>, key: Key): Lookup {
      match this
      case LatestVersion(b) => Lookups.Read(kv, key, b)
      case OldestVersion => Lookups.ReadFirst(kv, key)
      case LatestCell(b) => Cells.Read(kv, key, b)
    }

    /** What the workers of a request come back with. */
    ghost function Outcomes(kv: map<Bytes, Bytes>, keys: seq<Key>): (r: seq<Result<Answer, StoreError>>)
      ensures |r| == |keys|
    {
      seq(|keys|, i requires 0 <= i < |keys| => Outcome(keys[i], Finds(kv, keys[i])))
    }

    method LookUp(db: Db, key: Key) returns (r: Result<Answer, StoreError>)
      ensures r == Outcome(key, Finds(db.kv, key))
    {
      match this
      case LatestVersion(b) => r := LookUpVersion(db, key, b);
      case OldestVersion => r := LookUpFirst(db, key);
      case LatestCell(b) => r := LookUpCell(db, key, b);
    }

    /** The whole request: every schedule of the workers ends in the sequential answer. */
    method Gather(db: Db, keys: seq<Key>, numWorkers: nat) returns (r: Result<seq<Answer>, StoreError>)
      requires numWorkers >= 1
      ensures Gathers(Outcomes(db.kv, keys), r)
    {
      ghost var outcomes := Outcomes(db.kv, keys);
      var fan := Start<Answer, StoreError>(|keys|);
      StartInv(outcomes, numWorkers);
      while !AllDone(fan)
        invariant Inv(fan, outcomes, numWorkers)
        decreases Remaining(fan.phases)
      {
        NeverStuck(fan, outcomes, numWorkers);
        var i :| 0 <= i < |fan.phases| && Enabled(fan, numWorkers, i);
        TurnKeeps(fan, outcomes, numWorkers, i);
        if fan.phases[i].Holding? {
          var outcome := LookUp(db, keys[i]);
          fan := Deliver(fan, i, outcome);
        } else {
          fan := Advance(fan, i);
        }
      }
      DoneGathers(fan, outcomes, numWorkers);
      r := Collect(fan);
    }
  }

  /** The time-travel store's `Get`: one forward seek. The source's iterator loop leaves at its first item. */
  method LookUpVersion(db: Db, key: Key, blockNumber: U64) returns (r: Result<Answer, StoreError>)
    ensures r == Outcome(key, Lookups.Read(db.kv, key, blockNumber))
  {
    var start := MakeTimeTraversalKey(key, blockNumber);
    var oldest := MakeTimeTraversalKey(key, 0);
    var exclusiveEnd := oldest[..] + [0];
    var item := db.Seek(start[..]);
    if item.Some? && Less(item.value, exclusiveEnd) {
      r := Ok(Found(key, db.kv[item.value]));
    } else {
      r := Ok(NotFound(key));
    }
  }

  /** The bounds around all of a key's versions: the key and eight zeros; the key, eight `FF`s and a zero. */
  method Bounds(key: Key) returns (begin: array<Byte>, end: array<Byte>)
    ensures begin[..] == Lookups.FirstBegin(key) && end[..] == Lookups.FirstEnd(key)
  {
    begin := new Byte[|key| + 8](i => 0);
    for i := 0 to |key|
      invariant begin[..i] == key[..i]
      invariant forall j :: |key| <= j < |key| + 8 ==> begin[j] == 0
    {
      begin[i] := key[i];
    }
    assert begin[|key|..] == [0, 0, 0, 0, 0, 0, 0, 0];
    assert begin[..] == begin[..|key|] + begin[|key|..];
    end := new Byte[|key| + 9](i => 0);
    for i := 0 to |key|
      invariant begin[..] == Lookups.FirstBegin(key)
      invariant end[..i] == key[..i]
    {
      end[i] := key[i];
    }
    for i := |key| to |key| + 8
      invariant begin[..] == Lookups.FirstBegin(key)
      invariant end[..|key|] == key
      invariant forall j :: |key| <= j < i ==> end[j] == 0xFF
    {
      end[i] := 0xFF;
    }
    end[|key| + 8] := 0x00;
    assert end[|key|..] == [255, 255, 255, 255, 255, 255, 255, 255, 0];
    assert end[..] == end[..|key|] + end[|key|..];
  }

  /** The time-travel store's `GetFirst`: one reverse seek. */
  method LookUpFirst(db: Db, key: Key) returns (r: Result<Answer, StoreError>)
    ensures r == Outcome(key, Lookups.ReadFirst(db.kv, key))
  {
    var begin, end := Bounds(key);
    var item := db.SeekReverse(end[..]);
    if item.Some? && !Less(item.value, begin[..]) && Less(item.value, end[..]) {
      r := Ok(Found(key, db.kv[item.value]));
    } else {
      r := Ok(NotFound(key));
    }
  }

  /** The other store's `Get`: one cell, decoded and checked against the block asked about. */
  method LookUpCell(db: Db, key: Key, blockNumber: U64) returns (r: Result<Answer, StoreError>)
    ensures r == Outcome(key, Cells.Read(db.kv, key, blockNumber))
  {
    var item := db.Get(key);
    if item.None? {
      return Ok(NotFound(key));
    }
    var storedValue := item.value;
    if |storedValue| < 8 {
      return Err(InvalidStoredValue(key));
    }
    var stamp := DecodeU64(storedValue[..8]);
    var actualValue := storedValue[8..];
    if blockNumber < stamp {
      return Ok(NotFound(key));
    }
    return Ok(Found(key, actualValue));
  }
}
