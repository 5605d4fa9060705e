/** The Badger store with time traversal: one stored key for every version. */
module TimeTravelStore {
  import opened ByteOrder
  import opened Entries
  import opened FanOut
  import opened OrderedDb
  import Readers
  import opened TimeTravelKeys
  import opened TimeTravelWrites
  import opened Wrappers

  class Store {
    const db: Db
    const numWorkers: nat

    constructor (db: Db, numWorkers: nat)
      ensures this.db == db && this.numWorkers == numWorkers
    {
      this.db, this.numWorkers := db, numWorkers;
    }

    /** For each key its version at the greatest block at or below `blockNumber`. */
    method Get(keys: seq<Key>, blockNumber: U64) returns (r: Result<seq<Answer>, StoreError>)
      requires numWorkers >= 1
      ensures Gathers(Readers.LatestVersion(blockNumber).Outcomes(db.kv, keys), r)
    {
      r := Readers.LatestVersion(blockNumber).Gather(db, keys, numWorkers);
    }

    /** For each key its oldest version; the request's block number plays no part. */
    method GetFirst(keys: seq<Key>, blockNumber: U64) returns (r: Result<seq<Answer>, StoreError>)
      requires numWorkers >= 1
      ensures Gathers(Readers.Worker.OldestVersion.Outcomes(db.kv, keys), r)
    {
      r := Readers.Worker.OldestVersion.Gather(db, keys, numWorkers);
    }

    /** The prefix scan behind if-not-exist. */
    method Exists(key: Key) returns (found: bool)
      ensures found == HasPrefix(db.kv.Keys, key)
    {
      var item := db.Seek(key);
      found := item.Some? && key <= item.value;
    }

    method Set(entry: Entry, ifNotExist: bool, blockNumber: U64)
      modifies db
      ensures db.kv == Put(old(db.kv), map[entry.key := entry.value], ifNotExist, blockNumber)
    {
      PutOne(db.kv, entry.key, entry.value, ifNotExist, blockNumber);
      if ifNotExist {
        var found := Exists(entry.key);
        if found {
          return;
        }
      }
      var compositeKey := MakeTimeTraversalKey(entry.key, blockNumber);
      db.Update(compositeKey[..], entry.value);
    }

    /** A batch of writes: every existence check sees the database as it was before the batch. */
    method SetAll(entries: seq<Entry>, ifNotExist: bool, blockNumber: U64)
      modifies db
      ensures db.kv == Put(old(db.kv), LastWins(entries), ifNotExist, blockNumber)
    {
      if |entries| == 0 {
        PutNone(db.kv, ifNotExist, blockNumber);
        return;
      }
      EmptyBatch(db.kv, ifNotExist, blockNumber);
      var wb := new WriteBatch(db);
      for i := 0 to |entries|
        invariant db.kv == old(db.kv)
        invariant wb.pending == Encoded(Accepted(db.kv, LastWins(entries[..i]), ifNotExist), blockNumber)
      {
        var entry := entries[i];
        PendingStep(db.kv, entries, i, ifNotExist, blockNumber);
        if ifNotExist {
          var found := Exists(entry.key);
          if found {
            continue;
          }
        }
        var compositeKey := MakeTimeTraversalKey(entry.key, blockNumber);
        wb.Set(compositeKey[..], entry.value);
      }
      LastWinsWhole(entries);
      wb.Flush();
    }
  }
}
