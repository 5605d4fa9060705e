/** The Badger store without time traversal. */
module LatestStore {
  import opened ByteOrder
  import opened Entries
  import opened FanOut
  import opened LatestCells
  import opened OrderedDb
  import Readers
  import opened Wrappers

  class Store {
    const db: Db
    const numWorkers: nat

    constructor (db: Db, numWorkers: nat)
      ensures this.db == db && this.numWorkers == numWorkers
    {
      this.db, this.numWorkers := db, numWorkers;
    }

    /** For each key its value, unless that was written after `blockNumber`. */
    method Get(keys: seq<Key>, blockNumber: U64) returns (r: Result<seq<Answer>, StoreError>)
      requires numWorkers >= 1
      ensures Gathers(Readers.LatestCell(blockNumber).Outcomes(db.kv, keys), r)
    {
      r := Readers.LatestCell(blockNumber).Gather(db, keys, numWorkers);
    }

    /** Without versions, the first value is the only one. */
    method GetFirst(keys: seq<Key>, blockNumber: U64) returns (r: Result<seq<Answer>, StoreError>)
      requires numWorkers >= 1
      ensures Gathers(Readers.LatestCell(blockNumber).Outcomes(db.kv, keys), r)
    {
      r := Get(keys, blockNumber);
    }

    method Set(entry: Entry, ifNotExist: bool, blockNumber: U64)
      modifies db
      ensures db.kv == Put(old(db.kv), map[entry.key := entry.value], ifNotExist, blockNumber)
    {
      if ifNotExist {
        var item := db.Get(entry.key);
        if item.Some? {
          return;
        }
      }
      var blockNumBytes := new Byte[8];
      PutUint64(blockNumBytes, 0, blockNumber);
      assert blockNumBytes[..] == EncodeU64(blockNumber);
      var valueWithBlockInfo := blockNumBytes[..] + entry.value;
      db.Update(entry.key, valueWithBlockInfo);
    }

    /** A batch of writes: every existence check sees the database as it was before the batch. */
    method SetAll(entries: seq<Entry>, ifNotExist: bool, blockNumber: U64)
      modifies db
      ensures db.kv == Put(old(db.kv), LastWins(entries), ifNotExist, blockNumber)
    {
      if |entries| == 0 {
        return;
      }
      var wb := new WriteBatch(db);
      for i := 0 to |entries|
        invariant db.kv == old(db.kv)
        invariant wb.pending == Cells(db.kv, LastWins(entries[..i]), ifNotExist, blockNumber)
      {
        var entry := entries[i];
        LastWinsStep(entries, i);
        CellsStep(db.kv, LastWins(entries[..i]), ifNotExist, blockNumber, entry.key, entry.value);
        if ifNotExist {
          var item := db.Get(entry.key);
          if item.Some? {
            continue;
          }
        }
        var blockNumBytes := new Byte[8];
        PutUint64(blockNumBytes, 0, blockNumber);
        assert blockNumBytes[..] == EncodeU64(blockNumber);
        var valueWithBlockInfo := blockNumBytes[..] + entry.value;
        wb.Set(entry.key, valueWithBlockInfo);
      }
      LastWinsWhole(entries);
      wb.Flush();
    }
  }
}
