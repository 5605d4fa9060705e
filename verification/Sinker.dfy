/** The sinker: turns the block stream into store operations and keeps the cursor to resume from. */
module Sinker {
  import opened ByteOrder
  import opened Entries
  import opened OrderedDb
  import opened SinkerSpec
  import opened Wrappers
  import ForkAware
  import Store = ForkAwareSpec

  class Sinker {
    const store: ForkAware.Store
    var cursorHistory: map<string, Cursor>
    var headBlock: U64
    var cursorFile: Option<Cursor>

    /** `cursor` is what was loaded from the cursor file, if there was one. */
    constructor (store: ForkAware.Store, cursor: Option<Cursor>)
      ensures this.store == store
      ensures View() == State(store.View(), map[], if cursor.Some? then cursor.value.head.num else 0, cursor)
    {
      this.store := store;
      cursorHistory := map[];
      headBlock := if cursor.Some? then cursor.value.head.num else 0;
      cursorFile := cursor;
    }

    ghost function View(): State
      reads this, store, store.wrapped.Db()
    {
      State(store.View(), cursorHistory, headBlock, cursorFile)
    }

    /** Deletes history cursors at or below `lib` while walking the map. Deletion goes by the cursor's own
        block id, so a cursor filed under another id would take its namesake with it. */
    method PruneHistory(lib: U64)
      modifies this`cursorHistory
      ensures WellKeyed(old(cursorHistory)) ==> cursorHistory == Prune(old(cursorHistory), lib)
      ensures cursorHistory.Keys <= old(cursorHistory).Keys
      ensures forall id :: id in cursorHistory ==> cursorHistory[id] == old(cursorHistory)[id]
    {
      var unseen := cursorHistory.Keys;
      while unseen != {}
        invariant cursorHistory.Keys <= old(cursorHistory).Keys
        invariant forall id :: id in cursorHistory ==> cursorHistory[id] == old(cursorHistory)[id]
        invariant WellKeyed(old(cursorHistory)) ==>
                    forall id :: id in old(cursorHistory) ==>
                      (id in cursorHistory <==> id in unseen || old(cursorHistory)[id].block.num > lib)
        decreases unseen
      {
        var id :| id in unseen;
        unseen := unseen - {id};
        if id in cursorHistory {
          var historyCursor := cursorHistory[id];
          if historyCursor.block.num <= lib {
            cursorHistory := cursorHistory - {historyCursor.block.id};
          }
        }
      }
    }

    /** A block's output, if it has one: its batch, then a flush up to the irreversible block. */
    method Process(data: BlockData, cursor: Cursor) returns (err: Option<StoreError>)
      requires store.wrapped.HasWorkers()
      modifies store, store.wrapped.Db()
      ensures err.Some? <==> BlockFails(old(View()), data)
      ensures store.View() == if err.Some? then old(store.View()) else StoreAfter(old(store.View()), data, cursor)
    {
      err := None;
      if data.output.Some? {
        var entries := data.output.value;
        err := store.SetAll(entries.entries, entries.ifNotExist, data.clock.num);
        if err.None? {
          store.FlushUpToBlock(cursor.lib.num, entries.ifNotExist);
        }
      }
    }

    /** One block of the stream. The sink stops on any error: of the store, which then has not changed, or
        of saving the cursor, when the block's writes and flush have already landed. */
    method HandleBlockScopedData(data: BlockData, cursor: Cursor, saves: bool) returns (err: Option<SinkError>)
      requires store.wrapped.HasWorkers()
      modifies this, store, store.wrapped.Db()
      ensures (err.Some? && err.value.StoreFailed?) <==> BlockFails(old(View()), data)
      ensures (err == Some(CursorNotSaved)) <==> !BlockFails(old(View()), data) && !saves
      ensures err == Some(CursorNotSaved) ==> View() == BlockUnsaved(old(View()), data, cursor)
      ensures err != Some(CursorNotSaved) ==>
                var expected := HandleBlock(old(View()), data, cursor);
                && View() == expected.(history := View().history)
                && (WellKeyed(old(cursorHistory)) && data.clock.id == cursor.block.id ==> View() == expected)
    {
      cursorHistory := cursorHistory[data.clock.id := cursor];
      var lib := cursor.lib.num;
      var storeErr := Process(data, cursor);
      if storeErr.Some? {
        return Some(StoreFailed(storeErr.value));
      }
      var libCursor := cursor;
      if cursor.lib.id in cursorHistory {
        libCursor := cursorHistory[cursor.lib.id];
      }
      if !saves {
        return Some(CursorNotSaved);
      }
      cursorFile := Some(libCursor);
      PruneHistory(lib);
      headBlock := data.clock.num;
      return None;
    }

    /** The chain falls back to `lastValidBlock`. A cursor that does not get saved is only logged. */
    method HandleBlockUndoSignal(lastValidBlock: U64, cursor: Cursor, saves: bool)
      modifies this, store
      ensures View() == HandleUndo(old(View()), lastValidBlock, cursor)
                        .(cursorFile := if saves then Some(cursor) else old(cursorFile))
    {
      headBlock := lastValidBlock;
      store.EvictUpToBlock(lastValidBlock);
      if saves {
        cursorFile := Some(cursor);
      }
    }
  }

  /** What a new process finds: the same database and cursor file, everything else fresh. */
  method RestartProcess(before: Sinker) returns (after: Sinker)
    ensures fresh(after) && fresh(after.store)
    ensures after.View() == Restart(before.View())
  {
    var store := new ForkAware.Store(before.store.wrapped);
    after := new Sinker(store, before.cursorFile);
  }
}
