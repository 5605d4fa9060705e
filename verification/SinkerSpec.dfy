/**
 The sinker as a state machine: what one block, one undo signal and one restart do to the store, the
 cursor history, the head block and the cursor file.
 */
module SinkerSpec {
  import opened ByteOrder
  import opened Entries
  import opened Wrappers
  import Store = ForkAwareSpec

  datatype BlockRef = BlockRef(id: string, num: U64)

  /** A stream position: the block it stands at, the last irreversible block then, and the chain's head then. */
  datatype Cursor = Cursor(block: BlockRef, lib: BlockRef, head: BlockRef)

  datatype SinkEntries = SinkEntries(entries: seq<Entry>, ifNotExist: bool)

  datatype BlockData = BlockData(clock: BlockRef, output: Option<SinkEntries>)

  /** Why the sink stops at a block. */
  datatype SinkError = StoreFailed(cause: StoreError) | CursorNotSaved

  datatype State = State(store: Store.State, history: map<string, Cursor>, headBlock: U64, cursorFile: Option<Cursor>)

  /** The cursors a pruning pass keeps. */
  function Prune(history: map<string, Cursor>, lib: U64): map<string, Cursor> {
    history - (set id | id in history && history[id].block.num <= lib)
  }

  /** Each cursor is filed under its own block. */
  ghost predicate WellKeyed(history: map<string, Cursor>) {
    forall id :: id in history ==> history[id].block.id == id
  }

  /** The cursor to resume from: the irreversible block's own, if it is on file, else the current one. */
  function CursorToSave(history: map<string, Cursor>, cursor: Cursor): Cursor {
    if cursor.lib.id in history then history[cursor.lib.id] else cursor
  }

  ghost predicate BlockFails(st: State, data: BlockData) {
    data.output.Some? &&
    Store.SetAllFails(st.store, LastWins(data.output.value.entries), data.output.value.ifNotExist, data.clock.num)
  }

  /** The store after a block: its batch, then a flush up to the irreversible block; nothing without output. */
  ghost function StoreAfter(store: Store.State, data: BlockData, cursor: Cursor): Store.State {
    match data.output
    case Some(out) =>
      Store.Flush(Store.SetAll(store, LastWins(out.entries), out.ifNotExist, data.clock.num), cursor.lib.num,
          out.ifNotExist)
    case None => store
  }

  ghost function HandleBlock(st: State, data: BlockData, cursor: Cursor): State {
    var history := st.history[data.clock.id := cursor];
    if BlockFails(st, data) then st.(history := history)
    else State(StoreAfter(st.store, data, cursor),
               Prune(history, cursor.lib.num),
               data.clock.num,
               Some(CursorToSave(history, cursor)))
  }

  /** A block whose flush has landed and whose cursor did not get saved: nothing after the save is done. */
  ghost function BlockUnsaved(st: State, data: BlockData, cursor: Cursor): State {
    st.(store := StoreAfter(st.store, data, cursor), history := st.history[data.clock.id := cursor])
  }

  ghost function HandleUndo(st: State, lastValid: U64, cursor: Cursor): State {
    st.(store := Store.Evict(st.store, lastValid), headBlock := lastValid, cursorFile := Some(cursor))
  }

  /** The process dies and comes back: the wrapped store and the cursor file are all that is left. */
  ghost function Restart(st: State): State {
    State(Store.State(st.store.back, map[], 0),
          map[],
          if st.cursorFile.Some? then st.cursorFile.value.head.num else 0,
          st.cursorFile)
  }
}
