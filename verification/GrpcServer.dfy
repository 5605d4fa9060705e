/**
 The query service: a request about a block past the head is turned away, any other is passed to the
 fork-aware store. The theorems say what clients are told after whole runs of the sinker.
 */
module GrpcServer {
  import opened ByteOrder
  import opened Chain
  import opened CrashRecovery
  import opened CursorFile
  import opened Entries
  import opened FirstReads
  import opened ForkAwareSpec
  import opened ForkRuns
  import opened KeyView
  import opened ServiceReads
  import opened SinkerSpec
  import opened Wrappers
  import First = IfNotExistRuns
  import ForkAware
  import Sinker

  /** `block_reached` and, if it is set, the entries. */
  datatype Reply = NotReached | Reached(entries: seq<Answer>)

  ghost predicate Replies(st: SinkerSpec.State, keys: seq<Key>, b: U64, r: Result<Reply, StoreError>) {
    if !GateOpen(st, b) then r == Ok(NotReached)
    else match r
      case Ok(reply) => reply.Reached? && Responds(st.store, keys, b, Ok(reply.entries))
      case Err(e) => Responds(st.store, keys, b, Err(e))
  }

  ghost predicate RepliesFirst(st: SinkerSpec.State, keys: seq<Key>, b: U64, r: Result<Reply, StoreError>) {
    if !GateOpen(st, b) then r == Ok(NotReached)
    else match r
      case Ok(reply) => reply.Reached? && RespondsFirst(st.store, keys, b, Ok(reply.entries))
      case Err(e) => RespondsFirst(st.store, keys, b, Err(e))
  }

  class Server {
    const store: ForkAware.Store
    const sinker: Sinker.Sinker

    /** The head block is fetched from the sinker that writes to the store. */
    constructor (sinker: Sinker.Sinker)
      ensures this.sinker == sinker && store == sinker.store
    {
      this.sinker := sinker;
      store := sinker.store;
    }

    method Get(keys: seq<Key>, blockNumber: U64) returns (r: Result<Reply, StoreError>)
      requires store == sinker.store && store.wrapped.HasWorkers()
      ensures Replies(sinker.View(), keys, blockNumber, r)
    {
      var headBlock := sinker.headBlock;
      if headBlock < blockNumber {
        return Ok(NotReached);
      }
      var entries := store.Get(keys, blockNumber);
      if entries.Err? {
        return Err(entries.error);
      }
      return Ok(Reached(entries.value));
    }

    method GetFirst(keys: seq<Key>, blockNumber: U64) returns (r: Result<Reply, StoreError>)
      requires store == sinker.store && store.wrapped.HasWorkers()
      ensures RepliesFirst(sinker.View(), keys, blockNumber, r)
    {
      var headBlock := sinker.headBlock;
      if headBlock < blockNumber {
        return Ok(NotReached);
      }
      var entries := store.GetFirst(keys, blockNumber);
      if entries.Err? {
        return Err(entries.error);
      }
      return Ok(Reached(entries.value));
    }
  }

  // ---- The head over whole runs ----

  /** The head by the events alone: the last block, or the last valid block of an undo; after a restart the chain's
      head in the cursor that was saved last. */
  function HeadAfter(file: Option<Cursor>, events: seq<Event>): U64
    requires |events| > 0
  {
    match events[|events| - 1]
    case BlockEvent(data, _) => data.clock.num
    case UndoEvent(lastValid, _) => lastValid
    case RestartEvent =>
      match FileAfter(file, events)
      case Some(cursor) => cursor.head.num
      case None => 0
  }

  /** After any legal run the gate is open exactly up to that head. */
  lemma {:induction false} GateExact(start: Run, events: seq<Event>, universe: iset<Key>, b: U64)
    requires RunInv(start, universe) && start.sys.history == map[] && Legal(start, events, universe) && |events| > 0
    ensures GateOpen(Exec(start, events).sys, b) <==> b <= HeadAfter(start.sys.cursorFile, events)
  {
    var front, last := events[..|events| - 1], events[|events| - 1];
    assert events == front + [last];
    LegalSnoc(start, front, last, universe);
    ExecSnoc(start, front, last);
    FileIsSaved(start, front, universe);
    var before := Exec(start, front);
    if last.BlockEvent? {
      BlockSound(before.sys, universe, before.settled, last.data, last.cursor);
    }
  }

  /** Restarting again leaves the gate where the first restart put it. */
  lemma {:induction false} GateAfterRestarts(start: Run, events: seq<Event>, universe: iset<Key>, n: nat, b: U64)
    requires RunInv(start, universe) && start.sys.history == map[] && Legal(start, events, universe) && n > 0
    ensures GateOpen(Restarted(Exec(start, events), n).sys, b)
       <==> b <= match FileAfter(start.sys.cursorFile, events)
                 case Some(cursor) => cursor.head.num
                 case None => 0
  {
    FileIsSaved(start, events, universe);
    RestartsSettle(Exec(start, events), universe, n);
  }

  // ---- What clients are told ----

  /** What a client should be told after an if-not-exist run, at or above the flush point. */
  ghost predicate ToldFirstWrites(run: Run, keys: seq<Key>, b: U64, head: U64, r: Result<Reply, StoreError>) {
    if b > head then r == Ok(NotReached)
    else
      && r.Ok? && r.value.Reached? && |r.value.entries| == |keys|
      && forall i :: 0 <= i < |keys| ==> r.value.entries[i] == First.FirstWriteAnswer(run.chain, keys[i], b)
  }

  /**
   Served reads. After every legal if-not-exist run, over either store, a `Get` about a block past the head is
   turned away, and any other at or above the flush point is told, key by key, the first write among the
   surviving blocks at or below the block asked about.
   */
  lemma {:induction false} ServedGet(start: Run, events: seq<Event>, universe: iset<Key>, keys: seq<Key>, b: U64,
                                     r: Result<Reply, StoreError>)
    requires IsStart(start, universe) && Legal(start, events, universe) && InOneMode(events, true) && |events| > 0
    requires (forall k :: k in keys ==> k in universe) && Exec(start, events).settled <= b
    requires Replies(Exec(start, events).sys, keys, b, r)
    ensures ToldFirstWrites(Exec(start, events), keys, b, HeadAfter(None, events), r)
  {
    StartInv(start, universe);
    GateExact(start, events, universe, b);
    if GateOpen(Exec(start, events).sys, b) {
      var response := if r.Ok? then Ok(r.value.entries) else Err(r.error);
      First.RequestRefinement(start, events, universe, keys, b, response);
    }
  }

  /** The same for `GetFirst`. */
  lemma {:induction false} ServedGetFirst(start: Run, events: seq<Event>, universe: iset<Key>, keys: seq<Key>, b: U64,
                                          r: Result<Reply, StoreError>)
    requires IsStart(start, universe) && Legal(start, events, universe) && InOneMode(events, true) && |events| > 0
    requires (forall k :: k in keys ==> k in universe) && Exec(start, events).settled <= b
    requires RepliesFirst(Exec(start, events).sys, keys, b, r)
    ensures ToldFirstWrites(Exec(start, events), keys, b, HeadAfter(None, events), r)
  {
    StartInv(start, universe);
    GateExact(start, events, universe, b);
    if GateOpen(Exec(start, events).sys, b) {
      var response := if r.Ok? then Ok(r.value.entries) else Err(r.error);
      FirstRefinement(start, events, universe, keys, b, response);
    }
  }

  // ---- A block that fails ----

  /** A block the store cannot take leaves no trace: answers, gate and what a restart finds are as before. */
  lemma FailedBlockLeavesNoTrace(st: SinkerSpec.State, data: BlockData, cursor: Cursor)
    requires BlockFails(st, data)
    ensures var st' := HandleBlock(st, data, cursor);
            && (forall key, b: U64 :: ReadKey(st'.store, key, b) == ReadKey(st.store, key, b))
            && (forall b: U64 :: GateOpen(st', b) <==> GateOpen(st, b))
            && Restart(st') == Restart(st)
  {
  }

  /** A block whose cursor does not get saved is not announced: the gate and the place to resume from stay. */
  lemma UnsavedBlockKeepsPlace(st: SinkerSpec.State, data: BlockData, cursor: Cursor)
    ensures var st' := BlockUnsaved(st, data, cursor);
            && (forall b: U64 :: GateOpen(st', b) <==> GateOpen(st, b))
            && (forall b: U64 :: GateOpen(Restart(st'), b) <==> GateOpen(Restart(st), b))
            && FileBlock(Restart(st').cursorFile) == FileBlock(st.cursorFile)
  {
  }
}
