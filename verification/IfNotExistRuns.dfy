/**
 If-not-exist mode: after any legal run, every read at or above the flush point answers with the first
 write of the key among the surviving blocks at or below the block asked about.
 */
module IfNotExistRuns {
  import opened Backing
  import opened ByteOrder
  import opened Chain
  import opened Entries
  import opened ForkAwareSpec
  import opened ForkRuns
  import opened KeyView
  import opened SinkerSpec
  import opened Wrappers

  /** The slot holds the standing write if it is not flushed, the store below the one that is. */
  ghost predicate InSync(chain: seq<Block>, settled: U64, ks: KeyState, key: Key) {
    && Increasing(chain) && Uniform(chain, true)
    && ks.slot == SlotOf(Writer(chain, key), settled)
    && ks.top == ValueOf(Writer(UpTo(chain, settled), key))
  }

  /** A key with a standing write has a slot or a top value, so the existence check sees it. */
  lemma WrittenIsVisible(chain: seq<Block>, settled: U64, ks: KeyState, key: Key)
    requires InSync(chain, settled, ks, key)
    ensures Writer(chain, key).None? <==> ks.slot.None? && ks.top.None?
  {
    WriterUpTo(chain, key, settled);
  }

  /** A block's batch: the key is accepted exactly if the chain has no write of it yet. */
  lemma {:induction false} WriteInSync(chain: seq<Block>, settled: U64, ks: KeyState, key: Key, blk: Block)
    requires InSync(chain, settled, ks, key) && InMode(blk, true)
    requires settled < blk.num && forall i :: 0 <= i < |chain| ==> chain[i].num < blk.num
    ensures InSync(chain + [blk], settled, WriteKey(ks, Mention(LastWins(blk.entries), key), true, blk.num), key)
  {
    ShapeSnoc(chain, blk, true);
    UpToSnoc(chain, blk, settled);
    WrittenIsVisible(chain, settled, ks, key);
    FirstSnoc(chain, blk, key);
    SlotAfterWrite(Writer(chain, key), ks, Mention(LastWins(blk.entries), key), settled, blk.num);
  }

  lemma {:induction false} FirstSnoc(chain: seq<Block>, blk: Block, key: Key)
    requires InMode(blk, true)
    ensures Writer(chain + [blk], key) == FirstOf(Writer(chain, key), Mention(LastWins(blk.entries), key), blk.num)
  {
    WriterSnoc(chain, blk, key);
    if blk.entries == [] {
      assert !Chain.Writes(blk, key);
    }
  }

  function FirstOf(w: Option<Write>, mention: Option<Value>, num: U64): Option<Write> {
    if w.None? && mention.Some? then Some(Write(num, mention.value)) else w
  }

  lemma SlotAfterWrite(w: Option<Write>, ks: KeyState, mention: Option<Value>, settled: U64, num: U64)
    requires ks.slot == SlotOf(w, settled) && (w.None? <==> ks.slot.None? && ks.top.None?) && settled < num
    ensures WriteKey(ks, mention, true, num).slot == SlotOf(FirstOf(w, mention, num), settled)
    ensures WriteKey(ks, mention, true, num).top == ks.top
  {
  }

  lemma {:induction false} BlockInSync(chain: seq<Block>, settled: U64, ks: KeyState, key: Key,
                                       data: BlockData, lib: U64)
    requires InSync(chain, settled, ks, key)
    requires settled < data.clock.num && forall i :: 0 <= i < |chain| ==> chain[i].num < data.clock.num
    requires data.output.Some? ==> data.output.value.ifNotExist
    ensures InSync(chain + [AsBlock(data)], SettledAfter(settled, data, lib), BlockKey(ks, data, lib, key), key)
  {
    var blk := AsBlock(data);
    WriteInSync(chain, settled, ks, key, blk);
    if data.output.Some? {
      FlushInSync(chain + [blk], settled, WriteKey(ks, Mention(LastWins(blk.entries), key), true, blk.num), key,
          lib, true);
    }
  }

  lemma {:induction false} FlushInSync(chain: seq<Block>, settled: U64, ks: KeyState, key: Key, lib: U64,
                                       ifNotExist: bool)
    requires InSync(chain, settled, ks, key)
    ensures InSync(chain, Max(settled, lib), FlushKey(ks, lib, ifNotExist), key)
  {
    WriterUpTo(chain, key, settled);
    WriterUpTo(chain, key, lib);
    WriterBounded(chain, key, settled);
    WriterBounded(chain, key, lib);
  }

  /** Cutting the chain at or above the flush point drops exactly the slots above the cut. */
  lemma {:induction false} CutInSync(chain: seq<Block>, settled: U64, ks: KeyState, key: Key, bound: int)
    requires InSync(chain, settled, ks, key) && settled <= bound
    ensures InSync(UpTo(chain, bound), settled,
                   if ks.slot.Some? && ks.slot.value.blockNumber > bound then ks.(slot := None) else ks, key)
  {
    UpToKeepsShape(chain, bound);
    UpToUpTo(chain, bound, settled);
    WriterUpTo(chain, key, bound);
    WriterBounded(chain, key, bound);
  }

  ghost predicate RunInSync(run: Run, universe: iset<Key>, key: Key) {
    && RunInv(run, universe) && key in universe
    && InSync(run.chain, run.settled, Project(run.sys.store, key), key)
  }

  lemma StepInSync(run: Run, e: Event, universe: iset<Key>, key: Key)
    requires RunInSync(run, universe, key) && LegalStep(run, e, universe)
    requires EventInMode(e, true)
    ensures RunInSync(Step(run, e), universe, key)
  {
    StepKeeps(run, e, universe);
    StepProjects(run, e, universe, key);
    var ks := Project(run.sys.store, key);
    match e
    case BlockEvent(data, cursor) => BlockInSync(run.chain, run.settled, ks, key, data, cursor.lib.num);
    case UndoEvent(lastValid, _) => CutInSync(run.chain, run.settled, ks, key, UndoBound(lastValid, run.settled));
    case RestartEvent => CutInSync(run.chain, run.settled, ks, key, run.settled);
  }

  lemma {:induction false} ExecInSync(run: Run, events: seq<Event>, universe: iset<Key>, key: Key)
    requires RunInSync(run, universe, key) && Legal(run, events, universe) && InOneMode(events, true)
    ensures RunInSync(Exec(run, events), universe, key)
    decreases |events|
  {
    if |events| > 0 {
      StepInSync(run, events[0], universe, key);
      ExecInSync(Step(run, events[0]), events[1..], universe, key);
    }
  }

  lemma {:induction false} InSyncReads(run: Run, universe: iset<Key>, key: Key, b: U64)
    requires RunInSync(run, universe, key) && run.settled <= b
    ensures ReadKey(run.sys.store, key, b) == Answering(Writer(UpTo(run.chain, b), key))
  {
    ReadProjects(run.sys.store, universe, run.settled, key, b);
    WriterUpTo(run.chain, key, b);
    WriterUpTo(run.chain, key, run.settled);
    WriterBounded(run.chain, key, run.settled);
    WriterBounded(run.chain, key, b);
  }

  /**
   Fork refinement. For every legal if-not-exist run from an empty store, every key and every block at or
   above the last flush point: the answer is the write that stands in the surviving chain cut at that block,
   which is the first one (or NOT_FOUND if there is none).
   */
  lemma {:induction false} ForkRefinement(start: Run, events: seq<Event>, universe: iset<Key>, key: Key, b: U64)
    requires IsStart(start, universe) && Legal(start, events, universe) && InOneMode(events, true)
    requires key in universe && Exec(start, events).settled <= b
    ensures var run := Exec(start, events);
            var chain := UpTo(run.chain, b);
            && ReadsAs(run.sys.store, run.chain, key, b)
            && (Writer(chain, key).None? ==> !Mentions(chain, key))
            && (Writer(chain, key).Some? ==>
                  exists i: nat :: IsFirstWrite(chain, key, i) && Writer(chain, key) == Some(WriteOf(chain[i], key)))
  {
    StartInv(start, universe);
    ExecInSync(start, events, universe, key);
    var run := Exec(start, events);
    InSyncReads(run, universe, key, b);
    UpToKeepsShape(run.chain, b);
    WriterIsFirst(UpTo(run.chain, b), key);
  }

  /** Asked at block `b`, the store answers about `key` as `chain` does. */
  ghost predicate ReadsAs(st: ForkAwareSpec.State, chain: seq<Block>, key: Key, b: U64) {
    ReadKey(st, key, b) == Answering(Writer(UpTo(chain, b), key))
  }

  /** The answer a request should get for `key` at block `b`: its first write in the chain cut at `b`. */
  function FirstWriteAnswer(chain: seq<Block>, key: Key, b: U64): Answer {
    match Writer(UpTo(chain, b), key)
    case Some(w) => Found(key, w.value)
    case None => NotFound(key)
  }

  /** The same for whole requests: whatever a `Get` over the run's state responds with, it is no error, and
      position by position the first surviving write of the requested key. */
  lemma {:induction false} RequestRefinement(start: Run, events: seq<Event>, universe: iset<Key>,
                                             keys: seq<Key>, b: U64,
                                             r: Result<seq<Answer>, StoreError>)
    requires IsStart(start, universe) && Legal(start, events, universe) && InOneMode(events, true)
    requires (forall k :: k in keys ==> k in universe) && Exec(start, events).settled <= b
    requires Responds(Exec(start, events).sys.store, keys, b, r)
    ensures r.Ok? && |r.value| == |keys|
    ensures forall i :: 0 <= i < |keys| ==> r.value[i] == FirstWriteAnswer(Exec(start, events).chain, keys[i], b)
  {
    forall k | k in keys
      ensures !Read(Exec(start, events).sys.store.back, k, b).Corrupt?
      ensures Outcome(k, ReadKey(Exec(start, events).sys.store, k, b))
                == Ok(FirstWriteAnswer(Exec(start, events).chain, k, b))
    {
      KeyAnswers(start, events, universe, k, b);
    }
  }

  lemma {:induction false} KeyAnswers(start: Run, events: seq<Event>, universe: iset<Key>, key: Key, b: U64)
    requires IsStart(start, universe) && Legal(start, events, universe) && InOneMode(events, true)
    requires key in universe && Exec(start, events).settled <= b
    ensures !Read(Exec(start, events).sys.store.back, key, b).Corrupt?
    ensures Outcome(key, ReadKey(Exec(start, events).sys.store, key, b))
              == Ok(FirstWriteAnswer(Exec(start, events).chain, key, b))
  {
    StartInv(start, universe);
    ExecInSync(start, events, universe, key);
    InSyncAnswers(Exec(start, events), universe, key, b);
  }

  lemma {:induction false} InSyncAnswers(run: Run, universe: iset<Key>, key: Key, b: U64)
    requires RunInSync(run, universe, key) && run.settled <= b
    ensures !Read(run.sys.store.back, key, b).Corrupt?
    ensures Outcome(key, ReadKey(run.sys.store, key, b)) == Ok(FirstWriteAnswer(run.chain, key, b))
  {
    ReadAbove(run.sys.store.back, universe, run.settled, key, b);
    InSyncReads(run, universe, key, b);
  }

  /** The standing write of the chain is an unflushed write of its last block. */
  ghost predicate StandsAtTip(valid: seq<Block>, key: Key, tip: U64, settled: U64) {
    Writer(valid, key).Some? && Writer(valid, key).value.num == tip && settled < tip
  }

  /**
   An undo to the last valid block `n` also drops what block `n` itself wrote. Reads after the undo agree
   with the valid chain (blocks up to and including `n`) for a key exactly when the key's first write is
   not an unflushed write of block `n`.
   */
  lemma {:induction false} UndoKeepsValidChain(start: Run, events: seq<Event>, universe: iset<Key>, key: Key,
                                               lastValid: U64, cursor: Cursor)
    requires IsStart(start, universe) && Legal(start, events, universe) && InOneMode(events, true)
    requires key in universe && Exec(start, events).settled <= lastValid
    ensures var run := Exec(start, events);
            var valid := UpTo(run.chain, lastValid);
            var after := Step(run, UndoEvent(lastValid, cursor)).sys.store;
            (forall b: U64 | run.settled <= b :: ReadsAs(after, valid, key, b))
            <==> !StandsAtTip(valid, key, lastValid, run.settled)
  {
    StartInv(start, universe);
    ExecInSync(start, events, universe, key);
    var run := Exec(start, events);
    var after := Step(run, UndoEvent(lastValid, cursor)).sys.store;
    var valid := UpTo(run.chain, lastValid);
    if StandsAtTip(valid, key, lastValid, run.settled) {
      ReadAfterUndo(run, universe, key, lastValid, cursor, lastValid);
      assert !ReadsAs(after, valid, key, lastValid);
    } else {
      forall b: U64 | run.settled <= b
        ensures ReadsAs(after, valid, key, b)
      {
        ReadAfterUndo(run, universe, key, lastValid, cursor, b);
      }
    }
  }

  /** Such a run, from an empty store of either kind: block 5 writes `key`, and an undo back to block 5 itself
      takes the write away. */
  lemma {:induction false} UndoDropsTipWrite(start: Run, key: Key, value: Value, cursor: Cursor)
    requires IsStart(start, iset{key})
    ensures var b3, b5 := BlockRef("b3", 3), BlockRef("b5", 5);
            var events := [OneWrite(Cursor(b5, b3, b5), key, value, true)];
            var run := Exec(start, events);
            && Legal(start, events, iset{key}) && InOneMode(events, true)
            && StandsAtTip(UpTo(run.chain, 5), key, 5, run.settled)
            && Writer(UpTo(run.chain, 5), key) == Some(Write(5, value))
            && ReadKey(Step(run, UndoEvent(5, cursor)).sys.store, key, 5) == Miss
  {
    var b3, b5 := BlockRef("b3", 3), BlockRef("b5", 5);
    var five, undo := OneWrite(Cursor(b5, b3, b5), key, value, true), UndoEvent(5, cursor);
    StartInv(start, iset{key});
    OneWriteStep(start, five.cursor, key, value, true);
    ExecPair(start, five, undo, iset{key});
    UpToWhole(Step(start, five).chain, 5);
    UndoDropsSlot(Step(start, five), undo, key, value);
  }

  lemma {:induction false} UndoDropsSlot(run: Run, undo: Event, key: Key, value: Value)
    requires RunInv(run, iset{key}) && run.settled == 3
    requires Project(run.sys.store, key) == KeyState(Some(Cached(value, 5)), None)
    requires undo.UndoEvent? && undo.lastValid == 5
    ensures ReadKey(Step(run, undo).sys.store, key, 5) == Miss
  {
    StepKeeps(run, undo, iset{key});
    StepProjects(run, undo, iset{key}, key);
    ReadProjects(Step(run, undo).sys.store, iset{key}, 3, key, 5);
  }

  lemma ReadAfterUndo(run: Run, universe: iset<Key>, key: Key, lastValid: U64, cursor: Cursor, b: U64)
    requires RunInSync(run, universe, key) && run.settled <= lastValid && run.settled <= b
    ensures var valid := UpTo(run.chain, lastValid);
            var after := Step(run, UndoEvent(lastValid, cursor)).sys.store;
            && (!StandsAtTip(valid, key, lastValid, run.settled) ==> ReadsAs(after, valid, key, b))
            && (StandsAtTip(valid, key, lastValid, run.settled) && b == lastValid ==> !ReadsAs(after, valid, key, b))
  {
    ReadAfterCut(run, universe, key, lastValid, cursor, b);
    ChainAfterCut(run.chain, key, lastValid, run.settled, b);
  }

  lemma ReadAfterCut(run: Run, universe: iset<Key>, key: Key, lastValid: U64, cursor: Cursor, b: U64)
    requires RunInSync(run, universe, key) && run.settled <= lastValid && run.settled <= b
    ensures ReadsAs(Step(run, UndoEvent(lastValid, cursor)).sys.store,
                    UpTo(run.chain, UndoBound(lastValid, run.settled)), key, b)
  {
    StepInSync(run, UndoEvent(lastValid, cursor), universe, key);
    InSyncReads(Step(run, UndoEvent(lastValid, cursor)), universe, key, b);
  }

  lemma ChainAfterCut(chain: seq<Block>, key: Key, lastValid: U64, settled: U64, b: U64)
    requires Increasing(chain) && Uniform(chain, true) && settled <= lastValid
    ensures var valid, cut := UpTo(chain, lastValid), UpTo(chain, UndoBound(lastValid, settled));
            var same := Answering(Writer(UpTo(cut, b), key)) == Answering(Writer(UpTo(valid, b), key));
            && (!StandsAtTip(valid, key, lastValid, settled) ==> same)
            && (StandsAtTip(valid, key, lastValid, settled) && b == lastValid ==> !same)
  {
    if settled < lastValid {
      var valid, cut := UpTo(chain, lastValid), UpTo(chain, lastValid - 1);
      assert Increasing(valid) && Uniform(valid, true) && UpTo(valid, lastValid - 1) == cut by {
        UpToKeepsShape(chain, lastValid);
        UpToUpTo(chain, lastValid, lastValid - 1);
      }
      CutEarly(valid, key, lastValid, b);
      if StandsAtTip(valid, key, lastValid, settled) {
      } else {
        assert Writer(UpTo(cut, b), key) == Writer(UpTo(valid, b), key);
      }
    } else {
      assert UndoBound(lastValid, settled) == lastValid;
    }
  }

  /** Cutting a chain that ends at `last` one block early is noticed only if the standing write is of
      block `last`, and then by a read at `last`. */
  lemma CutEarly(valid: seq<Block>, key: Key, last: U64, b: U64)
    requires Increasing(valid) && Uniform(valid, true) && (forall i :: 0 <= i < |valid| ==> valid[i].num <= last)
    ensures var w, cut := Writer(valid, key), Writer(UpTo(UpTo(valid, last - 1), b), key);
            && (w.Some? && w.value.num == last && b == last ==> cut.None? && Writer(UpTo(valid, b), key) == w)
            && (!(w.Some? && w.value.num == last) ==> cut == Writer(UpTo(valid, b), key))
  {
    var early := UpTo(valid, last - 1);
    UpToKeepsShape(valid, last - 1);
    WriterUpTo(valid, key, last - 1);
    WriterBounded(valid, key, last - 1);
    WriterUpTo(valid, key, b);
    WriterBounded(valid, key, b);
    WriterUpTo(early, key, b);
    WriterBounded(early, key, b);
    if Writer(valid, key).Some? {
      WriterIsInChain(valid, key);
    }
  }
}
