/**
 Overwrite mode: reads at or above the head answer with the last surviving write of the key, unless an undo
 or a restart evicted a slot that had itself replaced a write not yet flushed. One slot a key cannot
 remember both.
 */
module OverwriteRuns {
  import opened Backing
  import opened ByteOrder
  import opened Chain
  import opened Entries
  import opened ForkAwareSpec
  import opened ForkRuns
  import opened KeyView
  import opened SinkerSpec
  import opened Wrappers

  /**
   The write that reached the store below: the last write of the key that was flushed before the next
   write of the key came in (or by now, for the last one). `marks[i]` is the flush point when `chain[i]` came in.
   */
  function Flushed(chain: seq<Block>, marks: seq<U64>, key: Key, settled: U64): Option<Write>
    requires |marks| == |chain|
    decreases |chain|
  {
    if |chain| == 0 then None
    else
      var n := |chain| - 1;
      if !Chain.Writes(chain[n], key) then Flushed(chain[..n], marks[..n], key, settled)
      else if chain[n].num <= settled then Some(WriteOf(chain[n], key))
      else Flushed(chain[..n], marks[..n], key, marks[n])
  }

  /** The flush point that decided over the writes below a cut: the one at the first write of the key
      above the cut, or the current one. */
  function DecidedBy(chain: seq<Block>, marks: seq<U64>, key: Key, settled: U64, bound: int): U64
    requires |marks| == |chain|
    decreases |chain|
  {
    if |chain| == 0 || chain[|chain| - 1].num <= bound then settled
    else
      var n := |chain| - 1;
      DecidedBy(chain[..n], marks[..n], key, if Chain.Writes(chain[n], key) then marks[n] else settled, bound)
  }

  /** Cutting the chain at `bound` loses no write of the key: what then stands is either still in its slot
      or had been flushed before a write above the cut replaced it. */
  ghost predicate SafeCut(chain: seq<Block>, marks: seq<U64>, key: Key, settled: U64, bound: int)
    requires |marks| == |chain|
  {
    var stands, whole := Writer(UpTo(chain, bound), key), Writer(chain, key);
    stands.None? || stands == whole || stands.value.num <= DecidedBy(chain, marks, key, settled, bound)
  }

  ghost predicate InSync(chain: seq<Block>, marks: seq<U64>, settled: U64, ks: KeyState, key: Key) {
    && Increasing(chain) && Uniform(chain, false)
    && |marks| == |chain| && (forall i :: 0 <= i < |marks| ==> marks[i] <= settled)
    && ks.slot == SlotOf(Writer(chain, key), settled)
    && ks.top == ValueOf(Flushed(chain, marks, key, settled))
  }

  lemma FlushedSnoc(chain: seq<Block>, marks: seq<U64>, blk: Block, key: Key, settled: U64)
    requires |marks| == |chain| && blk.num > settled
    ensures Flushed(chain + [blk], marks + [settled], key, settled) == Flushed(chain, marks, key, settled)
  {
    assert (chain + [blk])[..|chain|] == chain && (marks + [settled])[..|chain|] == marks;
  }

  /** Raising the flush point brings in the standing write once it is reached, and changes nothing before. */
  lemma {:induction false} FlushedAfterFlush(chain: seq<Block>, marks: seq<U64>, key: Key, settled: U64, limit: U64)
    requires |marks| == |chain| && Uniform(chain, false) && settled <= limit
    ensures Flushed(chain, marks, key, limit)
         == if Writer(chain, key).Some? && settled < Writer(chain, key).value.num <= limit then Writer(chain, key)
            else Flushed(chain, marks, key, settled)
  {
    if |chain| > 0 {
      var n := |chain| - 1;
      assert InMode(chain[n], false);
      if !Chain.Writes(chain[n], key) {
        FlushedAfterFlush(chain[..n], marks[..n], key, settled, limit);
      }
    }
  }

  /** What reached the store below is decided in the part below a cut, by the flush point of `DecidedBy`. */
  lemma {:induction false} FlushedBelowCut(chain: seq<Block>, marks: seq<U64>, key: Key, settled: U64, bound: int)
    requires Increasing(chain) && |marks| == |chain| && settled <= bound
    requires forall i :: 0 <= i < |marks| ==> marks[i] <= bound
    ensures |UpTo(chain, bound)| <= |chain|
    ensures Flushed(chain, marks, key, settled)
         == Flushed(UpTo(chain, bound), marks[..|UpTo(chain, bound)|], key,
                    DecidedBy(chain, marks, key, settled, bound))
    decreases |chain|
  {
    if |chain| > 0 {
      var n := |chain| - 1;
      if chain[n].num <= bound {
        UpToWhole(chain, bound);
        assert marks[..|chain|] == marks;
      } else {
        FlushedBelowCut(chain[..n], marks[..n], key, if Chain.Writes(chain[n], key) then marks[n] else settled, bound);
        assert UpTo(chain, bound) == UpTo(chain[..n], bound);
        assert marks[..n][..|UpTo(chain, bound)|] == marks[..|UpTo(chain, bound)|];
      }
    }
  }

  lemma {:induction false} DecidedAtMost(chain: seq<Block>, marks: seq<U64>, key: Key, settled: U64,
                                         bound: int, limit: U64)
    requires |marks| == |chain| && settled <= limit && forall i :: 0 <= i < |marks| ==> marks[i] <= limit
    ensures DecidedBy(chain, marks, key, settled, bound) <= limit
    decreases |chain|
  {
    if |chain| > 0 && chain[|chain| - 1].num > bound {
      var n := |chain| - 1;
      DecidedAtMost(chain[..n], marks[..n], key, if Chain.Writes(chain[n], key) then marks[n] else settled,
                    bound, limit);
    }
  }

  /** With no write of the key above the cut, the current flush point decides. */
  lemma {:induction false} DecidedByCurrent(chain: seq<Block>, marks: seq<U64>, key: Key, settled: U64, bound: int)
    requires |marks| == |chain| && Uniform(chain, false)
    requires Writer(chain, key).Some? ==> Writer(chain, key).value.num <= bound
    ensures DecidedBy(chain, marks, key, settled, bound) == settled
    decreases |chain|
  {
    if |chain| > 0 && chain[|chain| - 1].num > bound {
      assert InMode(chain[|chain| - 1], false);
      DecidedByCurrent(chain[..|chain| - 1], marks[..|chain| - 1], key, settled, bound);
    }
  }

  /** The last write of a chain, if flushed by now, is what reached the store below. */
  lemma {:induction false} FlushedIsWriter(chain: seq<Block>, marks: seq<U64>, key: Key, settled: U64)
    requires |marks| == |chain| && Uniform(chain, false)
    requires Writer(chain, key).Some? ==> Writer(chain, key).value.num <= settled
    ensures Flushed(chain, marks, key, settled) == Writer(chain, key)
    decreases |chain|
  {
    if |chain| > 0 {
      assert InMode(chain[|chain| - 1], false);
      if !Chain.Writes(chain[|chain| - 1], key) {
        FlushedIsWriter(chain[..|chain| - 1], marks[..|chain| - 1], key, settled);
      }
    }
  }

  // ---- One event ----

  lemma FlushInSync(chain: seq<Block>, marks: seq<U64>, settled: U64, ks: KeyState, key: Key, lib: U64)
    requires InSync(chain, marks, settled, ks, key)
    ensures InSync(chain, marks, Max(settled, lib), FlushKey(ks, lib, false), key)
  {
    if settled < lib {
      FlushedAfterFlush(chain, marks, key, settled, lib);
    }
  }

  lemma {:induction false} BlockInSync(chain: seq<Block>, marks: seq<U64>, settled: U64, ks: KeyState,
                                       key: Key, data: BlockData, lib: U64)
    requires InSync(chain, marks, settled, ks, key)
    requires settled < data.clock.num && forall i :: 0 <= i < |chain| ==> chain[i].num < data.clock.num
    requires data.output.Some? ==> !data.output.value.ifNotExist
    ensures InSync(chain + [AsBlock(data)], marks + [settled], SettledAfter(settled, data, lib),
                   BlockKey(ks, data, lib, key), key)
  {
    var blk := AsBlock(data);
    WriterSnoc(chain, blk, key);
    FlushedSnoc(chain, marks, blk, key, settled);
    if data.output.Some? {
      var out := data.output.value;
      var ks' := WriteKey(ks, Mention(LastWins(out.entries), key), out.ifNotExist, data.clock.num);
      assert InSync(chain + [blk], marks + [settled], settled, ks', key);
      FlushInSync(chain + [blk], marks + [settled], settled, ks', key, lib);
    }
  }

  /** A key's state after its chain is cut: the slot goes if it lies above the cut. */
  function CutKey(ks: KeyState, bound: int): KeyState {
    if ks.slot.Some? && ks.slot.value.blockNumber > bound then ks.(slot := None) else ks
  }

  lemma {:induction false} CutInSync(chain: seq<Block>, marks: seq<U64>, settled: U64, ks: KeyState, key: Key,
                                     bound: int)
    requires InSync(chain, marks, settled, ks, key) && settled <= bound
    requires SafeCut(chain, marks, key, settled, bound)
    ensures InSync(UpTo(chain, bound), marks[..|UpTo(chain, bound)|], settled, CutKey(ks, bound), key)
  {
    var cut := UpTo(chain, bound);
    var decided := DecidedBy(chain, marks, key, settled, bound);
    UpToKeepsShape(chain, bound);
    WriterUpTo(chain, key, bound);
    WriterBounded(chain, key, bound);
    FlushedBelowCut(chain, marks, key, settled, bound);
    DecidedAtMost(chain, marks, key, settled, bound, settled);
    if Writer(chain, key) == Writer(cut, key) {
      DecidedByCurrent(chain, marks, key, settled, bound);
    } else {
      FlushedIsWriter(cut, marks[..|cut|], key, decided);
      FlushedIsWriter(cut, marks[..|cut|], key, settled);
    }
  }

  // ---- Runs ----

  ghost predicate RunInSync(run: Run, universe: iset<Key>, key: Key) {
    && RunInv(run, universe) && key in universe
    && InSync(run.chain, run.marks, run.settled, Project(run.sys.store, key), key)
  }

  /** This event loses no write of the key that survives it. */
  ghost predicate SafeStep(run: Run, e: Event, key: Key)
    requires |run.marks| == |run.chain|
  {
    match e
    case BlockEvent(_, _) => true
    case UndoEvent(lastValid, _) => SafeCut(run.chain, run.marks, key, run.settled, UndoBound(lastValid, run.settled))
    case RestartEvent => SafeCut(run.chain, run.marks, key, run.settled, run.settled)
  }

  ghost predicate SafeRun(run: Run, events: seq<Event>, key: Key)
    decreases |events|
  {
    |events| == 0 ||
    (|run.marks| == |run.chain| && SafeStep(run, events[0], key) && SafeRun(Step(run, events[0]), events[1..], key))
  }

  lemma StepInSync(run: Run, e: Event, universe: iset<Key>, key: Key)
    requires RunInSync(run, universe, key) && LegalStep(run, e, universe)
    requires EventInMode(e, false) && SafeStep(run, e, key)
    ensures RunInSync(Step(run, e), universe, key)
  {
    StepKeeps(run, e, universe);
    StepProjects(run, e, universe, key);
    var ks := Project(run.sys.store, key);
    match e
    case BlockEvent(data, cursor) => BlockInSync(run.chain, run.marks, run.settled, ks, key, data, cursor.lib.num);
    case UndoEvent(lastValid, _) =>
      CutInSync(run.chain, run.marks, run.settled, ks, key, UndoBound(lastValid, run.settled));
    case RestartEvent => CutInSync(run.chain, run.marks, run.settled, ks, key, run.settled);
  }

  lemma {:induction false} ExecInSync(run: Run, events: seq<Event>, universe: iset<Key>, key: Key)
    requires RunInSync(run, universe, key) && Legal(run, events, universe)
    requires InOneMode(events, false) && SafeRun(run, events, key)
    ensures RunInSync(Exec(run, events), universe, key)
    decreases |events|
  {
    if |events| > 0 {
      StepInSync(run, events[0], universe, key);
      ExecInSync(Step(run, events[0]), events[1..], universe, key);
    }
  }

  lemma InSyncReads(run: Run, universe: iset<Key>, key: Key, b: U64)
    requires RunInSync(run, universe, key) && AtHead(run, b)
    ensures ReadKey(run.sys.store, key, b) == Answering(Writer(run.chain, key))
  {
    ReadProjects(run.sys.store, universe, run.settled, key, b);
    if Writer(run.chain, key).Some? {
      WriterIsInChain(run.chain, key);
    }
    if Project(run.sys.store, key).slot.None? {
      FlushedIsWriter(run.chain, run.marks, key, run.settled);
    }
  }

  /**
   Overwrite correctness. After any legal overwrite run from an empty store, a read of a key at or above
   the head answers with the key's last write in the surviving chain, provided no undo or restart of the
   run cut a write of that key out of the slot that had replaced another, unflushed and surviving, one.
   */
  lemma {:induction false} OverwriteCorrect(start: Run, events: seq<Event>, universe: iset<Key>, key: Key, b: U64)
    requires IsStart(start, universe) && Legal(start, events, universe) && InOneMode(events, false)
    requires key in universe && SafeRun(start, events, key) && AtHead(Exec(start, events), b)
    ensures var run := Exec(start, events);
            && ReadKey(run.sys.store, key, b) == Answering(Writer(run.chain, key))
            && (Writer(run.chain, key).None? ==> !Mentions(run.chain, key))
            && (Writer(run.chain, key).Some? ==>
                  exists i: nat :: IsLastWrite(run.chain, key, i)
                      && Writer(run.chain, key) == Some(WriteOf(run.chain[i], key)))
  {
    StartInv(start, universe);
    ExecInSync(start, events, universe, key);
    InSyncReads(Exec(start, events), universe, key, b);
    WriterIsLast(Exec(start, events).chain, key);
  }

  /** Runs of blocks alone are safe for every key. */
  lemma {:induction false} BlocksAreSafe(run: Run, events: seq<Event>, universe: iset<Key>, key: Key)
    requires RunInv(run, universe) && Legal(run, events, universe) && key in universe
    requires forall i :: 0 <= i < |events| ==> events[i].BlockEvent?
    ensures SafeRun(run, events, key)
    decreases |events|
  {
    if |events| > 0 {
      StepKeeps(run, events[0], universe);
      BlocksAreSafe(Step(run, events[0]), events[1..], universe, key);
    }
  }

  /**
   One undo, exactly: from a run in sync, reads at the head after the undo answer with the last surviving
   write of the key if and only if the cut is safe, or the value that last reached the store below
   happens to be the same.
   */
  lemma {:induction false} UndoExact(run: Run, universe: iset<Key>, key: Key, lastValid: U64, cursor: Cursor, b: U64)
    requires RunInSync(run, universe, key) && run.settled <= lastValid <= b
    ensures var bound := UndoBound(lastValid, run.settled);
            var surviving := Writer(UpTo(run.chain, bound), key);
            ReadKey(Step(run, UndoEvent(lastValid, cursor)).sys.store, key, b) == Answering(surviving)
            <==> || SafeCut(run.chain, run.marks, key, run.settled, bound)
                 || ValueOf(Flushed(run.chain, run.marks, key, run.settled)) == ValueOf(surviving)
  {
    var e := UndoEvent(lastValid, cursor);
    var bound := UndoBound(lastValid, run.settled);
    if SafeCut(run.chain, run.marks, key, run.settled, bound) {
      StepInSync(run, e, universe, key);
      InSyncReads(Step(run, e), universe, key, b);
    } else {
      StepKeeps(run, e, universe);
      StepProjects(run, e, universe, key);
      ReadProjects(Step(run, e).sys.store, universe, run.settled, key, b);
      WriterUpTo(run.chain, key, bound);
    }
  }

  /** `a` at block 5 and `b` at block 7, both above the irreversible block. */
  function Replacing(key: Key, a: Value, b: Value): seq<Event> {
    var b3, b5, b7 := BlockRef("b3", 3), BlockRef("b5", 5), BlockRef("b7", 7);
    [OneWrite(Cursor(b5, b3, b5), key, a, false), OneWrite(Cursor(b7, b3, b7), key, b, false)]
  }

  /** Both writes stand, and only `b` is held. */
  ghost predicate BothStand(run: Run, key: Key, a: Value, b: Value) {
    && RunInv(run, iset{key}) && run.settled == 3
    && run.chain == [Block(5, [Entry(key, a)], false)] + [Block(7, [Entry(key, b)], false)]
    && Project(run.sys.store, key) == KeyState(Some(Cached(b, 7)), None)
  }

  lemma {:induction false} AfterReplacing(start: Run, key: Key, a: Value, b: Value)
    requires IsStart(start, iset{key})
    ensures Legal(start, Replacing(key, a, b), iset{key}) && BothStand(Exec(start, Replacing(key, a, b)), key, a, b)
  {
    StartInv(start, iset{key});
    var five, seven := Replacing(key, a, b)[0], Replacing(key, a, b)[1];
    ExecPair(start, five, seven, iset{key});
    OneWriteStep(start, five.cursor, key, a, false);
    SecondWrite(Step(start, five), key, a, b);
  }

  lemma {:induction false} SecondWrite(run: Run, key: Key, a: Value, b: Value)
    requires RunInv(run, iset{key}) && run.settled == 3 && run.chain == [] + [Block(5, [Entry(key, a)], false)]
    requires Project(run.sys.store, key) == KeyState(Some(Cached(a, 5)), None)
    ensures var seven := Replacing(key, a, b)[1];
            LegalStep(run, seven, iset{key}) && BothStand(Step(run, seven), key, a, b)
  {
    OneWriteStep(run, Replacing(key, a, b)[1].cursor, key, b, false);
  }

  lemma {:induction false} UndoOfSecond(run: Run, key: Key, a: Value, b: Value, undo: Event)
    requires BothStand(run, key, a, b) && undo.UndoEvent? && undo.lastValid == 6
    ensures Writer(Step(run, undo).chain, key) == Some(Write(5, a))
    ensures AtHead(Step(run, undo), 6) && ReadKey(Step(run, undo).sys.store, key, 6) == Miss
  {
    var first, second := Block(5, [Entry(key, a)], false), Block(7, [Entry(key, b)], false);
    StepKeeps(run, undo, iset{key});
    StepProjects(run, undo, iset{key}, key);
    ReadProjects(Step(run, undo).sys.store, iset{key}, 3, key, 6);
    assert Step(run, undo).chain == [] + [first] by {
      UpToSnoc([], first, 5);
      UpToSnoc([first], second, 5);
    }
    LastWinsOne(key, a);
    WriterSnoc([], first, key);
  }

  /**
   An unsafe cut does lose a write. A legal run from an empty store of either kind: `a` at block 5, `b` at
   block 7 before any flush, and an undo to block 6, which takes `b` out without bringing `a` back.
   */
  lemma {:induction false} ReplacedWriteIsLost(start: Run, key: Key, a: Value, b: Value, cursor: Cursor)
    requires IsStart(start, iset{key})
    ensures var events := Replacing(key, a, b) + [UndoEvent(6, cursor)];
            var run := Exec(start, events);
            && Legal(start, events, iset{key}) && InOneMode(events, false) && AtHead(run, 6)
            && Writer(run.chain, key) == Some(Write(5, a))
            && ReadKey(run.sys.store, key, 6) == Miss
            && !SafeRun(start, events, key)
  {
    AfterReplacing(start, key, a, b);
    UndoLosesA(start, Replacing(key, a, b), key, a, b, UndoEvent(6, cursor));
  }

  lemma {:induction false} UndoLosesA(start: Run, front: seq<Event>, key: Key, a: Value, b: Value, undo: Event)
    requires IsStart(start, iset{key}) && Legal(start, front, iset{key}) && InOneMode(front, false)
    requires BothStand(Exec(start, front), key, a, b) && undo.UndoEvent? && undo.lastValid == 6
    ensures var run := Exec(start, front + [undo]);
            && Legal(start, front + [undo], iset{key}) && InOneMode(front + [undo], false) && AtHead(run, 6)
            && Writer(run.chain, key) == Some(Write(5, a)) && ReadKey(run.sys.store, key, 6) == Miss
            && !SafeRun(start, front + [undo], key)
  {
    LegalSnoc(start, front, undo, iset{key});
    ExecSnoc(start, front, undo);
    UndoOfSecond(Exec(start, front), key, a, b, undo);
    assert InOneMode(front + [undo], false);
    if SafeRun(start, front + [undo], key) {
      OverwriteCorrect(start, front + [undo], iset{key}, key, 6);
    }
  }
}
