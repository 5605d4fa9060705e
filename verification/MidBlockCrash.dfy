/**
 If-not-exist mode, a crash inside the handling of a block: its flush has landed, its cursor is not saved. The
 replay then starts below blocks that are already flushed, which no legal run does, and absorbs them.
 */
module MidBlockCrash {
  import opened Backing
  import opened ByteOrder
  import opened Chain
  import opened CrashRecovery
  import opened CursorHistory
  import opened Entries
  import opened ForkAwareSpec
  import opened ForkRuns
  import opened KeyView
  import opened SinkerSpec
  import opened StampedReads
  import opened Wrappers
  import First = IfNotExistRuns

  // ---- Replaying blocks ----

  /** The blocks of a stream handled one after the other. */
  ghost function Replayed(st: SinkerSpec.State, events: seq<Event>): SinkerSpec.State {
    if |events| == 0 then st
    else
      var last, before := events[|events| - 1], Replayed(st, events[..|events| - 1]);
      if last.BlockEvent? then HandleBlock(before, last.data, last.cursor) else before
  }

  /** The same through one key. */
  function Folded(ss: StampState, events: seq<Event>, key: Key): StampState {
    if |events| == 0 then ss
    else
      var last, before := events[|events| - 1], Folded(ss, events[..|events| - 1], key);
      if last.BlockEvent? then BlockStamped(before, last.data, last.cursor.lib.num, key) else before
  }

  ghost predicate KnownKeys(events: seq<Event>, universe: iset<Key>) {
    forall i :: 0 <= i < |events| && events[i].BlockEvent? ==> BlockKeysIn(events[i].data, universe)
  }

  lemma StreamPrefix(events: seq<Event>)
    requires Stream(events) && InOneMode(events, true) && |events| > 0
    ensures Stream(events[..|events| - 1]) && InOneMode(events[..|events| - 1], true)
    ensures EventInMode(events[|events| - 1], true)
  {
  }

  /** The replay follows the keys' automata, and its flush point stays behind its blocks. */
  lemma {:induction false} ReplayHolds(st: SinkerSpec.State, events: seq<Event>, universe: iset<Key>, key: Key,
                                       ss: StampState)
    requires Stream(events) && InOneMode(events, true) && KnownKeys(events, universe)
    requires Holds(st.store, universe, key, ss) && st.store.flushUpTo == 0
    requires forall i :: 0 <= i < |events| ==> events[i].cursor.block.num > 0
    ensures Holds(Replayed(st, events).store, universe, key, Folded(ss, events, key))
    ensures Replayed(st, events).store.flushUpTo <= if |events| == 0 then 0 else events[|events| - 1].cursor.block.num
  {
    if |events| > 0 {
      var front, last := events[..|events| - 1], events[|events| - 1];
      StreamPrefix(events);
      ReplayHolds(st, front, universe, key, ss);
      assert |front| > 0 ==> front[|front| - 1].cursor.block.num < last.cursor.block.num;
      BlockHolds(Replayed(st, front), universe, key, Folded(ss, front, key), last.data, last.cursor);
    }
  }

  /** A key with a stored value keeps it; writes above the flush point are refused, and the others get a slot
      that lies under the stored stamp. */
  lemma {:induction false} StoredStays(events: seq<Event>, key: Key, stored: Write, floor: U64)
    requires Stream(events) && forall i :: 0 <= i < |events| ==> events[i].cursor.block.num > floor
    ensures var ss := Folded(StampState(None, Some(stored)), events, key);
            && ss.stored == Some(stored)
            && (ss.slot.Some? ==> floor < ss.slot.value.blockNumber < stored.num)
  {
    if |events| > 0 {
      var front := events[..|events| - 1];
      assert Stream(front);
      StoredStays(front, key, stored, floor);
    }
  }

  /** A key with nothing stored gets its first write in the replay, if no flush reaches that. */
  lemma {:induction false} UnstoredFills(events: seq<Event>, key: Key, settled: U64)
    requires Stream(events) && InOneMode(events, true) && FlushesUpTo(events, settled)
    requires Writer(Blocks(events), key).Some? ==> Writer(Blocks(events), key).value.num > settled
    ensures Folded(StampState(None, None), events, key)
              == StampState(SlotOf(Writer(Blocks(events), key), settled), None)
  {
    if |events| > 0 {
      var front, last := events[..|events| - 1], events[|events| - 1];
      StreamPrefix(events);
      WriterSnoc(Blocks(front), AsBlock(last.data), key);
      assert FlushesUpTo(front, settled);
      UnstoredFills(front, key, settled);
    }
  }

  // ---- The crash ----

  /** What a process in if-not-exist mode finds when it starts; each key has at most one stored value. */
  ghost predicate BootedOnce(start: Run, universe: iset<Key>) {
    && Booted(start, universe, true)
    && forall k | k in universe :: StoredOnce(start.sys.store, universe, k)
  }

  ghost predicate StoredOnce(st: ForkAwareSpec.State, universe: iset<Key>, key: Key) {
    exists ss :: Holds(st, universe, key, ss)
  }

  /** The block the process dies in is the last one of `events`; everything before it is done with. */
  ghost predicate MidCrash(start: Run, events: seq<Event>, universe: iset<Key>, j: nat) {
    && BootedOnce(start, universe) && Legal(start, events, universe)
    && Stream(events) && InOneMode(events, true) && |events| > 1
    && SplitsAt(events, SavedBefore(start, events), j)
  }

  /** The block the stream resumes after: the one saved before the last block came in. */
  ghost function SavedBefore(start: Run, events: seq<Event>): U64
    requires |events| > 0
  {
    SavedBlock(Exec(start, events[..|events| - 1]))
  }

  /** The state as the process dies: the last block's flush has landed, and nothing after it. */
  ghost function DyingState(start: Run, events: seq<Event>): SinkerSpec.State
    requires |events| > 0 && events[|events| - 1].BlockEvent?
  {
    var last := events[|events| - 1];
    BlockUnsaved(Exec(start, events[..|events| - 1]).sys, last.data, last.cursor)
  }

  lemma {:induction false} StepOnce(run: Run, e: Event, universe: iset<Key>, key: Key)
    requires RunInv(run, universe) && LegalStep(run, e, universe) && EventInMode(e, true)
    requires StoredOnce(run.sys.store, universe, key)
    ensures StoredOnce(Step(run, e).sys.store, universe, key)
  {
    var ss :| Holds(run.sys.store, universe, key, ss);
    match e
    case BlockEvent(data, cursor) =>
      BlockHolds(run.sys, universe, key, ss, data, cursor);
    case UndoEvent(lastValid, cursor) =>
      assert Holds(Step(run, e).sys.store, universe, key, ss.(slot := Project(Step(run, e).sys.store, key).slot));
    case RestartEvent =>
      assert Holds(Step(run, e).sys.store, universe, key, ss.(slot := None));
  }

  lemma {:induction false} ExecOnce(run: Run, events: seq<Event>, universe: iset<Key>, key: Key)
    requires RunInv(run, universe) && Legal(run, events, universe) && InOneMode(events, true)
    requires StoredOnce(run.sys.store, universe, key)
    ensures StoredOnce(Exec(run, events).sys.store, universe, key)
    decreases |events|
  {
    if |events| > 0 {
      assert EventInMode(events[0], true);
      StepKeeps(run, events[0], universe);
      StepOnce(run, events[0], universe, key);
      ExecOnce(Step(run, events[0]), events[1..], universe, key);
    }
  }

  /** Whatever legal if-not-exist run a process has had, the next one boots in such a state. */
  lemma {:induction false} BootsOnceAgain(start: Run, events: seq<Event>, universe: iset<Key>)
    requires BootedOnce(start, universe) && Legal(start, events, universe) && InOneMode(events, true)
    ensures BootedOnce(Step(Exec(start, events), RestartEvent), universe)
  {
    BootsAgain(start, events, universe, true);
    ExecKeeps(start, events, universe);
    forall k | k in universe
      ensures StoredOnce(Step(Exec(start, events), RestartEvent).sys.store, universe, k)
    {
      ExecOnce(start, events, universe, k);
      StepOnce(Exec(start, events), RestartEvent, universe, k);
    }
  }

  lemma {:induction false} StartIsBootedOnce(start: Run, universe: iset<Key>)
    requires IsStart(start, universe)
    ensures BootedOnce(start, universe)
  {
    StartIsBooted(start, universe, true);
    forall k | k in universe
      ensures StoredOnce(start.sys.store, universe, k)
    {
      StartInv(start, universe);
      assert Holds(start.sys.store, universe, k, StampState(None, None));
    }
  }

  // ---- Recovery ----

  /** What the crash leaves: the store of the uninterrupted run, with empty slots. */
  lemma {:induction false} Remains(start: Run, events: seq<Event>, universe: iset<Key>, j: nat)
    requires MidCrash(start, events, universe, j)
    ensures var run, run0 := Exec(start, events), Exec(start, events[..|events| - 1]);
            && RunInv(run, universe) && RunInv(run0, universe)
            && DyingState(start, events).store == run.sys.store
            && run.settled == SettledAfter(run0.settled, events[|events| - 1].data, events[|events| - 1].cursor.lib.num)
            && run0.settled <= SavedBefore(start, events) < events[|events| - 1].cursor.block.num
            && FlushesUpTo(events, run.settled) && KnownKeys(events, universe)
  {
    var front, last := events[..|events| - 1], events[|events| - 1];
    assert events == front + [last];
    StreamPrefix(events);
    ExecSnoc(start, front, last);
    LegalSnoc(start, front, last, universe);
    ExecKeeps(start, front, universe);
    var run0 := Exec(start, front);
    BlockSound(run0.sys, universe, run0.settled, last.data, last.cursor);
    StepKeeps(run0, last, universe);
    SavedNotBehind(start, front, universe);
    SavedNotBehind(start, events, universe);
    LegalKeys(start, events, universe);
    assert front[|front| - 1].cursor.block.num < last.cursor.block.num;
  }

  /** Recovery of one key, in terms of its slot in the uninterrupted run. */
  ghost predicate KeyAbsorbed(st: ForkAwareSpec.State, st': ForkAwareSpec.State, universe: iset<Key>, key: Key,
      saved: U64) {
    exists ss, ss' ::
      && Holds(st, universe, key, ss) && Holds(st', universe, key, ss') && ss'.stored == ss.stored
      && (ss.slot.Some? ==> ss.stored.None?) && (ss'.slot.Some? ==> ss'.slot.value.blockNumber > saved)
      && (ss'.slot == ss.slot <==> (ss.slot.Some? ==> ss.slot.value.blockNumber > saved))
  }

  /** The blocks that come again: all of them above what was flushed when the last block came in. */
  lemma {:induction false} Tail(start: Run, events: seq<Event>, universe: iset<Key>, j: nat)
    requires MidCrash(start, events, universe, j)
    ensures var run, tail := Exec(start, events), events[j..];
            && |tail| > 0 && tail[|tail| - 1] == events[|events| - 1]
            && Stream(tail) && InOneMode(tail, true) && KnownKeys(tail, universe) && FlushesUpTo(tail, run.settled)
            && forall i :: 0 <= i < |tail| ==> tail[i].cursor.block.num > SavedBefore(start, events)
  {
    Remains(start, events, universe, j);
    assert events[|events| - 1].data.clock.num > SavedBefore(start, events);
    StreamSuffix(events, j, Exec(start, events).settled, universe, true);
  }

  /** The key in the uninterrupted run. */
  lemma {:induction false} Undisturbed(start: Run, events: seq<Event>, universe: iset<Key>,
                                       key: Key) returns (ss: StampState)
    requires BootedOnce(start, universe) && Legal(start, events, universe) && InOneMode(events, true) && key in universe
    ensures var run := Exec(start, events);
            && RunInv(run, universe) && Uniform(run.chain, true) && Holds(run.sys.store, universe, key, ss)
            && Explained(run, key, ss)
  {
    var run := Exec(start, events);
    BootedInSync(start, universe, key);
    First.ExecInSync(start, events, universe, key);
    ExecOnce(start, events, universe, key);
    ss :| Holds(run.sys.store, universe, key, ss);
    HoldsReads(run.sys.store, universe, key, ss, MAX_U64);
    WriterUpTo(run.chain, key, run.settled);
    WriterBounded(run.chain, key, run.settled);
    if ss.stored.Some? {
      assert StoredAt(run.sys.store.back, key, ss.stored.value.num, ss.stored.value.value);
    }
  }

  /** The first write of the later blocks, for a key of which nothing is flushed. */
  lemma {:induction false} LateWriter(start: Run, events: seq<Event>, universe: iset<Key>, key: Key, j: nat)
    requires MidCrash(start, events, universe, j) && key in universe
    requires var w := Writer(Exec(start, events).chain, key); w.Some? ==> w.value.num > Exec(start, events).settled
    ensures var run, saved := Exec(start, events), SavedBefore(start, events);
            var w := Writer(run.chain, key);
            var late := Writer(Blocks(events[j..]), key);
            && (late.Some? ==> late.value.num > saved && late.value.num > run.settled)
            && (w == late <==> (w.Some? ==> w.value.num > saved))
  {
    var run, saved := Exec(start, events), SavedBefore(start, events);
    var early, late := start.chain + Blocks(events[..j]), Blocks(events[j..]);
    Remains(start, events, universe, j);
    SettledGrows(start, events[..|events| - 1]);
    ChainSplits(start, events, saved, j);
    ExecUniform(start, events, universe, true);
    WriterConcat(early, late, key, true);
    if Writer(early, key).Some? {
      WriterIsInChain(early, key);
    }
    if Writer(late, key).Some? {
      WriterIsInChain(late, key);
    }
  }

  /** The last block's flush takes away what the replay of flushed blocks put into the slot. */
  lemma {:induction false} StoredAbsorbs(tail: seq<Event>, key: Key, stored: Write, floor: U64)
    requires Stream(tail) && |tail| > 0 && forall i :: 0 <= i < |tail| ==> tail[i].cursor.block.num > floor
    requires stored.num <= SettledAfter(floor, tail[|tail| - 1].data, tail[|tail| - 1].cursor.lib.num)
    ensures Folded(StampState(None, Some(stored)), tail, key) == StampState(None, Some(stored))
  {
    StoredStays(tail, key, stored, floor);
  }

  /** What the key in the uninterrupted run says about it. */
  ghost predicate Explained(run: Run, key: Key, ss: StampState) {
    && ss.slot == SlotOf(Writer(run.chain, key), run.settled)
    && (ss.stored.None? <==> Writer(run.chain, key).None? || Writer(run.chain, key).value.num > run.settled)
    && (ss.stored.Some? ==> ss.stored.value.num <= run.settled)
  }

  lemma {:induction false} SlotAbsorbs(start: Run, events: seq<Event>, universe: iset<Key>, key: Key, j: nat,
                                       ss: StampState)
    requires MidCrash(start, events, universe, j) && key in universe && Explained(Exec(start, events), key, ss)
    ensures var ss', saved := Folded(ss.(slot := None), events[j..], key), SavedBefore(start, events);
            && ss'.stored == ss.stored
            && (ss.slot.Some? ==> ss.stored.None?) && (ss'.slot.Some? ==> ss'.slot.value.blockNumber > saved)
            && (ss'.slot == ss.slot <==> (ss.slot.Some? ==> ss.slot.value.blockNumber > saved))
  {
    var run, tail := Exec(start, events), events[j..];
    Remains(start, events, universe, j);
    Tail(start, events, universe, j);
    if ss.stored.Some? {
      StoredAbsorbs(tail, key, ss.stored.value, Exec(start, events[..|events| - 1]).settled);
    } else {
      LateWriter(start, events, universe, key, j);
      UnstoredFills(tail, key, run.settled);
    }
  }

  lemma {:induction false} AbsorbKey(start: Run, events: seq<Event>, universe: iset<Key>, key: Key, j: nat)
    requires MidCrash(start, events, universe, j) && key in universe
    ensures KeyAbsorbed(Exec(start, events).sys.store, Replayed(Restart(DyingState(start, events)), events[j..]).store,
                        universe, key, SavedBefore(start, events))
  {
    var run, tail, crashed := Exec(start, events), events[j..], Restart(DyingState(start, events));
    Remains(start, events, universe, j);
    Tail(start, events, universe, j);
    var ss := Undisturbed(start, events, universe, key);
    var bare := StampState(None, ss.stored);
    assert Holds(crashed.store, universe, key, bare);
    ReplayHolds(crashed, tail, universe, key, bare);
    SlotAbsorbs(start, events, universe, key, j, ss);
    assert Holds(Replayed(crashed, tail).store, universe, key, Folded(bare, tail, key));
  }

  lemma {:induction false} AbsorbedReads(st: ForkAwareSpec.State, st': ForkAwareSpec.State, universe: iset<Key>,
                                         key: Key, saved: U64)
    requires KeyAbsorbed(st, st', universe, key, saved)
    ensures (forall b: U64 :: ReadKey(st', key, b) == ReadKey(st, key, b))
       <==> (key in st.cache ==> st.cache[key].blockNumber > saved)
  {
    var ss, ss' :|
      && Holds(st, universe, key, ss) && Holds(st', universe, key, ss') && ss'.stored == ss.stored
      && (ss.slot.Some? ==> ss.stored.None?) && (ss'.slot.Some? ==> ss'.slot.value.blockNumber > saved)
      && (ss'.slot == ss.slot <==> (ss.slot.Some? ==> ss.slot.value.blockNumber > saved));
    forall b: U64
      ensures ReadKey(st, key, b) == ReadStamped(ss, b) && ReadKey(st', key, b) == ReadStamped(ss', b)
    {
      HoldsReads(st, universe, key, ss, b);
      HoldsReads(st', universe, key, ss', b);
    }
    if key in st.cache && st.cache[key].blockNumber <= saved {
      var b := st.cache[key].blockNumber;
      assert ReadKey(st', key, b) != ReadKey(st, key, b);
    }
  }

  /**
   A crash between a block's flush and its cursor, exactly. Restarting from the cursor saved before and
   playing the blocks after it, those already flushed among them, gives every read of every key at every
   block the answer of the uninterrupted run if and only if no slot of that run lies at or below the saved block.
   */
  lemma {:induction false} MidCrashExact(start: Run, events: seq<Event>, universe: iset<Key>, j: nat)
    requires MidCrash(start, events, universe, j)
    ensures var st := Exec(start, events).sys.store;
            var again := Replayed(Restart(DyingState(start, events)), events[j..]).store;
            && FileBlock(Restart(DyingState(start, events)).cursorFile) == SavedBefore(start, events)
            && ((forall key, b: U64 | key in universe :: ReadKey(again, key, b) == ReadKey(st, key, b))
                <==> forall k :: k in st.cache ==> st.cache[k].blockNumber > SavedBefore(start, events))
  {
    var st := Exec(start, events).sys.store;
    var again := Replayed(Restart(DyingState(start, events)), events[j..]).store;
    forall key | key in universe
      ensures (forall b: U64 :: ReadKey(again, key, b) == ReadKey(st, key, b))
         <==> (key in st.cache ==> st.cache[key].blockNumber > SavedBefore(start, events))
    {
      AbsorbKey(start, events, universe, key, j);
      AbsorbedReads(st, again, universe, key, SavedBefore(start, events));
    }
    Remains(start, events, universe, j);
  }
}
