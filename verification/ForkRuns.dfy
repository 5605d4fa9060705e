/**
 Whole runs of the sinker: blocks, undo signals and restarts in any legal order, together with the chain
 of blocks that survive them.

 An undo to block `n` evicts slots at or above `n`, so what survives is what lies below `n` or has been
 flushed; a restart loses everything not flushed.
 */
module ForkRuns {
  import opened Backing
  import opened ByteOrder
  import opened Chain
  import opened Entries
  import opened ForkAwareSpec
  import opened KeyView
  import opened SinkerSpec
  import opened Wrappers

  datatype Event =
    | BlockEvent(data: BlockData, cursor: Cursor)
    | UndoEvent(lastValid: U64, cursor: Cursor)
    | RestartEvent

  /** `settled` is the highest flush point so far; `marks[i]` is what it was when `chain[i]` came in. */
  datatype Run = Run(sys: SinkerSpec.State, chain: seq<Block>, marks: seq<U64>, settled: U64)

  function AsBlock(data: BlockData): Block {
    match data.output
    case Some(out) => Block(data.clock.num, out.entries, out.ifNotExist)
    case None => Block(data.clock.num, [], false)
  }

  /** The bound below which an undo to `lastValid` leaves everything alone. */
  function UndoBound(lastValid: U64, settled: U64): int {
    if lastValid - 1 < settled then settled else lastValid - 1
  }

  ghost function Cut(run: Run, sys: SinkerSpec.State, bound: int): Run {
    var chain := UpTo(run.chain, bound);
    Run(sys, chain, if |chain| <= |run.marks| then run.marks[..|chain|] else run.marks, run.settled)
  }

  ghost function Step(run: Run, e: Event): Run {
    match e
    case BlockEvent(data, cursor) =>
      Run(HandleBlock(run.sys, data, cursor), run.chain + [AsBlock(data)], run.marks + [run.settled],
          SettledAfter(run.settled, data, cursor.lib.num))
    case UndoEvent(lastValid, cursor) =>
      Cut(run, HandleUndo(run.sys, lastValid, cursor), UndoBound(lastValid, run.settled))
    case RestartEvent => Cut(run, Restart(run.sys), run.settled)
  }

  /** What the block stream promises: numbers rise along the surviving chain and past the flush point, and
      nothing flushed is ever undone. */
  ghost predicate LegalStep(run: Run, e: Event, universe: iset<Key>) {
    match e
    case BlockEvent(data, cursor) =>
      && run.settled < data.clock.num
      && (forall i :: 0 <= i < |run.chain| ==> run.chain[i].num < data.clock.num)
      && BlockKeysIn(data, universe)
    case UndoEvent(lastValid, cursor) => run.settled <= lastValid
    case RestartEvent => true
  }

  ghost function Exec(run: Run, events: seq<Event>): Run
    decreases |events|
  {
    if |events| == 0 then run else Exec(Step(run, events[0]), events[1..])
  }

  ghost predicate Legal(run: Run, events: seq<Event>, universe: iset<Key>)
    decreases |events|
  {
    |events| == 0 || (LegalStep(run, events[0], universe) && Legal(Step(run, events[0]), events[1..], universe))
  }

  ghost predicate EventInMode(e: Event, ifNotExist: bool) {
    e.BlockEvent? && e.data.output.Some? ==> e.data.output.value.ifNotExist == ifNotExist
  }

  /** Every output of the run carries this flag. */
  ghost predicate InOneMode(events: seq<Event>, ifNotExist: bool) {
    forall i :: 0 <= i < |events| ==> EventInMode(events[i], ifNotExist)
  }

  ghost predicate OnlyBlocks(events: seq<Event>) {
    forall i :: 0 <= i < |events| ==> events[i].BlockEvent?
  }

  /** The block asked about is past every surviving block. */
  ghost predicate AtHead(run: Run, b: U64) {
    run.settled <= b && forall i :: 0 <= i < |run.chain| ==> run.chain[i].num <= b
  }

  /** A new sinker over this store, with no cursor file. */
  function EmptyRun(back: Back): Run {
    Run(SinkerSpec.State(ForkAwareSpec.State(back, map[], 0), map[], 0, None), [], [], 0)
  }

  /** A new sinker over an empty store. */
  ghost predicate IsStart(run: Run, universe: iset<Key>) {
    || run == EmptyRun(Latest(map[]))
    || (run == EmptyRun(TimeTravel(map[])) && Keys.PrefixFree(universe))
  }

  // ---- Invariant of every legal run, whatever the flags ----

  ghost predicate RunInv(run: Run, universe: iset<Key>) {
    && Sound(run.sys.store, universe, run.settled)
    && Increasing(run.chain)
    && |run.marks| == |run.chain|
    && forall i :: 0 <= i < |run.marks| ==> run.marks[i] <= run.settled
  }

  lemma StartInv(run: Run, universe: iset<Key>)
    requires IsStart(run, universe)
    ensures RunInv(run, universe)
    ensures run.chain == [] && run.settled == 0 && run.sys.history == map[]
    ensures forall key :: Project(run.sys.store, key) == KeyState(None, None)
  {
    EmptyBack(universe, 0);
  }

  /** One key through one event. */
  function KeyStep(ks: KeyState, e: Event, key: Key): KeyState {
    match e
    case BlockEvent(data, cursor) => BlockKey(ks, data, cursor.lib.num, key)
    case UndoEvent(lastValid, _) => EvictKey(ks, lastValid)
    case RestartEvent => ks.(slot := None)
  }

  lemma {:induction false} StepKeeps(run: Run, e: Event, universe: iset<Key>)
    requires RunInv(run, universe) && LegalStep(run, e, universe)
    ensures RunInv(Step(run, e), universe)
  {
    match e
    case BlockEvent(data, cursor) =>
      BlockSound(run.sys, universe, run.settled, data, cursor);
    case UndoEvent(lastValid, cursor) =>
      EvictProjects(run.sys.store, universe, run.settled, lastValid);
      UpToKeepsShape(run.chain, UndoBound(lastValid, run.settled));
    case RestartEvent =>
      RestartProjects(run.sys, universe, run.settled);
      UpToKeepsShape(run.chain, run.settled);
  }

  lemma {:induction false} StepProjects(run: Run, e: Event, universe: iset<Key>, key: Key)
    requires RunInv(run, universe) && LegalStep(run, e, universe) && key in universe
    ensures Project(Step(run, e).sys.store, key) == KeyStep(Project(run.sys.store, key), e, key)
  {
    match e
    case BlockEvent(data, cursor) => BlockProjects(run.sys, universe, run.settled, data, cursor, key);
    case UndoEvent(lastValid, cursor) => EvictProjects(run.sys.store, universe, run.settled, lastValid);
    case RestartEvent => RestartProjects(run.sys, universe, run.settled);
  }

  lemma {:induction false} ExecKeeps(run: Run, events: seq<Event>, universe: iset<Key>)
    requires RunInv(run, universe) && Legal(run, events, universe)
    ensures RunInv(Exec(run, events), universe)
    decreases |events|
  {
    if |events| > 0 {
      StepKeeps(run, events[0], universe);
      ExecKeeps(Step(run, events[0]), events[1..], universe);
    }
  }

  // ---- Runs by their last event ----

  lemma {:induction false} ExecSnoc(run: Run, events: seq<Event>, e: Event)
    ensures Exec(run, events + [e]) == Step(Exec(run, events), e)
    decreases |events|
  {
    if |events| == 0 {
      assert (events + [e])[1..] == [];
    } else {
      assert (events + [e])[1..] == events[1..] + [e];
      ExecSnoc(Step(run, events[0]), events[1..], e);
    }
  }

  lemma {:induction false} LegalSnoc(run: Run, events: seq<Event>, e: Event, universe: iset<Key>)
    ensures Legal(run, events + [e], universe)
       <==> Legal(run, events, universe) && LegalStep(Exec(run, events), e, universe)
    decreases |events|
  {
    if |events| == 0 {
      assert (events + [e])[1..] == [];
    } else {
      assert (events + [e])[1..] == events[1..] + [e];
      LegalSnoc(Step(run, events[0]), events[1..], e, universe);
    }
  }

  lemma ExecPair(run: Run, d: Event, e: Event, universe: iset<Key>)
    ensures Exec(run, [d]) == Step(run, d) && Exec(run, [d, e]) == Step(Step(run, d), e)
    ensures Legal(run, [d], universe) <==> LegalStep(run, d, universe)
    ensures Legal(run, [d, e], universe) <==> LegalStep(run, d, universe) && LegalStep(Step(run, d), e, universe)
  {
    assert [d] == [] + [d] && [d, e] == [d] + [e];
    ExecSnoc(run, [], d);
    LegalSnoc(run, [], d, universe);
    ExecSnoc(run, [d], e);
    LegalSnoc(run, [d], e, universe);
  }

  // ---- Blocks of one entry ----

  /** The block of this cursor, writing one key. */
  function OneWrite(cursor: Cursor, key: Key, value: Value, ifNotExist: bool): Event {
    BlockEvent(BlockData(cursor.block, Some(SinkEntries([Entry(key, value)], ifNotExist))), cursor)
  }

  lemma {:induction false} OneWriteStep(run: Run, cursor: Cursor, key: Key, value: Value, ifNotExist: bool)
    requires RunInv(run, iset{key}) && run.settled < cursor.block.num
    requires forall i :: 0 <= i < |run.chain| ==> run.chain[i].num < cursor.block.num
    ensures var e := OneWrite(cursor, key, value, ifNotExist);
            && LegalStep(run, e, iset{key}) && EventInMode(e, ifNotExist)
            && RunInv(Step(run, e), iset{key})
            && Step(run, e).chain == run.chain + [Block(cursor.block.num, [Entry(key, value)], ifNotExist)]
            && Step(run, e).settled == Max(run.settled, cursor.lib.num)
            && Step(run, e).sys.cursorFile == Some(CursorToSave(run.sys.history[cursor.block.id := cursor], cursor))
            && Writer(Step(run, e).chain, key)
               == (if ifNotExist && Writer(run.chain, key).Some? then Writer(run.chain, key)
                   else Some(Write(cursor.block.num, value)))
            && Project(Step(run, e).sys.store, key)
               == FlushKey(WriteKey(Project(run.sys.store, key), Some(value), ifNotExist, cursor.block.num),
                           cursor.lib.num, ifNotExist)
  {
    var e := OneWrite(cursor, key, value, ifNotExist);
    LastWinsOne(key, value);
    WriterSnoc(run.chain, AsBlock(e.data), key);
    assert LegalStep(run, e, iset{key});
    BlockSound(run.sys, iset{key}, run.settled, e.data, e.cursor);
    StepKeeps(run, e, iset{key});
    StepProjects(run, e, iset{key}, key);
  }

  // ---- What a write should look like ----

  /** The write a read has to account for. */
  function Answering(w: Option<Write>): Lookup {
    match w
    case Some(write) => Hit(write.value)
    case None => Miss
  }

  function ValueOf(w: Option<Write>): Option<Value> {
    match w
    case Some(write) => Some(write.value)
    case None => None
  }

  /** The slot that holds a write not yet flushed. */
  function SlotOf(w: Option<Write>, settled: U64): Option<Cached> {
    if w.Some? && w.value.num > settled then Some(Cached(w.value.value, w.value.num)) else None
  }
}
