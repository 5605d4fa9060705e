/**
 Runs of blocks that mix if-not-exist and overwrite outputs. A flush goes by the flag of the output that
 triggers it, whatever the flags its slots were written under, and that can lose an overwrite.
 */
module MixedRuns {
  import opened Backing
  import opened ByteOrder
  import opened Chain
  import opened Entries
  import opened ForkAwareSpec
  import opened ForkRuns
  import opened KeyView
  import opened SinkerSpec
  import opened Wrappers

  /** Before this block: an if-not-exist output whose flush reaches the key's slot, over another stored value. */
  ghost predicate LosesWrite(st: ForkAwareSpec.State, e: Event, key: Key) {
    && e.BlockEvent? && e.data.output.Some? && e.data.output.value.ifNotExist
    && key in st.cache && st.cache[key].blockNumber <= e.cursor.lib.num
    && Top(st.back, key).Some? && Top(st.back, key).value != st.cache[key].value
  }

  ghost predicate Overwrites(e: Event, key: Key) {
    && e.BlockEvent? && e.data.output.Some? && !e.data.output.value.ifNotExist
    && key in LastWins(e.data.output.value.entries)
  }

  /** Some block of the run lost the key's standing write, and none has overwritten the key since. */
  ghost predicate Lost(run: Run, events: seq<Event>, key: Key) {
    if |events| == 0 then false
    else
      var front, last := events[..|events| - 1], events[|events| - 1];
      LosesWrite(Exec(run, front).sys.store, last, key) || (Lost(run, front, key) && !Overwrites(last, key))
  }

  lemma LostSnoc(run: Run, events: seq<Event>, e: Event, key: Key)
    ensures Lost(run, events + [e], key)
       <==> LosesWrite(Exec(run, events).sys.store, e, key) || (Lost(run, events, key) && !Overwrites(e, key))
  {
    assert (events + [e])[..|events|] == events;
  }

  /** What a read at the head gets. */
  function Current(ks: KeyState): Option<Value> {
    if ks.slot.Some? then Some(ks.slot.value.value) else ks.top
  }

  /** The key's standing write is the current one; or it is lost, and an older value is stored. */
  ghost predicate InSync(ks: KeyState, w: Option<Write>, lost: bool) {
    && (if lost then ks.slot.None? && ks.top.Some? && w.Some? && ks.top != ValueOf(w) else Current(ks) == ValueOf(w))
    && (ks.slot.Some? ==> w.Some? && ks.slot.value.blockNumber == w.value.num)
  }

  /** One block through one key. */
  lemma {:induction false} BlockInSync(ks: KeyState, chain: seq<Block>, data: BlockData, lib: U64, key: Key, lost: bool)
    requires InSync(ks, Writer(chain, key), lost)
    ensures var loses := data.output.Some? && data.output.value.ifNotExist && ks.slot.Some?
              && ks.slot.value.blockNumber <= lib
                         && ks.top.Some? && ks.top.value != ks.slot.value.value;
            var overwrites := data.output.Some? && !data.output.value.ifNotExist
                && key in LastWins(data.output.value.entries);
            InSync(BlockKey(ks, data, lib, key), Writer(chain + [AsBlock(data)], key), loses || (lost && !overwrites))
  {
    WriterSnoc(chain, AsBlock(data), key);
  }

  lemma {:induction false} ExecInSync(run: Run, events: seq<Event>, universe: iset<Key>, key: Key)
    requires RunInv(run, universe) && Legal(run, events, universe) && OnlyBlocks(events) && key in universe
    requires InSync(Project(run.sys.store, key), Writer(run.chain, key), false)
    ensures RunInv(Exec(run, events), universe)
    ensures var run' := Exec(run, events);
            InSync(Project(run'.sys.store, key), Writer(run'.chain, key), Lost(run, events, key))
  {
    if |events| > 0 {
      var front, last := events[..|events| - 1], events[|events| - 1];
      assert events == front + [last];
      ExecSnoc(run, front, last);
      LegalSnoc(run, front, last, universe);
      ExecInSync(run, front, universe, key);
      var before := Exec(run, front);
      StepKeeps(before, last, universe);
      StepProjects(before, last, universe, key);
      BlockInSync(Project(before.sys.store, key), before.chain, last.data, last.cursor.lib.num, key,
                  Lost(run, front, key));
    }
  }

  /**
   Blocks with any flags, exactly. A read at the head answers with the key's standing write in the chain if
   and only if no block of the run lost it: no if-not-exist output flushed a slot over another stored value
   without an overwrite of the key after it.
   */
  lemma {:induction false} MixedExact(start: Run, events: seq<Event>, universe: iset<Key>, key: Key, b: U64)
    requires IsStart(start, universe) && Legal(start, events, universe) && OnlyBlocks(events)
    requires key in universe && AtHead(Exec(start, events), b)
    ensures var run := Exec(start, events);
            ReadKey(run.sys.store, key, b) == Answering(Writer(run.chain, key)) <==> !Lost(start, events, key)
  {
    StartInv(start, universe);
    ExecInSync(start, events, universe, key);
    var run := Exec(start, events);
    ReadProjects(run.sys.store, universe, run.settled, key, b);
    if Writer(run.chain, key).Some? {
      WriterIsInChain(run.chain, key);
    }
  }

  /** `a` at block 5, final at once; `b` at block 7, not yet final. */
  function TwoOverwrites(key: Key, a: Value, b: Value): seq<Event> {
    var b5, b7 := BlockRef("b5", 5), BlockRef("b7", 7);
    [OneWrite(Cursor(b5, b5, b5), key, a, false), OneWrite(Cursor(b7, b5, b7), key, b, false)]
  }

  lemma {:induction false} AfterTwoOverwrites(start: Run, key: Key, a: Value, b: Value)
    requires IsStart(start, iset{key})
    ensures var run := Exec(start, TwoOverwrites(key, a, b));
            && Legal(start, TwoOverwrites(key, a, b), iset{key}) && AfterSeven(run, key, a, b)
  {
    StartInv(start, iset{key});
    var five, seven := TwoOverwrites(key, a, b)[0], TwoOverwrites(key, a, b)[1];
    ExecPair(start, five, seven, iset{key});
    OneWriteStep(start, five.cursor, key, a, false);
    SecondWrite(Step(start, five), key, a, b);
  }

  ghost predicate AfterSeven(run: Run, key: Key, a: Value, b: Value) {
    && RunInv(run, iset{key}) && run.settled == 5 && (forall i :: 0 <= i < |run.chain| ==> run.chain[i].num <= 7)
    && Writer(run.chain, key) == Some(Write(7, b))
    && Project(run.sys.store, key) == KeyState(Some(Cached(b, 7)), Some(a))
  }

  lemma {:induction false} SecondWrite(run: Run, key: Key, a: Value, b: Value)
    requires RunInv(run, iset{key}) && run.settled == 5 && forall i :: 0 <= i < |run.chain| ==> run.chain[i].num <= 5
    requires Project(run.sys.store, key) == KeyState(None, Some(a))
    ensures var seven := TwoOverwrites(key, a, b)[1];
            LegalStep(run, seven, iset{key}) && AfterSeven(Step(run, seven), key, a, b)
  {
    OneWriteStep(run, TwoOverwrites(key, a, b)[1].cursor, key, b, false);
  }

  /** Block 8's if-not-exist output, with block 7 irreversible, after any run that stands so. */
  lemma {:induction false} EighthDropsB(start: Run, front: seq<Event>, key: Key, a: Value, b: Value, c: Value,
                                        cursor: Cursor)
    requires Legal(start, front, iset{key}) && AfterSeven(Exec(start, front), key, a, b) && a != b
    requires cursor.block.num == 8 && cursor.lib.num == 7
    ensures var events := front + [OneWrite(cursor, key, c, true)];
            var run := Exec(start, events);
            && Legal(start, events, iset{key}) && Lost(start, events, key) && AtHead(run, 8)
            && Writer(run.chain, key) == Some(Write(7, b)) && ReadKey(run.sys.store, key, 8) == Hit(a)
  {
    var before, eight := Exec(start, front), OneWrite(cursor, key, c, true);
    LegalSnoc(start, front, eight, iset{key});
    ExecSnoc(start, front, eight);
    OneWriteStep(before, cursor, key, c, true);
    ReadProjects(Step(before, eight).sys.store, iset{key}, 7, key, 8);
    LostSnoc(start, front, eight, key);
    assert key in before.sys.store.cache;
  }

  /** Such a run, from an empty store of either kind: an if-not-exist output at block 8, with block 7
      irreversible, drops `b` for good. */
  lemma {:induction false} OverwriteIsLost(start: Run, key: Key, a: Value, b: Value, c: Value)
    requires IsStart(start, iset{key}) && a != b
    ensures var b7, b8 := BlockRef("b7", 7), BlockRef("b8", 8);
            var events := TwoOverwrites(key, a, b) + [OneWrite(Cursor(b8, b7, b8), key, c, true)];
            var run := Exec(start, events);
            && Legal(start, events, iset{key}) && OnlyBlocks(events) && Lost(start, events, key) && AtHead(run, 8)
            && Writer(run.chain, key) == Some(Write(7, b))
            && ReadKey(run.sys.store, key, 8) == Hit(a)
  {
    var b7, b8 := BlockRef("b7", 7), BlockRef("b8", 8);
    AfterTwoOverwrites(start, key, a, b);
    EighthDropsB(start, TwoOverwrites(key, a, b), key, a, b, c, Cursor(b8, b7, b8));
  }
}
