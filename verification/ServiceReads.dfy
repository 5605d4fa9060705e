/**
 What the query service makes of the stores: the head-block gate in front of every request, and the
 definition `GetFirst` is published with.
 */
module ServiceReads {
  import opened Backing
  import opened ByteOrder
  import opened Chain
  import opened Entries
  import opened FirstReads
  import opened ForkAwareSpec
  import opened ForkRuns
  import opened KeyView
  import opened SinkerSpec
  import opened Wrappers

  // ---- The head gate after a restart ----

  /** A request about block `b` is answered rather than turned away. */
  ghost predicate GateOpen(st: SinkerSpec.State, b: U64) {
    b <= st.headBlock
  }

  /** Everything the gate lets through is answered as before. */
  ghost predicate AnswersAsBefore(st: SinkerSpec.State, st': SinkerSpec.State) {
    forall key, b: U64 | GateOpen(st', b) :: ReadKey(st'.store, key, b) == ReadKey(st.store, key, b)
  }

  /**
   The gate opens up to the chain's head as the saved cursor recorded it, not up to the block the stream
   resumes after. What it lets through before the replay is answered as before the crash if and only if
   every slot the gate reaches holds the value already stored below it.
   */
  lemma {:induction false} GateAfterRestart(st: SinkerSpec.State, universe: iset<Key>, settled: U64)
    requires Sound(st.store, universe, settled)
    ensures AnswersAsBefore(st, Restart(st))
       <==> forall k :: k in st.store.cache && GateOpen(Restart(st), st.store.cache[k].blockNumber) ==>
              Top(st.store.back, k) == Some(st.store.cache[k].value)
  {
    var after := Restart(st);
    forall k: Key, b: U64 | k in st.store.cache && st.store.cache[k].blockNumber <= b
      ensures ReadKey(after.store, k, b) == ReadKey(st.store, k, b)
         <==> Top(st.store.back, k) == Some(st.store.cache[k].value)
    {
      ReadAbove(st.store.back, universe, settled, k, b);
    }
    forall k | k in st.store.cache && GateOpen(after, st.store.cache[k].blockNumber) && AnswersAsBefore(st, after)
      ensures Top(st.store.back, k) == Some(st.store.cache[k].value)
    {
      assert ReadKey(after.store, k, st.store.cache[k].blockNumber)
          == ReadKey(st.store, k, st.store.cache[k].blockNumber);
    }
  }

  /**
   A run on which it is not: block 7 writes `key` while the chain's head is 9 and block 5 is irreversible. The
   saved cursor is block 5's, so block 7 is still to be played again; a request about block 7 passes the
   gate meanwhile and finds nothing.
   */
  lemma {:induction false} GateOpensTooEarly(start: Run, key: Key, value: Value)
    requires IsStart(start, iset{key})
    ensures var b3, b5, b7, b9 := BlockRef("b3", 3), BlockRef("b5", 5), BlockRef("b7", 7), BlockRef("b9", 9);
            var c5, c7 := Cursor(b5, b3, b9), Cursor(b7, b5, b9);
            var events := [BlockEvent(BlockData(b5, None), c5), OneWrite(c7, key, value, true)];
            var st := Exec(start, events).sys;
            && Legal(start, events, iset{key})
            && st.cursorFile == Some(c5)
            && ReadKey(st.store, key, 7) == Hit(value)
            && GateOpen(Restart(st), 7) && ReadKey(Restart(st).store, key, 7) == Miss
  {
    var b3, b5, b7, b9 := BlockRef("b3", 3), BlockRef("b5", 5), BlockRef("b7", 7), BlockRef("b9", 9);
    var c5, c7 := Cursor(b5, b3, b9), Cursor(b7, b5, b9);
    var five, seven := BlockEvent(BlockData(b5, None), c5), OneWrite(c7, key, value, true);
    QuietBlock(start, five, key);
    ExecPair(start, five, seven, iset{key});
    WriteThenRestart(Step(start, five), c5, c7, key, value);
  }

  /** A first block without output only files its cursor. */
  lemma {:induction false} QuietBlock(start: Run, e: Event, key: Key)
    requires IsStart(start, iset{key}) && e.BlockEvent? && e.data.output.None?
    requires 0 < e.cursor.lib.num < e.data.clock.num && e.data.clock == e.cursor.block
    ensures LegalStep(start, e, iset{key}) && RunInv(Step(start, e), iset{key})
    ensures Step(start, e).settled == 0
    ensures forall i :: 0 <= i < |Step(start, e).chain| ==> Step(start, e).chain[i].num <= e.data.clock.num
    ensures Project(Step(start, e).sys.store, key) == KeyState(None, None)
    ensures Step(start, e).sys.history == map[e.cursor.block.id := e.cursor]
  {
    StartInv(start, iset{key});
    StepKeeps(start, e, iset{key});
    StepProjects(start, e, iset{key}, key);
  }

  lemma {:induction false} WriteThenRestart(run: Run, c5: Cursor, c7: Cursor, key: Key, value: Value)
    requires RunInv(run, iset{key}) && run.settled == 0 && forall i :: 0 <= i < |run.chain| ==> run.chain[i].num <= 5
    requires Project(run.sys.store, key) == KeyState(None, None) && run.sys.history == map[c5.block.id := c5]
    requires c5.head.num == 9 && c7.block.num == 7 && c7.lib == c5.block && c7.block.id != c5.block.id
        && c7.lib.num == 5
    ensures var run' := Step(run, OneWrite(c7, key, value, true));
            && LegalStep(run, OneWrite(c7, key, value, true), iset{key}) && run'.sys.cursorFile == Some(c5)
            && ReadKey(run'.sys.store, key, 7) == Hit(value)
            && GateOpen(Restart(run'.sys), 7) && ReadKey(Restart(run'.sys).store, key, 7) == Miss
  {
    OneWriteStep(run, c7, key, value, true);
    var run' := Step(run, OneWrite(c7, key, value, true));
    ReadProjects(run'.sys.store, iset{key}, 5, key, 7);
    RestartProjects(run'.sys, iset{key}, 5);
    ReadProjects(Restart(run'.sys).store, iset{key}, 5, key, 7);
  }

  // ---- GetFirst against its definition ----

  /** `key` has a value stamped at or below `b`. */
  ghost predicate PresentAt(back: Back, key: Key, b: U64) {
    exists c: U64, v :: c <= b && StoredAt(back, key, c, v)
  }

  /** The published definition: the least key at or after the requested one that is there at block `b`. */
  ghost predicate MeetsDefinition(back: Back, key: Key, b: U64, a: Answer) {
    match a
    case Found(k, value) =>
      && (exists c: U64 :: c <= b && StoredAt(back, k, c, value)) && !Less(k, key)
      && forall j :: PresentAt(back, j, b) && !Less(j, key) ==> !Less(j, k)
    case NotFound(_) => forall j :: PresentAt(back, j, b) ==> Less(j, key)
  }

  ghost predicate NothingAfter(back: Back, key: Key, b: U64) {
    forall j :: PresentAt(back, j, b) ==> !Less(key, j)
  }

  /** If the key itself is not there, everything else is before it or after it. */
  lemma {:induction false} NoneMeetsDefinition(back: Back, key: Key, b: U64)
    requires !PresentAt(back, key, b)
    ensures MeetsDefinition(back, key, b, NotFound(key)) <==> NothingAfter(back, key, b)
  {
    forall j | PresentAt(back, j, b)
      ensures Less(j, key) <==> !Less(key, j)
    {
      LessTotal(j, key);
      if Less(j, key) {
        LessAsymmetric(j, key);
      }
    }
  }

  /**
   `GetFirst`, exactly: a store's answer is the one of the definition if and only if the requested key is
   there at the block, or there is nothing the store would answer with and no key after it is there.
   */
  lemma {:induction false} GetFirstExact(back: Back, universe: iset<Key>, key: Key, b: U64)
    requires Valid(back, universe) && key in universe
    ensures var r := Outcome(key, ReadFirst(back, key, b));
            && r.Ok?
            && (MeetsDefinition(back, key, b, r.value)
                <==> PresentAt(back, key, b) || (!PresentAt(back, key, Reach(back, b)) && NothingAfter(back, key, b)))
  {
    var r := Outcome(key, ReadFirst(back, key, b));
    ReadFirstOwes(back, universe, key, b);
    if r.value.Found? {
      LessIrreflexive(key);
    } else {
      assert !PresentAt(back, key, b);
      NoneMeetsDefinition(back, key, b);
    }
  }

  /** Neither: `[2]` is stored, `[1]` is asked for, and the answer is that there is nothing. */
  lemma {:induction false} GetFirstStopsAtKey(value: Value)
    ensures var back := TimeTravel(map[Keys.Composite([2], 5) := value]);
            && ReadFirst(back, [1], 5) == Miss
            && !MeetsDefinition(back, [1], 5, NotFound([1]))
  {
    var back, universe := TimeTravel(map[Keys.Composite([2], 5) := value]), iset k: Key | |k| == 1;
    Keys.FixedLengthIsPrefixFree(1);
    Keys.SplitComposite([2], 5);
    assert Less([1], [2]);
    LessAsymmetric([1], [2]);
    assert StoredAt(back, [2], 5, value);
    assert PresentAt(back, [2], 5);
    forall c: U64, v
      ensures !StoredAt(back, [1], c, v)
    {
      assert Keys.Composite([1], c)[0] == 1 && Keys.Composite([2], 5)[0] == 2;
    }
    ReadFirstOwes(back, universe, [1], 5);
  }
}
