/**
 If-not-exist mode, seen through one key with its stamp: a slot, and at most one stored value under the
 block it was flushed at. This gives reads at every block, also below the flush point.
 */
module StampedReads {
  import opened Backing
  import opened ByteOrder
  import opened Chain
  import opened Entries
  import opened ForkAwareSpec
  import opened ForkRuns
  import opened KeyView
  import opened SinkerSpec
  import opened Wrappers
  import First = IfNotExistRuns

  /** `stored` is the value below the cache with the stamp it is kept under. */
  datatype StampState = StampState(slot: Option<Cached>, stored: Option<Write>)

  /** `ss` is all there is to the key in this state. */
  ghost predicate Holds(st: ForkAwareSpec.State, universe: iset<Key>, key: Key, ss: StampState) {
    && Valid(st.back, universe) && key in universe
    && (forall k :: k in st.cache ==> k in universe)
    && ss.slot == Project(st, key).slot
    && forall c: U64, v :: StoredAt(st.back, key, c, v) <==> ss.stored == Some(Write(c, v))
  }

  function ReadStamped(ss: StampState, b: U64): Lookup {
    if ss.slot.Some? && ss.slot.value.blockNumber <= b then Hit(ss.slot.value.value)
    else if ss.stored.Some? && ss.stored.value.num <= b then Hit(ss.stored.value.value)
    else Miss
  }

  /** An if-not-exist batch looks below only as far as its own block. */
  function WriteStamped(ss: StampState, mention: Option<Value>, b: U64): StampState {
    if mention.Some? && ss.slot.None? && !(ss.stored.Some? && ss.stored.value.num <= b)
    then ss.(slot := Some(Cached(mention.value, b)))
    else ss
  }

  function FlushStamped(ss: StampState, limit: U64): StampState {
    if ss.slot.Some? && ss.slot.value.blockNumber <= limit
    then StampState(None, if ss.stored.None? then Some(Write(limit, ss.slot.value.value)) else ss.stored)
    else ss
  }

  function BlockStamped(ss: StampState, data: BlockData, lib: U64, key: Key): StampState {
    match data.output
    case Some(out) => FlushStamped(WriteStamped(ss, Mention(LastWins(out.entries), key), data.clock.num), lib)
    case None => ss
  }

  lemma {:induction false} HoldsReads(st: ForkAwareSpec.State, universe: iset<Key>, key: Key, ss: StampState, b: U64)
    requires Holds(st, universe, key, ss)
    ensures ReadKey(st, key, b) == ReadStamped(ss, b)
    ensures Read(st.back, key, b) == ReadStamped(ss.(slot := None), b)
    ensures Top(st.back, key) == ValueOf(ss.stored)
  {
    ReadExact(st.back, universe, key, b);
    ReadExact(st.back, universe, key, MAX_U64);
    if ss.stored.Some? {
      assert StoredAt(st.back, key, ss.stored.value.num, ss.stored.value.value);
    }
  }

  /** Nothing in a valid store is corrupt, so a batch of known keys never fails. */
  lemma {:induction false} NeverFails(st: ForkAwareSpec.State, universe: iset<Key>, batch: map<Key, Value>, b: U64)
    requires Valid(st.back, universe) && forall k :: k in batch ==> k in universe
    ensures !SetAllFails(st, batch, true, b)
  {
    forall k | k in batch
      ensures !Read(st.back, k, b).Corrupt?
    {
      ReadExact(st.back, universe, k, b);
    }
  }

  lemma {:induction false} SetAllHolds(st: ForkAwareSpec.State, universe: iset<Key>, key: Key, ss: StampState,
                                       batch: map<Key, Value>, b: U64)
    requires Holds(st, universe, key, ss) && st.flushUpTo < b && forall k :: k in batch ==> k in universe
    ensures Holds(SetAll(st, batch, true, b), universe, key, WriteStamped(ss, Mention(batch, key), b))
  {
    HoldsReads(st, universe, key, ss, b);
  }

  lemma {:induction false} FlushHolds(st: ForkAwareSpec.State, universe: iset<Key>, key: Key, ss: StampState,
                                      limit: U64)
    requires Holds(st, universe, key, ss)
    ensures Holds(Flush(st, limit, true), universe, key, FlushStamped(ss, limit))
  {
    var flushed := Flushable(st.cache, limit);
    HoldsReads(st, universe, key, ss, limit);
    PutKeepsValid(st.back, universe, limit, flushed, true, limit);
    forall c: U64, v
      ensures StoredAt(Flush(st, limit, true).back, key, c, v) <==> FlushStamped(ss, limit).stored == Some(Write(c, v))
    {
      PutStoresNew(st.back, universe, flushed, limit, key, c, v);
    }
  }

  lemma {:induction false} BlockHolds(st: SinkerSpec.State, universe: iset<Key>, key: Key, ss: StampState,
                                      data: BlockData, cursor: Cursor)
    requires Holds(st.store, universe, key, ss) && st.store.flushUpTo < data.clock.num
    requires BlockKeysIn(data, universe) && (data.output.Some? ==> data.output.value.ifNotExist)
    ensures !BlockFails(st, data)
    ensures Holds(StoreAfter(st.store, data, cursor), universe, key, BlockStamped(ss, data, cursor.lib.num, key))
  {
    if data.output.Some? {
      var batch := LastWins(data.output.value.entries);
      NeverFails(st.store, universe, batch, data.clock.num);
      SetAllHolds(st.store, universe, key, ss, batch, data.clock.num);
      FlushHolds(SetAll(st.store, batch, true, data.clock.num), universe, key,
                 WriteStamped(ss, Mention(batch, key), data.clock.num), cursor.lib.num);
    }
  }

  // ---- Runs ----

  /** The flushes of a run, in order. */
  function FlushPoints(events: seq<Event>): seq<U64>
    decreases |events|
  {
    if |events| == 0 then [] else FlushOf(events[0]) + FlushPoints(events[1..])
  }

  function FlushOf(e: Event): seq<U64> {
    if e.BlockEvent? && e.data.output.Some? then [e.cursor.lib.num] else []
  }

  /** The first flush at or above block `num`. */
  function FirstFrom(flushes: seq<U64>, num: U64): Option<U64> {
    if |flushes| == 0 then None
    else
      var before := FirstFrom(flushes[..|flushes| - 1], num);
      if before.Some? then before
      else if flushes[|flushes| - 1] >= num then Some(flushes[|flushes| - 1])
      else None
  }

  lemma FirstFromSnoc(flushes: seq<U64>, f: U64, num: U64)
    ensures FirstFrom(flushes + [f], num)
         == if FirstFrom(flushes, num).Some? then FirstFrom(flushes, num) else if f >= num then Some(f) else None
  {
    assert (flushes + [f])[..|flushes|] == flushes;
  }

  /** The value below the cache: the standing write, if flushed, under the first flush that reached it. */
  function StoredOf(w: Option<Write>, settled: U64, flushes: seq<U64>): Option<Write> {
    if w.Some? && w.value.num <= settled && FirstFrom(flushes, w.value.num).Some?
    then Some(Write(FirstFrom(flushes, w.value.num).value, w.value.value))
    else None
  }

  /** The flush point is the highest flush so far. */
  ghost predicate Tracks(flushes: seq<U64>, settled: U64) {
    forall num: U64 | num > 0 :: FirstFrom(flushes, num).Some? <==> num <= settled
  }

  ghost function StampsOf(run: Run, flushes: seq<U64>, key: Key): StampState {
    var w := Writer(run.chain, key);
    StampState(SlotOf(w, run.settled), StoredOf(w, run.settled, flushes))
  }

  ghost predicate RunStamped(run: Run, flushes: seq<U64>, universe: iset<Key>, key: Key) {
    && First.RunInSync(run, universe, key) && Tracks(flushes, run.settled)
    && (Writer(run.chain, key).Some? ==> Writer(run.chain, key).value.num > 0)
    && Holds(run.sys.store, universe, key, StampsOf(run, flushes, key))
  }

  lemma {:induction false} TracksFlush(flushes: seq<U64>, settled: U64, f: U64)
    requires Tracks(flushes, settled)
    ensures Tracks(flushes + [f], Max(settled, f))
  {
    forall num: U64 | num > 0
      ensures FirstFrom(flushes + [f], num).Some? <==> num <= Max(settled, f)
    {
      FirstFromSnoc(flushes, f, num);
    }
  }

  /** A flush through one key: a write it reaches for the first time is stored under it. */
  lemma {:induction false} StampsAfterFlush(w: Option<Write>, settled: U64, flushes: seq<U64>, lib: U64)
    requires Tracks(flushes, settled) && (w.Some? ==> w.value.num > 0)
    ensures FlushStamped(StampState(SlotOf(w, settled), StoredOf(w, settled, flushes)), lib)
         == StampState(SlotOf(w, Max(settled, lib)), StoredOf(w, Max(settled, lib), flushes + [lib]))
  {
    if w.Some? {
      FirstFromSnoc(flushes, lib, w.value.num);
    }
  }

  lemma {:induction false} BlockStamps(run: Run, flushes: seq<U64>, universe: iset<Key>, key: Key,
                                       data: BlockData, cursor: Cursor)
    requires RunStamped(run, flushes, universe, key) && LegalStep(run, BlockEvent(data, cursor), universe)
    requires data.output.Some? ==> data.output.value.ifNotExist
    ensures var run' := Step(run, BlockEvent(data, cursor));
            && BlockStamped(StampsOf(run, flushes, key), data, cursor.lib.num, key)
               == StampsOf(run', flushes + FlushOf(BlockEvent(data, cursor)), key)
            && (Writer(run'.chain, key).Some? ==> Writer(run'.chain, key).value.num > 0)
  {
    var blk, ss := AsBlock(data), StampsOf(run, flushes, key);
    WriterSnoc(run.chain, blk, key);
    assert flushes + [] == flushes;
    if data.output.Some? {
      var mention := Mention(LastWins(data.output.value.entries), key);
      var w' := Writer(run.chain + [blk], key);
      HoldsReads(run.sys.store, universe, key, ss, data.clock.num);
      assert WriteStamped(ss, mention, data.clock.num)
          == StampState(SlotOf(w', run.settled), StoredOf(w', run.settled, flushes)) by {
        StoredStamp(run.chain, flushes, run.settled, key);
      }
      StampsAfterFlush(w', run.settled, flushes, cursor.lib.num);
    }
  }

  /** A flushed standing write is stored under a stamp at or below the flush point. */
  lemma {:induction false} StoredStamp(chain: seq<Block>, flushes: seq<U64>, settled: U64, key: Key)
    requires Tracks(flushes, settled) && (Writer(chain, key).Some? ==> Writer(chain, key).value.num > 0)
    ensures var w := Writer(chain, key);
            && (w.Some? && w.value.num <= settled <==> StoredOf(w, settled, flushes).Some?)
            && (StoredOf(w, settled, flushes).Some? ==> StoredOf(w, settled, flushes).value.num <= settled)
  {
    if StoredOf(Writer(chain, key), settled, flushes).Some? {
      FirstFromBounded(flushes, settled, Writer(chain, key).value.num);
    }
  }

  lemma {:induction false} FirstFromBounded(flushes: seq<U64>, settled: U64, num: U64)
    requires Tracks(flushes, settled) && FirstFrom(flushes, num).Some?
    ensures FirstFrom(flushes, num).value <= settled
  {
    var f := FirstFrom(flushes, num).value;
    FirstFromReaches(flushes, num);
    if f > 0 {
      assert FirstFrom(flushes, f).Some?;
    }
  }

  lemma {:induction false} FirstFromReaches(flushes: seq<U64>, num: U64)
    requires FirstFrom(flushes, num).Some?
    ensures num <= FirstFrom(flushes, num).value
    ensures FirstFrom(flushes, FirstFrom(flushes, num).value).Some?
  {
    var f, front := FirstFrom(flushes, num).value, flushes[..|flushes| - 1];
    if FirstFrom(front, num).Some? {
      FirstFromReaches(front, num);
    }
  }

  lemma {:induction false} StepStamped(run: Run, flushes: seq<U64>, e: Event, universe: iset<Key>, key: Key)
    requires RunStamped(run, flushes, universe, key) && LegalStep(run, e, universe) && EventInMode(e, true)
    ensures RunStamped(Step(run, e), flushes + FlushOf(e), universe, key)
  {
    First.StepInSync(run, e, universe, key);
    var ss := StampsOf(run, flushes, key);
    match e
    case BlockEvent(data, cursor) =>
      BlockHolds(run.sys, universe, key, ss, data, cursor);
      BlockStamps(run, flushes, universe, key, data, cursor);
      TracksFlush(flushes, run.settled, cursor.lib.num);
      assert flushes + [] == flushes;
    case UndoEvent(lastValid, _) =>
      assert flushes + [] == flushes;
      CutStamps(run, flushes, universe, key, UndoBound(lastValid, run.settled));
    case RestartEvent =>
      assert flushes + [] == flushes;
      CutStamps(run, flushes, universe, key, run.settled);
  }

  /** A cut at or above the flush point leaves what is stored, and the slot if it lies below the cut. */
  lemma {:induction false} CutStamps(run: Run, flushes: seq<U64>, universe: iset<Key>, key: Key, bound: int)
    requires RunStamped(run, flushes, universe, key) && run.settled <= bound
    ensures var w, cut := Writer(run.chain, key), Writer(UpTo(run.chain, bound), key);
            && (cut.Some? ==> cut == w)
            && StoredOf(cut, run.settled, flushes) == StoredOf(w, run.settled, flushes)
  {
    WriterUpTo(run.chain, key, bound);
  }

  lemma {:induction false} ExecStamped(run: Run, flushes: seq<U64>, events: seq<Event>, universe: iset<Key>, key: Key)
    requires RunStamped(run, flushes, universe, key) && Legal(run, events, universe) && InOneMode(events, true)
    ensures RunStamped(Exec(run, events), flushes + FlushPoints(events), universe, key)
    decreases |events|
  {
    if |events| == 0 {
      assert flushes + FlushPoints(events) == flushes;
    } else {
      assert EventInMode(events[0], true);
      StepStamped(run, flushes, events[0], universe, key);
      ExecStamped(Step(run, events[0]), flushes + FlushOf(events[0]), events[1..], universe, key);
      Append(flushes, FlushOf(events[0]), FlushPoints(events[1..]));
    }
  }

  lemma Append(a: seq<U64>, b: seq<U64>, c: seq<U64>)
    ensures a + b + c == a + (b + c)
  {
  }

  /** The block from which a write is found: the first flush that reaches it, or its own until then. */
  function SeenFrom(events: seq<Event>, num: U64): U64 {
    match FirstFrom(FlushPoints(events), num)
    case Some(f) => f
    case None => num
  }

  /**
   Reads at every block. After every legal if-not-exist run, over either store, a read finds the key's
   first surviving write exactly from the first flush point at or above it, or from its own block
   while it is not flushed; below that it finds nothing.
   */
  lemma {:induction false} ReadsAtEveryBlock(start: Run, events: seq<Event>, universe: iset<Key>, key: Key, b: U64)
    requires IsStart(start, universe) && Legal(start, events, universe) && InOneMode(events, true) && key in universe
    ensures var run := Exec(start, events);
            ReadKey(run.sys.store, key, b)
            == match Writer(run.chain, key)
               case Some(w) => if SeenFrom(events, w.num) <= b then Hit(w.value) else Miss
               case None => Miss
  {
    StartInv(start, universe);
    StartStamped(start, universe, key);
    ExecStamped(start, [], events, universe, key);
    var run, flushes := Exec(start, events), FlushPoints(events);
    assert [] + flushes == flushes;
    HoldsReads(run.sys.store, universe, key, StampsOf(run, flushes, key), b);
    StoredStamp(run.chain, flushes, run.settled, key);
  }

  lemma {:induction false} StartStamped(start: Run, universe: iset<Key>, key: Key)
    requires IsStart(start, universe) && key in universe
    ensures RunStamped(start, [], universe, key)
  {
    StartInv(start, universe);
  }
}
