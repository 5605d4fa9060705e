/**
 What `GetFirst` answers: the value under the oldest stamp that the store below keeps, with cache slots laid
 over it, for any state and over whole runs.
 */
module FirstReads {
  import opened Backing
  import opened ByteOrder
  import opened Chain
  import opened Entries
  import FanOut
  import opened ForkAwareSpec
  import opened ForkRuns
  import opened KeyView
  import opened SinkerSpec
  import opened StampedReads
  import opened Wrappers
  import First = IfNotExistRuns
  import Last = OverwriteRuns
  import Lookups = TimeTravelLookup
  import Writes = TimeTravelWrites

  // ---- The stores below ----

  /** How far up a store's `GetFirst` looks: the time-travel store pays no attention to the request's block. */
  function Reach(back: Back, b: U64): U64 {
    if back.TimeTravel? then MAX_U64 else b
  }

  /** `value` is stored under the least of the key's stamps. */
  ghost predicate OldestIs(back: Back, key: Key, at: U64, value: Value) {
    && StoredAt(back, key, at, value)
    && forall c: U64, v | StoredAt(back, key, c, v) :: at <= c
  }

  /** The answer a store owes for a key: its oldest value, or nothing if it has none in reach. */
  ghost predicate AnswersOldest(back: Back, key: Key, b: U64, a: Answer) {
    match a
    case Found(k, value) => k == key && exists at: U64 :: at <= Reach(back, b) && OldestIs(back, key, at, value)
    case NotFound(k) => k == key && forall c: U64, v | StoredAt(back, key, c, v) :: c > Reach(back, b)
  }

  /** One key of a store's `GetFirst`. */
  ghost predicate Owes(back: Back, key: Key, b: U64, r: Result<Answer, StoreError>) {
    r.Ok? && AnswersOldest(back, key, b, r.value)
  }

  lemma {:induction false} OldestVersion(kv: map<Bytes, Bytes>, universe: iset<Key>, key: Key, b: U64)
    requires Valid(TimeTravel(kv), universe) && key in universe
    ensures Owes(TimeTravel(kv), key, b, Outcome(key, Lookups.ReadFirst(kv, key)))
  {
    Lookups.ReadFirstIsOldest(kv, universe, key);
    OldestStored(kv, key);
  }

  /** The oldest version in terms of what is stored. */
  lemma {:induction false} OldestStored(kv: map<Bytes, Bytes>, key: Key)
    ensures match Keys.EarliestFrom(Keys.Versions(kv), key, 0)
            case Some(at) => OldestIs(TimeTravel(kv), key, at, Keys.Versions(kv)[Keys.Version(key, at)])
            case None => forall c: U64, v :: !StoredAt(TimeTravel(kv), key, c, v)
  {
    forall c: U64, v | StoredAt(TimeTravel(kv), key, c, v)
      ensures Keys.Version(key, c) in Keys.Versions(kv)
    {
    }
  }

  /** A cell holds one value, so that is its oldest. */
  lemma {:induction false} OldestCell(kv: map<Bytes, Bytes>, universe: iset<Key>, key: Key, b: U64)
    requires Valid(Latest(kv), universe)
    ensures Owes(Latest(kv), key, b, Outcome(key, Cells.Read(kv, key, b)))
  {
    ReadExactLatest(kv, universe, key, b);
    if key in kv {
      Cells.CellOnto(kv[key]);
      assert StoredAt(Latest(kv), key, DecodeU64(kv[key][..8]), kv[key][8..]);
      forall c: U64, v | StoredAt(Latest(kv), key, c, v)
        ensures c == DecodeU64(kv[key][..8])
      {
        Cells.CellParts(c, v);
      }
      assert OldestIs(Latest(kv), key, DecodeU64(kv[key][..8]), kv[key][8..]);
    }
  }

  lemma {:induction false} ReadFirstOwes(back: Back, universe: iset<Key>, key: Key, b: U64)
    requires Valid(back, universe) && key in universe
    ensures Owes(back, key, b, Outcome(key, ReadFirst(back, key, b)))
  {
    match back
    case TimeTravel(kv) => OldestVersion(kv, universe, key, b);
    case Latest(kv) => OldestCell(kv, universe, key, b);
  }

  /** A whole `GetFirst` of a store: no error, and the oldest value of each key at its position. */
  lemma {:induction false} FirstGathers(back: Back, universe: iset<Key>, keys: seq<Key>, b: U64,
                                        r: Result<seq<Answer>, StoreError>)
    requires Valid(back, universe) && (forall k :: k in keys ==> k in universe)
    requires FanOut.Gathers(OutcomesFirst(back, keys, b), r)
    ensures r.Ok? && |r.value| == |keys|
    ensures forall i :: 0 <= i < |keys| ==> AnswersOldest(back, keys[i], b, r.value[i])
  {
    forall i | 0 <= i < |keys|
      ensures Owes(back, keys[i], b, OutcomesFirst(back, keys, b)[i])
    {
      OutcomeAt(back, keys, b, i);
      ReadFirstOwes(back, universe, keys[i], b);
    }
  }

  // ---- The cache over them ----

  /** The answer owed for a key with cache slots laid over the store. */
  ghost predicate AnswersFirst(st: ForkAwareSpec.State, key: Key, b: U64, a: Answer) {
    if key in st.cache && st.cache[key].blockNumber <= b then a == Found(key, st.cache[key].value)
    else AnswersOldest(st.back, key, b, a)
  }

  /** A whole `GetFirst`: no error, and position by position a slot in reach, else the oldest value below. */
  lemma {:induction false} FirstResponds(st: ForkAwareSpec.State, universe: iset<Key>, keys: seq<Key>, b: U64,
                                         r: Result<seq<Answer>, StoreError>)
    requires Valid(st.back, universe) && (forall k :: k in keys ==> k in universe)
    requires RespondsFirst(st, keys, b, r)
    ensures r.Ok? && |r.value| == |keys|
    ensures forall i :: 0 <= i < |keys| ==> AnswersFirst(st, keys[i], b, r.value[i])
  {
    forall k | k in keys
      ensures Owes(st.back, k, b, Outcome(k, ReadFirst(st.back, k, b)))
    {
      ReadFirstOwes(st.back, universe, k, b);
    }
    if r.Ok? {
      forall i | 0 <= i < |keys|
        ensures AnswersFirst(st, keys[i], b, r.value[i])
      {
        assert keys[i] in keys && Ok(r.value[i]) == Outcome(keys[i], ReadKeyFirst(st, keys[i], b));
      }
    }
  }

  // ---- If-not-exist runs ----

  /** The answer a request should get for `key` at `b`: its first surviving write, from where it is seen; over
      the time-travel store at any block once it is flushed. */
  ghost function FirstAnswer(run: Run, events: seq<Event>, key: Key, b: U64): Answer {
    match Writer(run.chain, key)
    case Some(w) =>
      if SeenFrom(events, w.num) <= b || (run.sys.store.back.TimeTravel? && w.num <= run.settled)
      then Found(key, w.value) else NotFound(key)
    case None => NotFound(key)
  }

  lemma {:induction false} StampedFirst(st: ForkAwareSpec.State, universe: iset<Key>, key: Key, ss: StampState,
                                        b: U64, a: Answer)
    requires Holds(st, universe, key, ss) && AnswersFirst(st, key, b, a)
    ensures a == if ss.slot.Some? && ss.slot.value.blockNumber <= b then Found(key, ss.slot.value.value)
                 else if ss.stored.Some? && ss.stored.value.num <= Reach(st.back, b)
                 then Found(key, ss.stored.value.value)
                 else NotFound(key)
  {
    if ss.stored.Some? {
      assert StoredAt(st.back, key, ss.stored.value.num, ss.stored.value.value);
    }
  }

  lemma {:induction false} FirstOfRun(start: Run, events: seq<Event>, universe: iset<Key>, key: Key, b: U64, a: Answer)
    requires IsStart(start, universe) && Legal(start, events, universe) && InOneMode(events, true) && key in universe
    requires AnswersFirst(Exec(start, events).sys.store, key, b, a)
    ensures a == FirstAnswer(Exec(start, events), events, key, b)
  {
    RunStamps(start, events, universe, key);
    var run := Exec(start, events);
    StampedFirst(run.sys.store, universe, key, StampsOf(run, FlushPoints(events), key), b, a);
  }

  /** The key's stamps after the run, and how far up its flushed write is stored. */
  lemma {:induction false} RunStamps(start: Run, events: seq<Event>, universe: iset<Key>, key: Key)
    requires IsStart(start, universe) && Legal(start, events, universe) && InOneMode(events, true) && key in universe
    ensures var run, flushes := Exec(start, events), FlushPoints(events);
            && Holds(run.sys.store, universe, key, StampsOf(run, flushes, key)) && Increasing(run.chain)
            && Uniform(run.chain, true)
            && (Writer(run.chain, key).Some? ==>
                  var w := Writer(run.chain, key).value;
                  && (w.num <= run.settled <==> FirstFrom(flushes, w.num).Some?)
                  && (w.num <= run.settled ==> SeenFrom(events, w.num) <= run.settled))
  {
    StartStamped(start, universe, key);
    ExecStamped(start, [], events, universe, key);
    var run, flushes := Exec(start, events), FlushPoints(events);
    assert [] + flushes == flushes;
    StoredStamp(run.chain, flushes, run.settled, key);
  }

  /**
   `GetFirst` at every block. After every legal if-not-exist run, over either store, it answers with the key's
   first surviving write; over the time-travel store it does so at any block once the write is flushed.
   */
  lemma {:induction false} FirstAtEveryBlock(start: Run, events: seq<Event>, universe: iset<Key>, keys: seq<Key>,
                                             b: U64, r: Result<seq<Answer>, StoreError>)
    requires IsStart(start, universe) && Legal(start, events, universe) && InOneMode(events, true)
    requires (forall k :: k in keys ==> k in universe) && RespondsFirst(Exec(start, events).sys.store, keys, b, r)
    ensures r.Ok? && |r.value| == |keys|
    ensures forall i :: 0 <= i < |keys| ==> r.value[i] == FirstAnswer(Exec(start, events), events, keys[i], b)
  {
    StartInv(start, universe);
    ExecKeeps(start, events, universe);
    FirstResponds(Exec(start, events).sys.store, universe, keys, b, r);
    forall i | 0 <= i < |keys|
      ensures r.value[i] == FirstAnswer(Exec(start, events), events, keys[i], b)
    {
      FirstOfRun(start, events, universe, keys[i], b, r.value[i]);
    }
  }

  lemma {:induction false} FirstAboveFlush(start: Run, events: seq<Event>, universe: iset<Key>, key: Key, b: U64)
    requires IsStart(start, universe) && Legal(start, events, universe) && InOneMode(events, true) && key in universe
    requires Exec(start, events).settled <= b
    ensures var run := Exec(start, events);
            FirstAnswer(run, events, key, b) == First.FirstWriteAnswer(run.chain, key, b)
  {
    RunStamps(start, events, universe, key);
    WriterUpTo(Exec(start, events).chain, key, b);
    WriterBounded(Exec(start, events).chain, key, b);
  }

  /** At or above the flush point `GetFirst` gives the answers of `Get`: position by position the first write of
      the key among the surviving blocks at or below the one asked about, and no error. */
  lemma {:induction false} FirstRefinement(start: Run, events: seq<Event>, universe: iset<Key>, keys: seq<Key>,
                                           b: U64, r: Result<seq<Answer>, StoreError>)
    requires IsStart(start, universe) && Legal(start, events, universe) && InOneMode(events, true)
    requires (forall k :: k in keys ==> k in universe) && Exec(start, events).settled <= b
    requires RespondsFirst(Exec(start, events).sys.store, keys, b, r)
    ensures r.Ok? && |r.value| == |keys|
    ensures forall i :: 0 <= i < |keys| ==> r.value[i] == First.FirstWriteAnswer(Exec(start, events).chain, keys[i], b)
  {
    FirstAtEveryBlock(start, events, universe, keys, b, r);
    forall k | k in keys
      ensures FirstAnswer(Exec(start, events), events, k, b) == First.FirstWriteAnswer(Exec(start, events).chain, k, b)
    {
      FirstAboveFlush(start, events, universe, k, b);
    }
  }

  // ---- Overwrite and mixed runs ----

  /** The key's slot holds its standing write, if that is not flushed, and is empty otherwise. */
  ghost predicate SlotStands(run: Run, key: Key) {
    Project(run.sys.store, key).slot == SlotOf(Writer(run.chain, key), run.settled)
  }

  /** The answer owed by chain and store: an unflushed standing write in reach, else the oldest stored value. */
  ghost predicate AnswersUnflushed(run: Run, key: Key, b: U64, a: Answer) {
    var w := Writer(run.chain, key);
    if w.Some? && run.settled < w.value.num <= b then a == Found(key, w.value.value)
    else AnswersOldest(run.sys.store.back, key, b, a)
  }

  lemma {:induction false} StandingIsServed(run: Run, universe: iset<Key>, keys: seq<Key>, b: U64,
                                            r: Result<seq<Answer>, StoreError>)
    requires RunInv(run, universe) && (forall k :: k in keys ==> k in universe)
    requires RespondsFirst(run.sys.store, keys, b, r)
    ensures r.Ok? && |r.value| == |keys|
    ensures forall i :: 0 <= i < |keys| && SlotStands(run, keys[i]) ==> AnswersUnflushed(run, keys[i], b, r.value[i])
  {
    FirstResponds(run.sys.store, universe, keys, b, r);
  }

  /** Through one key, whatever the flags: a slot is a standing write, and an unflushed one has its slot. */
  ghost predicate MixedSlot(ks: KeyState, w: Option<Write>, settled: U64) {
    && ks.slot == SlotOf(w, settled)
    && (w.None? <==> ks.slot.None? && ks.top.None?)
  }

  lemma {:induction false} BlockKeepsSlot(ks: KeyState, chain: seq<Block>, settled: U64, data: BlockData, lib: U64,
                                          key: Key)
    requires MixedSlot(ks, Writer(chain, key), settled) && settled < data.clock.num
    ensures MixedSlot(BlockKey(ks, data, lib, key), Writer(chain + [AsBlock(data)], key),
                      SettledAfter(settled, data, lib))
  {
    WriterSnoc(chain, AsBlock(data), key);
  }

  lemma {:induction false} BlocksKeepSlot(run: Run, events: seq<Event>, universe: iset<Key>, key: Key)
    requires RunInv(run, universe) && Legal(run, events, universe) && OnlyBlocks(events) && key in universe
    requires MixedSlot(Project(run.sys.store, key), Writer(run.chain, key), run.settled)
    ensures SlotStands(Exec(run, events), key)
    decreases |events|
  {
    if |events| > 0 {
      var e := events[0];
      StepKeeps(run, e, universe);
      StepProjects(run, e, universe, key);
      BlockKeepsSlot(Project(run.sys.store, key), run.chain, run.settled, e.data, e.cursor.lib.num, key);
      BlocksKeepSlot(Step(run, e), events[1..], universe, key);
    }
  }

  /**
   `GetFirst` after blocks with any flags, over either store: no error, and position by position the key's
   standing write if that is unflushed and at or below the block asked about, else its oldest stored value.
   */
  lemma {:induction false} FirstAfterBlocks(start: Run, events: seq<Event>, universe: iset<Key>, keys: seq<Key>,
                                            b: U64, r: Result<seq<Answer>, StoreError>)
    requires IsStart(start, universe) && Legal(start, events, universe) && OnlyBlocks(events)
    requires (forall k :: k in keys ==> k in universe) && RespondsFirst(Exec(start, events).sys.store, keys, b, r)
    ensures r.Ok? && |r.value| == |keys|
    ensures forall i :: 0 <= i < |keys| ==> AnswersUnflushed(Exec(start, events), keys[i], b, r.value[i])
  {
    StartInv(start, universe);
    ExecKeeps(start, events, universe);
    forall k | k in keys
      ensures SlotStands(Exec(start, events), k)
    {
      BlocksKeepSlot(start, events, universe, k);
    }
    StandingIsServed(Exec(start, events), universe, keys, b, r);
  }

  /** The same after any legal overwrite run, undos and restarts included, for the keys it is safe for. */
  lemma {:induction false} FirstAfterOverwrites(start: Run, events: seq<Event>, universe: iset<Key>, keys: seq<Key>,
                                                b: U64, r: Result<seq<Answer>, StoreError>)
    requires IsStart(start, universe) && Legal(start, events, universe) && InOneMode(events, false)
    requires (forall k :: k in keys ==> k in universe) && RespondsFirst(Exec(start, events).sys.store, keys, b, r)
    ensures r.Ok? && |r.value| == |keys|
    ensures forall i :: 0 <= i < |keys| && Last.SafeRun(start, events, keys[i]) ==>
              AnswersUnflushed(Exec(start, events), keys[i], b, r.value[i])
  {
    StartInv(start, universe);
    ExecKeeps(start, events, universe);
    forall k | k in keys && Last.SafeRun(start, events, k)
      ensures SlotStands(Exec(start, events), k)
    {
      Last.ExecInSync(start, events, universe, k);
    }
    StandingIsServed(Exec(start, events), universe, keys, b, r);
  }

  // ---- What is oldest stays oldest ----

  /** Over the time-travel store a batch above a key's oldest stamp leaves it the oldest. */
  lemma {:induction false} PutKeepsOldest(kv: map<Bytes, Bytes>, batch: map<Key, Value>, ifNotExist: bool, b: U64,
                                          key: Key, at: U64, value: Value)
    requires OldestIs(TimeTravel(kv), key, at, value) && at < b
    ensures OldestIs(Put(TimeTravel(kv), batch, ifNotExist, b), key, at, value)
  {
    Writes.PutHas(kv, batch, ifNotExist, b, key, at);
    forall c: U64, v | StoredAt(Put(TimeTravel(kv), batch, ifNotExist, b), key, c, v)
      ensures at <= c
    {
      PutStores(TimeTravel(kv), batch, ifNotExist, b, key, c, v);
    }
  }

  lemma {:induction false} StepKeepsOldest(run: Run, e: Event, universe: iset<Key>, key: Key, at: U64, value: Value)
    requires RunInv(run, universe) && LegalStep(run, e, universe) && run.sys.store.back.TimeTravel?
    requires OldestIs(run.sys.store.back, key, at, value)
    ensures Step(run, e).sys.store.back.TimeTravel? && OldestIs(Step(run, e).sys.store.back, key, at, value)
  {
    if e.BlockEvent? && e.data.output.Some? {
      var out := e.data.output.value;
      var st := SetAll(run.sys.store, LastWins(out.entries), out.ifNotExist, e.data.clock.num);
      BlockSound(run.sys, universe, run.settled, e.data, e.cursor);
      SetAllSound(run.sys.store, universe, run.settled, LastWins(out.entries), out.ifNotExist, e.data.clock.num);
      FlushKeepsOldest(st, universe, run.settled, e.cursor.lib.num, out.ifNotExist, key, at, value);
    }
  }

  lemma {:induction false} FlushKeepsOldest(st: ForkAwareSpec.State, universe: iset<Key>, settled: U64, limit: U64,
                                            ifNotExist: bool, key: Key, at: U64, value: Value)
    requires Sound(st, universe, settled) && st.back.TimeTravel? && OldestIs(st.back, key, at, value)
    ensures Flush(st, limit, ifNotExist).back.TimeTravel? && OldestIs(Flush(st, limit, ifNotExist).back, key, at, value)
  {
    if limit <= settled {
      assert Flushable(st.cache, limit) == map[];
      FlushNothing(st, limit, ifNotExist);
    } else {
      PutKeepsOldest(st.back.kv, Flushable(st.cache, limit), ifNotExist, limit, key, at, value);
    }
  }

  /**
   The first answer is for good. Over the time-travel store no legal run, whatever its flags, undos and
   restarts, ever changes which value of a key is the oldest once one is stored.
   */
  lemma {:induction false} OldestStays(run: Run, events: seq<Event>, universe: iset<Key>, key: Key, at: U64,
                                       value: Value)
    requires RunInv(run, universe) && Legal(run, events, universe) && run.sys.store.back.TimeTravel?
    requires OldestIs(run.sys.store.back, key, at, value)
    ensures Exec(run, events).sys.store.back.TimeTravel?
    ensures OldestIs(Exec(run, events).sys.store.back, key, at, value)
    decreases |events|
  {
    if |events| > 0 {
      StepKeepsOldest(run, events[0], universe, key, at, value);
      StepKeeps(run, events[0], universe);
      OldestStays(Step(run, events[0]), events[1..], universe, key, at, value);
    }
  }

  /** The block that first stores a key: what it stores is the oldest value from then on, stamped with its
      irreversible block, and it is the key's standing write. */
  lemma {:induction false} FirstStored(run: Run, e: Event, universe: iset<Key>, key: Key)
    requires RunInv(run, universe) && LegalStep(run, e, universe) && e.BlockEvent? && key in universe
    requires run.sys.store.back.TimeTravel?
    requires MixedSlot(Project(run.sys.store, key), Writer(run.chain, key), run.settled)
    requires Top(run.sys.store.back, key).None? && Top(Step(run, e).sys.store.back, key).Some?
    ensures var run' := Step(run, e);
            && Writer(run'.chain, key).Some?
            && OldestIs(run'.sys.store.back, key, e.cursor.lib.num, Writer(run'.chain, key).value.value)
  {
    var back, back' := run.sys.store.back, Step(run, e).sys.store.back;
    StepKeeps(run, e, universe);
    StepProjects(run, e, universe, key);
    BlockStandsStored(Project(run.sys.store, key), run.chain, run.settled, e.data, e.cursor.lib.num, key);
    ReadExact(back, universe, key, MAX_U64);
    ReadExact(back', universe, key, MAX_U64);
    BlockPuts(run, e, universe);
    var out := e.data.output.value;
    var st := SetAll(run.sys.store, LastWins(out.entries), out.ifNotExist, e.data.clock.num);
    OnlyNew(back, Flushable(st.cache, e.cursor.lib.num), out.ifNotExist, e.cursor.lib.num, key,
            Top(back', key).value);
  }

  lemma BlockStandsStored(ks: KeyState, chain: seq<Block>, settled: U64, data: BlockData, lib: U64, key: Key)
    requires MixedSlot(ks, Writer(chain, key), settled) && settled < data.clock.num
    requires ks.top.None? && BlockKey(ks, data, lib, key).top.Some?
    ensures data.output.Some?
    ensures BlockKey(ks, data, lib, key).top == ValueOf(Writer(chain + [AsBlock(data)], key))
  {
    WriterSnoc(chain, AsBlock(data), key);
  }

  /** A block's only write to the store below is its flush. */
  lemma {:induction false} BlockPuts(run: Run, e: Event, universe: iset<Key>)
    requires RunInv(run, universe) && LegalStep(run, e, universe) && e.BlockEvent? && e.data.output.Some?
    ensures var out := e.data.output.value;
            var st := SetAll(run.sys.store, LastWins(out.entries), out.ifNotExist, e.data.clock.num);
            Step(run, e).sys.store.back
            == Put(run.sys.store.back, Flushable(st.cache, e.cursor.lib.num), out.ifNotExist, e.cursor.lib.num)
  {
    BlockSound(run.sys, universe, run.settled, e.data, e.cursor);
  }

  lemma {:induction false} OnlyNew(back: Back, batch: map<Key, Value>, ifNotExist: bool, b: U64, key: Key, value: Value)
    requires forall c: U64, v :: !StoredAt(back, key, c, v)
    requires exists c: U64 :: StoredAt(Put(back, batch, ifNotExist, b), key, c, value)
    ensures OldestIs(Put(back, batch, ifNotExist, b), key, b, value)
  {
    forall c: U64, v | StoredAt(Put(back, batch, ifNotExist, b), key, c, v)
      ensures c == b
    {
      PutStores(back, batch, ifNotExist, b, key, c, v);
    }
  }

  /** `a` at block 1 and `b` at block 5, both final at once. */
  function TwoFinal(key: Key, a: Value, b: Value): seq<Event> {
    var b1, b5 := BlockRef("b1", 1), BlockRef("b5", 5);
    [OneWrite(Cursor(b1, b1, b1), key, a, false), OneWrite(Cursor(b5, b5, b5), key, b, false)]
  }

  /** An overwrite does not move it: from an empty time-travel store, `GetFirst` still answers `a` where `Get`
      answers `b`. */
  lemma {:induction false} FirstIsNotLatest(start: Run, key: Key, a: Value, b: Value,
                                            r: Result<seq<Answer>, StoreError>)
    requires IsStart(start, iset{key}) && start.sys.store.back.TimeTravel?
    requires RespondsFirst(Exec(start, TwoFinal(key, a, b)).sys.store, [key], 9, r)
    ensures Legal(start, TwoFinal(key, a, b), iset{key})
    ensures ReadKey(Exec(start, TwoFinal(key, a, b)).sys.store, key, 9) == Hit(b)
    ensures r == Ok([Found(key, a)])
  {
    var one, five := TwoFinal(key, a, b)[0], TwoFinal(key, a, b)[1];
    StartInv(start, iset{key});
    ExecPair(start, one, five, iset{key});
    OneWriteStep(start, one.cursor, key, a, false);
    FirstStored(start, one, iset{key}, key);
    StepKeepsBack(start, one);
    OverwrittenFinal(Step(start, one), five.cursor, key, a, b, r);
  }

  lemma StepKeepsBack(run: Run, e: Event)
    ensures Step(run, e).sys.store.back.TimeTravel? <==> run.sys.store.back.TimeTravel?
  {
  }

  lemma {:induction false} OverwrittenFinal(run: Run, c5: Cursor, key: Key, a: Value, b: Value,
                                            r: Result<seq<Answer>, StoreError>)
    requires RunInv(run, iset{key}) && run.sys.store.back.TimeTravel? && run.settled == 1
    requires OldestIs(run.sys.store.back, key, 1, a) && c5.block.num == c5.lib.num == 5
    requires forall i :: 0 <= i < |run.chain| ==> run.chain[i].num < 5
    requires RespondsFirst(Step(run, OneWrite(c5, key, b, false)).sys.store, [key], 9, r)
    ensures LegalStep(run, OneWrite(c5, key, b, false), iset{key})
    ensures ReadKey(Step(run, OneWrite(c5, key, b, false)).sys.store, key, 9) == Hit(b)
    ensures r == Ok([Found(key, a)])
  {
    var five := OneWrite(c5, key, b, false);
    var run' := Step(run, five);
    OneWriteStep(run, c5, key, b, false);
    ReadProjects(run'.sys.store, iset{key}, 5, key, 9);
    StepKeepsOldest(run, five, iset{key}, key, 1, a);
    OldestServed(run'.sys.store, iset{key}, key, 9, 1, a, r) by {
      assert Project(run'.sys.store, key).slot == None;
    }
  }

  lemma {:induction false} OldestServed(st: ForkAwareSpec.State, universe: iset<Key>, key: Key, b: U64, at: U64,
                                        value: Value, r: Result<seq<Answer>, StoreError>)
    requires Valid(st.back, universe) && key in universe && st.back.TimeTravel? && key !in st.cache
    requires OldestIs(st.back, key, at, value) && RespondsFirst(st, [key], b, r)
    ensures r == Ok([Found(key, value)])
  {
    FirstResponds(st, universe, [key], b, r);
    assert [key][0] == key && AnswersFirst(st, [key][0], b, r.value[0]);
    OldestUnique(st.back, key, b, at, value, r.value[0]);
    assert r.value == [Found(key, value)];
  }

  /** The oldest value of the time-travel store is the only answer it may give. */
  lemma {:induction false} OldestUnique(back: Back, key: Key, b: U64, at: U64, value: Value, a: Answer)
    requires back.TimeTravel? && OldestIs(back, key, at, value) && AnswersOldest(back, key, b, a)
    ensures a == Found(key, value)
  {
    if a.Found? {
      var at': U64 :| at' <= Reach(back, b) && OldestIs(back, key, at', a.value);
      assert at' == at;
    }
  }
}
