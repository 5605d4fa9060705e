/**
 The fork-aware cache seen through one key: its slot and its top value below. As long as the cache is
 sound, every operation acts on each key on its own, and over either backing store alike.
 */
module KeyView {
  import opened Backing
  import opened ByteOrder
  import opened Entries
  import opened ForkAwareSpec
  import opened Wrappers
  import opened SinkerSpec

  datatype KeyState = KeyState(slot: Option<Cached>, top: Option<Value>)

  ghost function Project(st: ForkAwareSpec.State, key: Key): KeyState {
    KeyState(if key in st.cache then Some(st.cache[key]) else None, Top(st.back, key))
  }

  function Mention(batch: map<Key, Value>, key: Key): Option<Value> {
    if key in batch then Some(batch[key]) else None
  }

  function WriteKey(ks: KeyState, mention: Option<Value>, ifNotExist: bool, b: U64): KeyState {
    if mention.Some? && (!ifNotExist || (ks.slot.None? && ks.top.None?))
    then ks.(slot := Some(Cached(mention.value, b)))
    else ks
  }

  function FlushKey(ks: KeyState, limit: U64, ifNotExist: bool): KeyState {
    if ks.slot.Some? && ks.slot.value.blockNumber <= limit
    then KeyState(None, if !ifNotExist || ks.top.None? then Some(ks.slot.value.value) else ks.top)
    else ks
  }

  function EvictKey(ks: KeyState, from: U64): KeyState {
    if ks.slot.Some? && ks.slot.value.blockNumber >= from then ks.(slot := None) else ks
  }

  function ReadView(ks: KeyState, b: U64): Lookup {
    if ks.slot.Some? && ks.slot.value.blockNumber <= b then Hit(ks.slot.value.value) else ToLookup(ks.top)
  }

  function Max(a: U64, b: U64): U64 {
    if a < b then b else a
  }

  /** `settled` bounds everything below the cache and lies under every slot in it. */
  ghost predicate Sound(st: ForkAwareSpec.State, universe: iset<Key>, settled: U64) {
    && Valid(st.back, universe) && StampsUpTo(st.back, settled)
    && st.flushUpTo <= settled
    && forall k :: k in st.cache ==> k in universe && st.cache[k].blockNumber > settled
  }

  lemma {:induction false} ReadProjects(st: ForkAwareSpec.State, universe: iset<Key>, settled: U64, key: Key, b: U64)
    requires Sound(st, universe, settled) && key in universe && settled <= b
    ensures ReadKey(st, key, b) == ReadView(Project(st, key), b)
  {
    ReadAbove(st.back, universe, settled, key, b);
  }

  /** Above the settled bound a batch never fails, and soundness stays. */
  lemma {:induction false} SetAllSound(st: ForkAwareSpec.State, universe: iset<Key>, settled: U64,
                                       batch: map<Key, Value>, ifNotExist: bool, b: U64)
    requires Sound(st, universe, settled) && settled < b
    requires forall k :: k in batch ==> k in universe
    ensures !SetAllFails(st, batch, ifNotExist, b)
    ensures Sound(SetAll(st, batch, ifNotExist, b), universe, settled)
  {
    forall k | k in batch
      ensures !Read(st.back, k, b).Corrupt?
    {
      ReadAbove(st.back, universe, settled, k, b);
    }
  }

  lemma {:induction false} SetAllProjects(st: ForkAwareSpec.State, universe: iset<Key>, settled: U64,
                                          batch: map<Key, Value>, ifNotExist: bool, b: U64, key: Key)
    requires Sound(st, universe, settled) && key in universe && settled < b
    ensures Project(SetAll(st, batch, ifNotExist, b), key)
              == WriteKey(Project(st, key), Mention(batch, key), ifNotExist, b)
  {
    ReadAbove(st.back, universe, settled, key, b);
  }

  lemma {:induction false} FlushSound(st: ForkAwareSpec.State, universe: iset<Key>, settled: U64,
                                      limit: U64, ifNotExist: bool)
    requires Sound(st, universe, settled)
    ensures Sound(Flush(st, limit, ifNotExist), universe, Max(settled, limit))
  {
    var flushed := Flushable(st.cache, limit);
    if limit < settled {
      assert flushed == map[];
      PutNothing(st.back, ifNotExist, limit);
    } else {
      PutKeepsValid(st.back, universe, limit, flushed, ifNotExist, limit);
    }
  }

  lemma {:induction false} FlushProjects(st: ForkAwareSpec.State, universe: iset<Key>, settled: U64,
                                         limit: U64, ifNotExist: bool, key: Key)
    requires Sound(st, universe, settled) && key in universe
    ensures Project(Flush(st, limit, ifNotExist), key) == FlushKey(Project(st, key), limit, ifNotExist)
  {
    var flushed := Flushable(st.cache, limit);
    if limit < settled {
      assert flushed == map[];
      PutNothing(st.back, ifNotExist, limit);
    } else {
      assert StampsUpTo(st.back, limit);
      PutTop(st.back, universe, flushed, ifNotExist, limit, key);
    }
  }

  lemma EvictProjects(st: ForkAwareSpec.State, universe: iset<Key>, settled: U64, from: U64)
    requires Sound(st, universe, settled)
    ensures Sound(Evict(st, from), universe, settled)
    ensures forall key :: Project(Evict(st, from), key) == EvictKey(Project(st, key), from)
  {
  }

  lemma RestartProjects(st: SinkerSpec.State, universe: iset<Key>, settled: U64)
    requires Sound(st.store, universe, settled)
    ensures Sound(Restart(st).store, universe, settled)
    ensures forall key :: Project(Restart(st).store, key) == Project(st.store, key).(slot := None)
  {
  }

  /** A whole block, through one key. */
  function BlockKey(ks: KeyState, data: BlockData, lib: U64, key: Key): KeyState {
    match data.output
    case Some(out) =>
      FlushKey(WriteKey(ks, Mention(LastWins(out.entries), key), out.ifNotExist, data.clock.num), lib, out.ifNotExist)
    case None => ks
  }

  /** The bound after a block: a flush at its irreversible block, if it carries output. */
  function SettledAfter(settled: U64, data: BlockData, lib: U64): U64 {
    if data.output.Some? then Max(settled, lib) else settled
  }

  ghost predicate BlockKeysIn(data: BlockData, universe: iset<Key>) {
    data.output.Some? ==> forall k :: k in LastWins(data.output.value.entries) ==> k in universe
  }

  lemma {:induction false} BlockSound(st: SinkerSpec.State, universe: iset<Key>, settled: U64,
                                      data: BlockData, cursor: Cursor)
    requires Sound(st.store, universe, settled)
    requires settled < data.clock.num && BlockKeysIn(data, universe)
    ensures !BlockFails(st, data)
    ensures Sound(HandleBlock(st, data, cursor).store, universe, SettledAfter(settled, data, cursor.lib.num))
  {
    if data.output.Some? {
      var out := data.output.value;
      SetAllSound(st.store, universe, settled, LastWins(out.entries), out.ifNotExist, data.clock.num);
      FlushSound(SetAll(st.store, LastWins(out.entries), out.ifNotExist, data.clock.num),
                 universe, settled, cursor.lib.num, out.ifNotExist);
    }
  }

  lemma {:induction false} BlockProjects(st: SinkerSpec.State, universe: iset<Key>, settled: U64,
                                         data: BlockData, cursor: Cursor, key: Key)
    requires Sound(st.store, universe, settled) && key in universe
    requires settled < data.clock.num && BlockKeysIn(data, universe)
    ensures Project(HandleBlock(st, data, cursor).store, key)
              == BlockKey(Project(st.store, key), data, cursor.lib.num, key)
  {
    BlockSound(st, universe, settled, data, cursor);
    if data.output.Some? {
      var out := data.output.value;
      SetAllSound(st.store, universe, settled, LastWins(out.entries), out.ifNotExist, data.clock.num);
      SetAllProjects(st.store, universe, settled, LastWins(out.entries), out.ifNotExist, data.clock.num, key);
      FlushProjects(SetAll(st.store, LastWins(out.entries), out.ifNotExist, data.clock.num),
                    universe, settled, cursor.lib.num, out.ifNotExist, key);
    }
  }
}
