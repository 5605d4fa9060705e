/**
 Where values come from. Every value in the cache, in the store below, or in an answer was written for its
 key by a block, and flushing only ever moves its stamp up.
 */
module Provenance {
  import opened Backing
  import opened ByteOrder
  import opened Chain
  import opened Entries
  import opened ForkAwareSpec
  import opened ForkRuns
  import opened KeyView
  import opened SinkerSpec
  import opened Wrappers

  /** Some block of `chain` numbered `num` set `key` to `value`. */
  ghost predicate Wrote(chain: seq<Block>, key: Key, value: Value, num: U64) {
    exists i :: 0 <= i < |chain| && Chain.Writes(chain[i], key) && WriteOf(chain[i], key) == Write(num, value)
  }

  /** ... a block numbered at most `limit`. */
  ghost predicate WroteBy(chain: seq<Block>, key: Key, value: Value, limit: U64) {
    exists num: U64 :: num <= limit && Wrote(chain, key, value, num)
  }

  /** Slots carry the block that wrote them; stored values a stamp no lower than it. */
  ghost predicate Traced(st: ForkAwareSpec.State, chain: seq<Block>) {
    && (forall k :: k in st.cache ==> Wrote(chain, k, st.cache[k].value, st.cache[k].blockNumber))
    && (forall k, c: U64, v :: StoredAt(st.back, k, c, v) ==> WroteBy(chain, k, v, c))
  }

  lemma WroteSnoc(chain: seq<Block>, blk: Block)
    ensures forall k, v, num: U64 :: Wrote(chain, k, v, num) ==> Wrote(chain + [blk], k, v, num)
    ensures forall k, v, limit: U64 :: WroteBy(chain, k, v, limit) ==> WroteBy(chain + [blk], k, v, limit)
    ensures forall k | Chain.Writes(blk, k) :: Wrote(chain + [blk], k, WriteOf(blk, k).value, blk.num)
  {
    forall k, v, num: U64 | Wrote(chain, k, v, num)
      ensures Wrote(chain + [blk], k, v, num)
    {
      var i :| 0 <= i < |chain| && Chain.Writes(chain[i], k) && WriteOf(chain[i], k) == Write(num, v);
      assert (chain + [blk])[i] == chain[i];
    }
    forall k | Chain.Writes(blk, k)
      ensures Wrote(chain + [blk], k, WriteOf(blk, k).value, blk.num)
    {
      assert (chain + [blk])[|chain|] == blk;
    }
  }

  /** A traced state answers with nothing from the future. */
  lemma TracedReads(st: ForkAwareSpec.State, universe: iset<Key>, chain: seq<Block>, key: Key, b: U64)
    requires Traced(st, chain) && Valid(st.back, universe) && key in universe
    ensures ReadKey(st, key, b).Hit? ==> WroteBy(chain, key, ReadKey(st, key, b).value, b)
  {
    ReadExact(st.back, universe, key, b);
    if ReadKey(st, key, b).Hit? {
      var value := ReadKey(st, key, b).value;
      if key in st.cache && st.cache[key].blockNumber <= b {
        assert Wrote(chain, key, value, st.cache[key].blockNumber);
      } else {
        var c: U64 :| c <= b && StoredAt(st.back, key, c, value);
        assert WroteBy(chain, key, value, c);
      }
    }
  }

  // ---- Any sequence of cache operations ----

  datatype Op =
    | SetAllOp(blk: Block)
    | FlushOp(limit: U64, ifNotExist: bool)
    | EvictOp(from: U64)
    | RestartOp

  ghost function Apply(st: ForkAwareSpec.State, op: Op): ForkAwareSpec.State {
    match op
    case SetAllOp(blk) =>
      if SetAllFails(st, LastWins(blk.entries), blk.ifNotExist, blk.num) then st
      else SetAll(st, LastWins(blk.entries), blk.ifNotExist, blk.num)
    case FlushOp(limit, ifNotExist) => Flush(st, limit, ifNotExist)
    case EvictOp(from) => Evict(st, from)
    case RestartOp => ForkAwareSpec.State(st.back, map[], 0)
  }

  ghost function ApplyAll(st: ForkAwareSpec.State, ops: seq<Op>): ForkAwareSpec.State {
    if |ops| == 0 then st else Apply(ApplyAll(st, ops[..|ops| - 1]), ops[|ops| - 1])
  }

  /** Every batch handed in so far, undone or not. */
  function Batches(ops: seq<Op>): seq<Block> {
    if |ops| == 0 then []
    else
      var last, front := ops[|ops| - 1], Batches(ops[..|ops| - 1]);
      if last.SetAllOp? then front + [last.blk] else front
  }

  ghost predicate OpKeysIn(ops: seq<Op>, universe: iset<Key>) {
    forall i, k :: 0 <= i < |ops| && ops[i].SetAllOp? && Chain.Writes(ops[i].blk, k) ==> k in universe
  }

  /** A batch written below keeps every stored value traced, if the batch itself is. */
  lemma PutTraced(back: Back, chain: seq<Block>, batch: map<Key, Value>, ifNotExist: bool, b: U64)
    requires forall k, c: U64, v :: StoredAt(back, k, c, v) ==> WroteBy(chain, k, v, c)
    requires forall k :: k in batch ==> WroteBy(chain, k, batch[k], b)
    ensures forall k, c: U64, v :: StoredAt(Put(back, batch, ifNotExist, b), k, c, v) ==> WroteBy(chain, k, v, c)
  {
    forall k, c: U64, v | StoredAt(Put(back, batch, ifNotExist, b), k, c, v)
      ensures WroteBy(chain, k, v, c)
    {
      PutStores(back, batch, ifNotExist, b, k, c, v);
    }
  }

  lemma SetAllTraced(st: ForkAwareSpec.State, chain: seq<Block>, blk: Block)
    requires Traced(st, chain)
    ensures Traced(SetAll(st, LastWins(blk.entries), blk.ifNotExist, blk.num), chain + [blk])
  {
    WroteSnoc(chain, blk);
    var accepted := Accepted(st, LastWins(blk.entries), blk.ifNotExist, blk.num);
    forall k | k in accepted
      ensures Wrote(chain + [blk], k, accepted[k], blk.num) && WroteBy(chain + [blk], k, accepted[k], blk.num)
    {
      assert Chain.Writes(blk, k);
    }
    PutTraced(st.back, chain + [blk], accepted, blk.ifNotExist, blk.num);
  }

  lemma FlushTraced(st: ForkAwareSpec.State, chain: seq<Block>, limit: U64, ifNotExist: bool)
    requires Traced(st, chain)
    ensures Traced(Flush(st, limit, ifNotExist), chain)
  {
    var flushed := Flushable(st.cache, limit);
    forall k | k in flushed
      ensures WroteBy(chain, k, flushed[k], limit)
    {
      assert Wrote(chain, k, flushed[k], st.cache[k].blockNumber);
    }
    PutTraced(st.back, chain, flushed, ifNotExist, limit);
  }

  lemma {:induction false} ApplyValid(st: ForkAwareSpec.State, op: Op, universe: iset<Key>)
    requires Valid(st.back, universe) && forall k :: k in st.cache ==> k in universe
    requires op.SetAllOp? ==> forall k :: Chain.Writes(op.blk, k) ==> k in universe
    ensures Valid(Apply(st, op).back, universe) && forall k :: k in Apply(st, op).cache ==> k in universe
  {
    match op
    case SetAllOp(blk) =>
      var accepted := Accepted(st, LastWins(blk.entries), blk.ifNotExist, blk.num);
      assert forall k :: k in accepted ==> Chain.Writes(blk, k);
      PutKeepsValid(st.back, universe, MAX_U64, accepted, blk.ifNotExist, blk.num);
    case FlushOp(limit, ifNotExist) =>
      PutKeepsValid(st.back, universe, MAX_U64, Flushable(st.cache, limit), ifNotExist, limit);
    case _ =>
  }

  lemma ApplyTraced(st: ForkAwareSpec.State, op: Op, chain: seq<Block>)
    requires Traced(st, chain)
    ensures Traced(Apply(st, op), if op.SetAllOp? then chain + [op.blk] else chain)
  {
    match op
    case SetAllOp(blk) =>
      SetAllTraced(st, chain, blk);
      WroteSnoc(chain, blk);
    case FlushOp(limit, ifNotExist) => FlushTraced(st, chain, limit, ifNotExist);
    case _ =>
  }

  lemma {:induction false} ApplyAllTraced(back: Back, ops: seq<Op>, universe: iset<Key>)
    requires back == Latest(map[]) || back == TimeTravel(map[])
    requires Valid(back, universe) && OpKeysIn(ops, universe)
    ensures var st := ApplyAll(ForkAwareSpec.State(back, map[], 0), ops);
            Valid(st.back, universe) && (forall k :: k in st.cache ==> k in universe) && Traced(st, Batches(ops))
  {
    if |ops| > 0 {
      var front := ops[..|ops| - 1];
      assert forall i :: 0 <= i < |front| ==> front[i] == ops[i];
      ApplyAllTraced(back, front, universe);
      var st := ApplyAll(ForkAwareSpec.State(back, map[], 0), front);
      ApplyValid(st, ops[|ops| - 1], universe);
      ApplyTraced(st, ops[|ops| - 1], Batches(front));
    }
  }

  /**
   No read from the future. Under any sequence of batches, flushes, evictions and restarts, in any order and
   with any flags and block numbers, over either store: a value read at block `b` was written for that key
   by a batch of a block at or below `b`.
   */
  lemma {:induction false} NoReadFromFuture(back: Back, ops: seq<Op>, universe: iset<Key>, key: Key, b: U64)
    requires back == Latest(map[]) || back == TimeTravel(map[])
    requires Valid(back, universe) && OpKeysIn(ops, universe) && key in universe
    ensures var answer := ReadKey(ApplyAll(ForkAwareSpec.State(back, map[], 0), ops), key, b);
            !answer.Corrupt? && (answer.Hit? ==> WroteBy(Batches(ops), key, answer.value, b))
  {
    ApplyAllTraced(back, ops, universe);
    var st := ApplyAll(ForkAwareSpec.State(back, map[], 0), ops);
    TracedReads(st, universe, Batches(ops), key, b);
    ReadExact(st.back, universe, key, b);
  }

  // ---- Runs with undos ----

  /** Everything below the cache was written at or below the flush point as well. */
  ghost predicate SettledTraced(run: Run) {
    forall k, c: U64, v :: StoredAt(run.sys.store.back, k, c, v) ==> WroteBy(run.chain, k, v, run.settled)
  }

  lemma {:induction false} WroteUpTo(chain: seq<Block>, key: Key, value: Value, num: U64, bound: int)
    requires Increasing(chain) && Wrote(chain, key, value, num) && num <= bound
    ensures Wrote(UpTo(chain, bound), key, value, num)
  {
    var i :| 0 <= i < |chain| && Chain.Writes(chain[i], key) && WriteOf(chain[i], key) == Write(num, value);
    UpToIsPrefix(chain, bound);
    var cut := UpTo(chain, bound);
    assert i < |cut|;
    assert cut[i] == chain[i];
  }

  lemma {:induction false} CutTraced(run: Run, sys: SinkerSpec.State, bound: int)
    requires Increasing(run.chain) && |run.marks| == |run.chain| && run.settled <= bound
    requires Traced(run.sys.store, run.chain) && SettledTraced(run)
    requires sys.store.back == run.sys.store.back
    requires forall k :: k in sys.store.cache ==>
               k in run.sys.store.cache && sys.store.cache[k] == run.sys.store.cache[k]
                   && sys.store.cache[k].blockNumber <= bound
    ensures Traced(sys.store, Cut(run, sys, bound).chain) && SettledTraced(Cut(run, sys, bound))
  {
    var cut := UpTo(run.chain, bound);
    forall k | k in sys.store.cache
      ensures Wrote(cut, k, sys.store.cache[k].value, sys.store.cache[k].blockNumber)
    {
      WroteUpTo(run.chain, k, sys.store.cache[k].value, sys.store.cache[k].blockNumber, bound);
    }
    forall k, c: U64, v | StoredAt(sys.store.back, k, c, v)
      ensures WroteBy(cut, k, v, c) && WroteBy(cut, k, v, run.settled)
    {
      CutStored(run, k, c, v, bound);
    }
  }

  /** Stamps never exceed the flush point, so the lower of the two bounds is the stamp. */
  lemma CutStored(run: Run, k: Key, c: U64, v: Value, bound: int)
    requires Increasing(run.chain) && run.settled <= bound
    requires Traced(run.sys.store, run.chain) && SettledTraced(run) && StoredAt(run.sys.store.back, k, c, v)
    ensures WroteBy(UpTo(run.chain, bound), k, v, c) && WroteBy(UpTo(run.chain, bound), k, v, run.settled)
  {
    var o: U64 :| o <= run.settled && Wrote(run.chain, k, v, o);
    WroteUpTo(run.chain, k, v, o, bound);
    var p: U64 :| p <= c && Wrote(run.chain, k, v, p);
    if p <= bound {
      WroteUpTo(run.chain, k, v, p, bound);
    }
  }

  lemma {:induction false} BlockTraced(run: Run, data: BlockData, cursor: Cursor, universe: iset<Key>)
    requires RunInv(run, universe) && LegalStep(run, BlockEvent(data, cursor), universe)
    requires Traced(run.sys.store, run.chain) && SettledTraced(run)
    requires !BlockFails(run.sys, data)
    ensures var run' := Step(run, BlockEvent(data, cursor)); Traced(run'.sys.store, run'.chain) && SettledTraced(run')
  {
    var blk := AsBlock(data);
    var chain := run.chain + [blk];
    WroteSnoc(run.chain, blk);
    if data.output.Some? {
      var out := data.output.value;
      var written := SetAll(run.sys.store, LastWins(out.entries), out.ifNotExist, data.clock.num);
      SetAllTraced(run.sys.store, run.chain, blk);
      FlushTraced(written, chain, cursor.lib.num, out.ifNotExist);
      FlushSettled(run, written, chain, cursor.lib.num, out.ifNotExist);
    }
  }

  lemma FlushSettled(run: Run, st: ForkAwareSpec.State, chain: seq<Block>, lib: U64, ifNotExist: bool)
    requires Traced(st, chain) && st.back == run.sys.store.back
    requires forall k :: k in st.cache ==> st.cache[k].blockNumber > run.settled
    requires forall k, c: U64, v :: StoredAt(st.back, k, c, v) ==> WroteBy(chain, k, v, run.settled)
    ensures forall k, c: U64, v :: StoredAt(Flush(st, lib, ifNotExist).back, k, c, v) ==>
              WroteBy(chain, k, v, Max(run.settled, lib))
  {
    var flushed := Flushable(st.cache, lib);
    forall k, c: U64, v | StoredAt(Flush(st, lib, ifNotExist).back, k, c, v)
      ensures WroteBy(chain, k, v, Max(run.settled, lib))
    {
      PutStores(st.back, flushed, ifNotExist, lib, k, c, v);
      if StoredAt(st.back, k, c, v) {
        var o: U64 :| o <= run.settled && Wrote(chain, k, v, o);
        assert o <= Max(run.settled, lib);
      } else {
        assert Wrote(chain, k, v, st.cache[k].blockNumber);
      }
    }
  }

  ghost predicate RunTraced(run: Run, universe: iset<Key>) {
    RunInv(run, universe) && Traced(run.sys.store, run.chain) && SettledTraced(run)
  }

  lemma StepTraced(run: Run, e: Event, universe: iset<Key>)
    requires RunTraced(run, universe) && LegalStep(run, e, universe)
    ensures RunTraced(Step(run, e), universe)
  {
    StepKeeps(run, e, universe);
    match e
    case BlockEvent(data, cursor) =>
      BlockSound(run.sys, universe, run.settled, data, cursor);
      BlockTraced(run, data, cursor, universe);
    case UndoEvent(lastValid, cursor) =>
      CutTraced(run, HandleUndo(run.sys, lastValid, cursor), UndoBound(lastValid, run.settled));
    case RestartEvent =>
      CutTraced(run, Restart(run.sys), run.settled);
  }

  lemma {:induction false} ExecTraced(run: Run, events: seq<Event>, universe: iset<Key>)
    requires RunTraced(run, universe) && Legal(run, events, universe)
    ensures RunTraced(Exec(run, events), universe)
    decreases |events|
  {
    if |events| > 0 {
      StepTraced(run, events[0], universe);
      ExecTraced(Step(run, events[0]), events[1..], universe);
    }
  }

  /**
   Orphan safety. After any legal run, with any mix of flags, every slot, every stored value and every
   answer was written for its key by a block of the surviving chain; so no value of an undone block is
   left anywhere, and none can come back.
   */
  lemma {:induction false} OrphanSafety(start: Run, events: seq<Event>, universe: iset<Key>, key: Key, b: U64)
    requires IsStart(start, universe) && Legal(start, events, universe) && key in universe
    ensures var run := Exec(start, events);
            var st := run.sys.store;
            && (key in st.cache ==> Wrote(run.chain, key, st.cache[key].value, st.cache[key].blockNumber))
            && (forall c: U64, v :: StoredAt(st.back, key, c, v) ==> WroteBy(run.chain, key, v, c))
            && (ReadKey(st, key, b).Hit? ==> WroteBy(run.chain, key, ReadKey(st, key, b).value, b))
  {
    StartInv(start, universe);
    ExecTraced(start, events, universe);
    var run := Exec(start, events);
    TracedReads(run.sys.store, universe, run.chain, key, b);
  }

  /** Right after an undo to `n` the surviving chain has no block above `n`. */
  lemma UndoLeavesNothingAbove(run: Run, lastValid: U64, cursor: Cursor)
    requires run.settled <= lastValid
    ensures forall k, v, num: U64 :: Wrote(Step(run, UndoEvent(lastValid, cursor)).chain, k, v, num) ==>
              num <= lastValid
  {
  }
}
