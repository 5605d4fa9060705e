/**
 If-not-exist runs against the chain itself, in which an undo to block `n` keeps block `n`. The cache drops
 what block `n` wrote and had not flushed; for every key this never happens to, nothing is noticed.
 */
module ValidChainRuns {
  import opened Backing
  import opened ByteOrder
  import opened Chain
  import opened Entries
  import opened ForkAwareSpec
  import opened ForkRuns
  import opened IfNotExistRuns
  import opened SinkerSpec
  import opened Wrappers

  /** The chain after an event: an undo takes it back to the last valid block, inclusive. */
  function Follow(valid: seq<Block>, e: Event): seq<Block> {
    match e
    case BlockEvent(data, _) => valid + [AsBlock(data)]
    case UndoEvent(lastValid, _) => UpTo(valid, lastValid)
    case RestartEvent => valid
  }

  function FollowAll(valid: seq<Block>, events: seq<Event>): seq<Block>
    decreases |events|
  {
    if |events| == 0 then valid else FollowAll(Follow(valid, events[0]), events[1..])
  }

  /** The event extends the chain at its end, or takes it back without dropping the key's first write
      from the cache while the chain keeps it. There is no restart. */
  ghost predicate KeepsTip(run: Run, valid: seq<Block>, e: Event, key: Key) {
    match e
    case BlockEvent(data, _) => forall i :: 0 <= i < |valid| ==> valid[i].num < data.clock.num
    case UndoEvent(lastValid, _) => !StandsAtTip(UpTo(valid, lastValid), key, lastValid, run.settled)
    case RestartEvent => false
  }

  ghost predicate AllKeepTip(run: Run, valid: seq<Block>, events: seq<Event>, key: Key)
    decreases |events|
  {
    |events| == 0 ||
    (&& KeepsTip(run, valid, events[0], key)
     && AllKeepTip(Step(run, events[0]), Follow(valid, events[0]), events[1..], key))
  }

  ghost predicate Alike(chain: seq<Block>, valid: seq<Block>, key: Key, bound: int) {
    Writer(UpTo(chain, bound), key) == Writer(UpTo(valid, bound), key)
  }

  /** Cut anywhere, the two chains agree about the key. */
  ghost predicate AlikeEverywhere(chain: seq<Block>, valid: seq<Block>, key: Key) {
    && Increasing(valid) && Uniform(valid, true)
    && forall bound: int :: Alike(chain, valid, key, bound)
  }

  lemma {:induction false} BlockAlike(chain: seq<Block>, valid: seq<Block>, blk: Block, key: Key)
    requires AlikeEverywhere(chain, valid, key) && Increasing(chain) && InMode(blk, true)
    requires forall i :: 0 <= i < |chain| ==> chain[i].num < blk.num
    requires forall i :: 0 <= i < |valid| ==> valid[i].num < blk.num
    ensures AlikeEverywhere(chain + [blk], valid + [blk], key)
  {
    forall bound: int
      ensures Alike(chain + [blk], valid + [blk], key, bound)
    {
      assert Alike(chain, valid, key, bound);
      UpToSnoc(chain, blk, bound);
      UpToSnoc(valid, blk, bound);
      WriterSnoc(UpTo(chain, bound), blk, key);
      WriterSnoc(UpTo(valid, bound), blk, key);
    }
  }

  lemma {:induction false} UndoAlike(chain: seq<Block>, valid: seq<Block>, settled: U64, lastValid: U64, key: Key)
    requires AlikeEverywhere(chain, valid, key) && Increasing(chain) && settled <= lastValid
    requires !StandsAtTip(UpTo(valid, lastValid), key, lastValid, settled)
    ensures AlikeEverywhere(UpTo(chain, UndoBound(lastValid, settled)), UpTo(valid, lastValid), key)
  {
    UpToKeepsShape(valid, lastValid);
    forall bound: int
      ensures Alike(UpTo(chain, UndoBound(lastValid, settled)), UpTo(valid, lastValid), key, bound)
    {
      CutAlike(chain, valid, settled, lastValid, key, bound);
    }
  }

  /** One cut after the undo: below block `lastValid` nothing differs; from there on only its own first
      writes could, and the key has none. */
  lemma {:induction false} CutAlike(chain: seq<Block>, valid: seq<Block>, settled: U64, lastValid: U64,
                                    key: Key, bound: int)
    requires AlikeEverywhere(chain, valid, key) && Increasing(chain) && settled <= lastValid
    requires !StandsAtTip(UpTo(valid, lastValid), key, lastValid, settled)
    ensures Alike(UpTo(chain, UndoBound(lastValid, settled)), UpTo(valid, lastValid), key, bound)
  {
    var cut := UndoBound(lastValid, settled);
    assert Alike(chain, valid, key, bound) && Alike(chain, valid, key, cut);
    if bound <= cut {
      UpToUpTo(chain, cut, bound);
      UpToUpTo(valid, lastValid, bound);
    } else {
      UpToWhole(UpTo(chain, cut), bound);
      UpToWhole(UpTo(valid, lastValid), bound);
      if cut < lastValid {
        TipUnused(valid, key, lastValid);
      }
    }
  }

  /** A chain whose standing write is not in its last block reads the same without that block. */
  lemma {:induction false} TipUnused(valid: seq<Block>, key: Key, lastValid: U64)
    requires Increasing(valid) && Uniform(valid, true)
    requires Writer(UpTo(valid, lastValid), key).Some? ==> Writer(UpTo(valid, lastValid), key).value.num != lastValid
    ensures Writer(UpTo(valid, lastValid - 1), key) == Writer(UpTo(valid, lastValid), key)
  {
    var tip := UpTo(valid, lastValid);
    UpToKeepsShape(valid, lastValid);
    UpToUpTo(valid, lastValid, lastValid - 1);
    WriterUpTo(tip, key, lastValid - 1);
    WriterBounded(valid, key, lastValid);
  }

  lemma {:induction false} StepAlike(run: Run, valid: seq<Block>, e: Event, universe: iset<Key>, key: Key)
    requires RunInSync(run, universe, key) && AlikeEverywhere(run.chain, valid, key)
    requires LegalStep(run, e, universe) && EventInMode(e, true) && KeepsTip(run, valid, e, key)
    ensures AlikeEverywhere(Step(run, e).chain, Follow(valid, e), key)
  {
    if e.BlockEvent? {
      BlockAlike(run.chain, valid, AsBlock(e.data), key);
    } else {
      UndoAlike(run.chain, valid, run.settled, e.lastValid, key);
    }
  }

  lemma {:induction false} ExecAlike(run: Run, valid: seq<Block>, events: seq<Event>, universe: iset<Key>, key: Key)
    requires RunInSync(run, universe, key) && AlikeEverywhere(run.chain, valid, key)
    requires Legal(run, events, universe) && InOneMode(events, true) && AllKeepTip(run, valid, events, key)
    ensures RunInSync(Exec(run, events), universe, key)
    ensures AlikeEverywhere(Exec(run, events).chain, FollowAll(valid, events), key)
    decreases |events|
  {
    if |events| > 0 {
      assert EventInMode(events[0], true);
      StepInSync(run, events[0], universe, key);
      StepAlike(run, valid, events[0], universe, key);
      ExecAlike(Step(run, events[0]), Follow(valid, events[0]), events[1..], universe, key);
    }
  }

  /**
   Fork refinement against the chain itself. After every legal if-not-exist run of blocks and undos, reads at
   or above the flush point answer with the first write in the valid chain, for every key whose first write
   was never an unflushed write of the very block an undo went back to.
   */
  lemma {:induction false} ValidChainRefinement(start: Run, events: seq<Event>, universe: iset<Key>, key: Key, b: U64)
    requires IsStart(start, universe) && Legal(start, events, universe) && InOneMode(events, true)
    requires key in universe && AllKeepTip(start, [], events, key) && Exec(start, events).settled <= b
    ensures ReadsAs(Exec(start, events).sys.store, FollowAll([], events), key, b)
  {
    StartInv(start, universe);
    ExecAlike(start, [], events, universe, key);
    var run := Exec(start, events);
    InSyncReads(run, universe, key, b);
    assert Alike(run.chain, FollowAll([], events), key, b);
  }
}
