/**
 Crash and recovery of any process: memory is lost, the store below and the cursor file stay, and the stream
 is played again from the block after the saved cursor. The process may be the first over an empty store or
 one started after any earlier run of blocks, undos and restarts; it has itself handled blocks only.
 */
module CrashRecovery {
  import opened Backing
  import opened ByteOrder
  import opened Chain
  import opened CursorHistory
  import opened Entries
  import opened ForkAwareSpec
  import opened ForkRuns
  import opened KeyView
  import opened SinkerSpec
  import opened Wrappers
  import First = IfNotExistRuns

  /** A block stream: every block named by its cursor, numbers rising, irreversible blocks behind and never
      going back, and an id always standing for one number. */
  ghost predicate Stream(events: seq<Event>) {
    && (forall i :: 0 <= i < |events| ==>
          events[i].BlockEvent? && events[i].data.clock == events[i].cursor.block
          && events[i].cursor.lib.num <= events[i].cursor.block.num)
    && (forall i, j :: 0 <= i < j < |events| ==>
          events[i].cursor.block.num < events[j].cursor.block.num
          && events[i].cursor.lib.num <= events[j].cursor.lib.num)
    && (forall i, j :: 0 <= i < |events| && 0 <= j < |events| ==>
          events[i].cursor.block.id == events[j].cursor.lib.id ==>
            events[i].cursor.block.num == events[j].cursor.lib.num)
  }

  /** The events after the first `j` are those of the blocks above `num`. */
  ghost predicate SplitsAt(events: seq<Event>, num: U64, j: nat) {
    && j <= |events|
    && (forall i :: 0 <= i < j && events[i].BlockEvent? ==> events[i].data.clock.num <= num)
    && (forall i :: j <= i < |events| && events[i].BlockEvent? ==> events[i].data.clock.num > num)
  }

  function Blocks(events: seq<Event>): seq<Block> {
    if |events| == 0 then []
    else
      var last, front := events[|events| - 1], Blocks(events[..|events| - 1]);
      if last.BlockEvent? then front + [AsBlock(last.data)] else front
  }

  /** No flush of these events goes past `limit`. */
  ghost predicate FlushesUpTo(events: seq<Event>, limit: U64) {
    forall i :: 0 <= i < |events| && events[i].BlockEvent? && events[i].data.output.Some? ==>
        events[i].cursor.lib.num <= limit
  }

  lemma {:induction false} BlocksSplit(events: seq<Event>, j: nat)
    requires j <= |events| && OnlyBlocks(events)
    ensures Blocks(events) == Blocks(events[..j]) + Blocks(events[j..])
    decreases |events|
  {
    if j == |events| {
      assert events[..j] == events && events[j..] == [];
    } else {
      var n := |events| - 1;
      BlocksSplit(events[..n], j);
      assert events[..n][..j] == events[..j] && events[..n][j..] == events[j..][..n - j];
      assert events[j..][n - j] == events[n];
    }
  }

  lemma {:induction false} BlocksShape(events: seq<Event>)
    requires OnlyBlocks(events)
    ensures |Blocks(events)| == |events|
    ensures forall i :: 0 <= i < |events| ==> Blocks(events)[i] == AsBlock(events[i].data)
  {
    if |events| > 0 {
      BlocksShape(events[..|events| - 1]);
    }
  }

  lemma {:induction false} ExecChain(run: Run, events: seq<Event>)
    requires OnlyBlocks(events)
    ensures Exec(run, events).chain == run.chain + Blocks(events)
  {
    if |events| > 0 {
      var front, last := events[..|events| - 1], events[|events| - 1];
      assert events == front + [last];
      ExecSnoc(run, front, last);
      ExecChain(run, front);
      assert Exec(run, events).chain == run.chain + Blocks(front) + [AsBlock(last.data)];
      Associates(run.chain, Blocks(front), [AsBlock(last.data)]);
    }
  }

  // ---- Playing blocks onto a state whose flush point they do not move ----

  /** The slot after playing blocks, from the one before and the blocks' own standing write. */
  function ReplayedSlot(ks: KeyState, w: Option<Write>, ifNotExist: bool): Option<Cached> {
    if w.None? || (ifNotExist && (ks.slot.Some? || ks.top.Some?)) then ks.slot
    else Some(Cached(w.value.value, w.value.num))
  }

  /** A block that does not move the flush point leaves the store below alone. */
  lemma {:induction false} ReplayBlock(run: Run, e: Event, universe: iset<Key>)
    requires RunInv(run, universe) && LegalStep(run, e, universe)
    requires e.BlockEvent? && (e.data.output.Some? ==> e.cursor.lib.num <= run.settled)
    ensures Step(run, e).settled == run.settled
    ensures Step(run, e).sys.store.back == run.sys.store.back
    ensures e.data.output.Some? ==>
              Step(run, e).sys.store.cache
              == SetAll(run.sys.store, LastWins(e.data.output.value.entries), e.data.output.value.ifNotExist,
                  e.data.clock.num).cache
  {
    BlockSound(run.sys, universe, run.settled, e.data, e.cursor);
    if e.data.output.Some? {
      var out := e.data.output.value;
      var written := SetAll(run.sys.store, LastWins(out.entries), out.ifNotExist, e.data.clock.num);
      SetAllSound(run.sys.store, universe, run.settled, LastWins(out.entries), out.ifNotExist, e.data.clock.num);
      assert Flushable(written.cache, e.cursor.lib.num) == map[];
      FlushNothing(written, e.cursor.lib.num, out.ifNotExist);
    }
  }

  lemma {:induction false} ReplayKeeps(run: Run, events: seq<Event>, universe: iset<Key>)
    requires RunInv(run, universe) && Legal(run, events, universe)
    requires OnlyBlocks(events) && FlushesUpTo(events, run.settled)
    ensures RunInv(Exec(run, events), universe)
    ensures Exec(run, events).settled == run.settled
    ensures Exec(run, events).sys.store.back == run.sys.store.back
  {
    if |events| > 0 {
      var front, last := events[..|events| - 1], events[|events| - 1];
      assert events == front + [last];
      ExecSnoc(run, front, last);
      LegalSnoc(run, front, last, universe);
      ReplayKeeps(run, front, universe);
      StepKeeps(Exec(run, front), last, universe);
      ReplayBlock(Exec(run, front), last, universe);
    }
  }

  lemma {:induction false} ReplaySlot(ks0: KeyState, ks: KeyState, front: seq<Block>, data: BlockData,
                                      key: Key, ifNotExist: bool)
    requires ks.slot == ReplayedSlot(ks0, Writer(front, key), ifNotExist) && ks.top == ks0.top
    requires data.output.Some? ==> data.output.value.ifNotExist == ifNotExist
    ensures var ks' := match data.output
                       case Some(out) => WriteKey(ks, Mention(LastWins(out.entries), key), out.ifNotExist,
                           data.clock.num)
                       case None => ks;
            ks'.slot == ReplayedSlot(ks0, Writer(front + [AsBlock(data)], key), ifNotExist) && ks'.top == ks0.top
  {
    WriterSnoc(front, AsBlock(data), key);
  }

  lemma {:induction false} ReplayStep(run: Run, e: Event, universe: iset<Key>, key: Key)
    requires RunInv(run, universe) && LegalStep(run, e, universe) && key in universe
    requires e.BlockEvent? && (e.data.output.Some? ==> e.cursor.lib.num <= run.settled)
    ensures Project(Step(run, e).sys.store, key)
         == match e.data.output
            case Some(out) =>
              WriteKey(Project(run.sys.store, key), Mention(LastWins(out.entries), key), out.ifNotExist,
                  e.data.clock.num)
            case None => Project(run.sys.store, key)
  {
    ReplayBlock(run, e, universe);
    BlockSound(run.sys, universe, run.settled, e.data, e.cursor);
    if e.data.output.Some? {
      var out := e.data.output.value;
      SetAllProjects(run.sys.store, universe, run.settled, LastWins(out.entries), out.ifNotExist, e.data.clock.num,
          key);
    }
  }

  lemma {:induction false} Replay(run: Run, events: seq<Event>, universe: iset<Key>, key: Key, ifNotExist: bool)
    requires RunInv(run, universe) && Legal(run, events, universe) && key in universe
    requires OnlyBlocks(events) && InOneMode(events, ifNotExist) && FlushesUpTo(events, run.settled)
    ensures Project(Exec(run, events).sys.store, key).slot
         == ReplayedSlot(Project(run.sys.store, key), Writer(Blocks(events), key), ifNotExist)
  {
    if |events| > 0 {
      var front, last := events[..|events| - 1], events[|events| - 1];
      assert events == front + [last];
      ExecSnoc(run, front, last);
      LegalSnoc(run, front, last, universe);
      ReplayKeeps(run, front, universe);
      Replay(run, front, universe, key, ifNotExist);
      ReplayStep(Exec(run, front), last, universe, key);
      assert EventInMode(last, ifNotExist);
      ReplaySlot(Project(run.sys.store, key), Project(Exec(run, front).sys.store, key), Blocks(front), last.data,
          key, ifNotExist);
    }
  }

  // ---- What stands after a split chain ----

  lemma {:induction false} WriterConcat(front: seq<Block>, back: seq<Block>, key: Key, ifNotExist: bool)
    requires Uniform(front + back, ifNotExist)
    ensures Writer(front + back, key)
         == if ifNotExist && Writer(front, key).Some? then Writer(front, key)
            else if Writer(back, key).Some? then Writer(back, key)
            else Writer(front, key)
    decreases |back|
  {
    if |back| == 0 {
      assert front + back == front;
    } else {
      var n := |back| - 1;
      assert front + back == front + back[..n] + [back[n]];
      assert (front + back)[|front| + n] == back[n];
      assert forall i :: 0 <= i < |front| + n ==> (front + back[..n])[i] == (front + back)[i];
      WriterConcat(front, back[..n], key, ifNotExist);
      WriterSnoc(front + back[..n], back[n], key);
      assert InMode(back[n], ifNotExist);
    }
  }

  // ---- Starting a process ----

  /**
   What a process finds when it starts: nothing in memory, and the flushed part of a chain written in one
   mode. In if-not-exist mode the store below has the chain's standing write of each key.
   */
  ghost predicate Booted(run: Run, universe: iset<Key>, ifNotExist: bool) {
    && RunInv(run, universe)
    && run.sys.history == map[] && run.sys.store.cache == map[]
    && Uniform(run.chain, ifNotExist)
    && (forall i :: 0 <= i < |run.chain| ==> run.chain[i].num <= run.settled)
    && (ifNotExist ==> forall k | k in universe :: Top(run.sys.store.back, k) == ValueOf(Writer(run.chain, k)))
  }

  lemma {:induction false} StartIsBooted(start: Run, universe: iset<Key>, ifNotExist: bool)
    requires IsStart(start, universe)
    ensures Booted(start, universe, ifNotExist)
  {
    StartInv(start, universe);
    forall k | k in universe
      ensures Top(start.sys.store.back, k) == ValueOf(Writer(start.chain, k))
    {
      assert Project(start.sys.store, k).top == None;
    }
  }

  lemma {:induction false} BootedInSync(run: Run, universe: iset<Key>, key: Key)
    requires Booted(run, universe, true) && key in universe
    ensures First.RunInSync(run, universe, key)
  {
    UpToWhole(run.chain, run.settled);
    if Writer(run.chain, key).Some? {
      WriterIsInChain(run.chain, key);
    }
  }

  lemma {:induction false} ExecUniform(run: Run, events: seq<Event>, universe: iset<Key>, ifNotExist: bool)
    requires RunInv(run, universe) && Legal(run, events, universe) && InOneMode(events, ifNotExist)
    requires Uniform(run.chain, ifNotExist)
    ensures RunInv(Exec(run, events), universe) && Uniform(Exec(run, events).chain, ifNotExist)
    decreases |events|
  {
    if |events| > 0 {
      var e := events[0];
      assert EventInMode(e, ifNotExist);
      StepKeeps(run, e, universe);
      match e {
        case BlockEvent(data, _) => ShapeSnoc(run.chain, AsBlock(data), ifNotExist);
        case UndoEvent(lastValid, _) => UpToKeepsShape(run.chain, UndoBound(lastValid, run.settled));
        case RestartEvent => UpToKeepsShape(run.chain, run.settled);
      }
      ExecUniform(Step(run, e), events[1..], universe, ifNotExist);
    }
  }

  /** Whatever legal run a process has had, with undos and restarts, the next one boots in such a state. */
  lemma {:induction false} BootsAgain(start: Run, events: seq<Event>, universe: iset<Key>, ifNotExist: bool)
    requires Booted(start, universe, ifNotExist) && Legal(start, events, universe) && InOneMode(events, ifNotExist)
    ensures Booted(Step(Exec(start, events), RestartEvent), universe, ifNotExist)
  {
    var run := Exec(start, events);
    ExecUniform(start, events, universe, ifNotExist);
    StepKeeps(run, RestartEvent, universe);
    UpToKeepsShape(run.chain, run.settled);
    if ifNotExist {
      forall k | k in universe
        ensures Top(run.sys.store.back, k) == ValueOf(Writer(UpTo(run.chain, run.settled), k))
      {
        BootedInSync(start, universe, k);
        First.ExecInSync(start, events, universe, k);
      }
    }
  }

  /** In overwrite mode the slots follow the chain, whatever is stored below. */
  lemma {:induction false} SlotsFollow(run: Run, events: seq<Event>, universe: iset<Key>, key: Key)
    requires RunInv(run, universe) && Legal(run, events, universe) && key in universe
    requires OnlyBlocks(events) && InOneMode(events, false)
    requires Project(run.sys.store, key).slot == SlotOf(Writer(run.chain, key), run.settled)
    ensures Project(Exec(run, events).sys.store, key).slot
         == SlotOf(Writer(Exec(run, events).chain, key), Exec(run, events).settled)
    decreases |events|
  {
    if |events| > 0 {
      var e := events[0];
      assert EventInMode(e, false);
      StepKeeps(run, e, universe);
      StepProjects(run, e, universe, key);
      SlotFollows(Project(run.sys.store, key), run.chain, run.settled, e.data, e.cursor.lib.num, key);
      SlotsFollow(Step(run, e), events[1..], universe, key);
    }
  }

  lemma {:induction false} SlotFollows(ks: KeyState, chain: seq<Block>, settled: U64, data: BlockData, lib: U64,
                                       key: Key)
    requires ks.slot == SlotOf(Writer(chain, key), settled) && settled < data.clock.num
    requires data.output.Some? ==> !data.output.value.ifNotExist
    ensures BlockKey(ks, data, lib, key).slot
         == SlotOf(Writer(chain + [AsBlock(data)], key), SettledAfter(settled, data, lib))
  {
    WriterSnoc(chain, AsBlock(data), key);
  }

  /** The slot a process of blocks leaves, in either mode, and what the top value says about it. */
  lemma {:induction false} SlotAfter(start: Run, events: seq<Event>, universe: iset<Key>, key: Key, ifNotExist: bool)
    requires Booted(start, universe, ifNotExist) && Legal(start, events, universe) && key in universe
    requires OnlyBlocks(events) && InOneMode(events, ifNotExist)
    ensures var run := Exec(start, events);
            && Project(run.sys.store, key).slot == SlotOf(Writer(run.chain, key), run.settled)
            && (ifNotExist ==> Project(run.sys.store, key).top == ValueOf(Writer(UpTo(run.chain, run.settled), key)))
  {
    if ifNotExist {
      BootedInSync(start, universe, key);
      First.ExecInSync(start, events, universe, key);
    } else {
      if Writer(start.chain, key).Some? {
        WriterIsInChain(start.chain, key);
      }
      SlotsFollow(start, events, universe, key);
    }
  }

  /** Playing the later blocks again rebuilds a key's slot exactly when it is empty or holds one of their writes. */
  lemma {:induction false} SlotRebuilt(chain: seq<Block>, early: seq<Block>, late: seq<Block>, settled: U64, saved: U64,
                                        ks: KeyState, key: Key, ifNotExist: bool)
    requires chain == early + late && Increasing(chain) && Uniform(chain, ifNotExist) && settled <= saved
    requires forall i :: 0 <= i < |early| ==> early[i].num <= saved
    requires forall i :: 0 <= i < |late| ==> late[i].num > saved
    requires ks.slot == SlotOf(Writer(chain, key), settled)
    requires ifNotExist ==> ks.top == ValueOf(Writer(UpTo(chain, settled), key))
    ensures var rebuilt := ReplayedSlot(ks.(slot := None), Writer(late, key), ifNotExist);
            && (rebuilt == ks.slot <==> (ks.slot.Some? ==> ks.slot.value.blockNumber > saved))
            && (rebuilt.Some? ==> rebuilt.value.blockNumber > saved)
            && (rebuilt != ks.slot && !ifNotExist ==> rebuilt.None?)
  {
    WriterConcat(early, late, key, ifNotExist);
    if Writer(late, key).Some? {
      WriterIsInChain(late, key);
    }
    if Writer(early, key).Some? {
      WriterIsInChain(early, key);
    }
    if ifNotExist {
      WriterUpTo(chain, key, settled);
      WriterBounded(chain, key, settled);
    }
  }

  // ---- The saved cursor and the flush point ----

  lemma {:induction false} SettledIsLib(run: Run, events: seq<Event>, limit: U64)
    requires OnlyBlocks(events) && run.settled <= limit && FlushesUpTo(events, limit)
    ensures run.settled <= Exec(run, events).settled <= limit
    ensures FlushesUpTo(events, Exec(run, events).settled)
    decreases |events|
  {
    if |events| > 0 {
      var front, last := events[..|events| - 1], events[|events| - 1];
      assert events == front + [last];
      ExecSnoc(run, front, last);
      SettledIsLib(run, front, limit);
    }
  }

  lemma {:induction false} LegalAbove(run: Run, events: seq<Event>, universe: iset<Key>)
    requires Legal(run, events, universe)
    ensures forall i :: 0 <= i < |events| && events[i].BlockEvent? ==> events[i].data.clock.num > run.settled
    decreases |events|
  {
    if |events| > 0 {
      LegalAbove(Step(run, events[0]), events[1..], universe);
      assert forall i :: 1 <= i < |events| ==> events[i] == events[1..][i - 1];
    }
  }

  /** The saved cursor is never behind the flush point. */
  lemma {:induction false} SavedNotBehind(start: Run, events: seq<Event>, universe: iset<Key>)
    requires RunInv(start, universe) && start.sys.history == map[] && Legal(start, events, universe)
    requires Stream(events) && |events| > 0
    ensures var run, cursor := Exec(start, events), events[|events| - 1].cursor;
            && run.sys.cursorFile.Some? && run.settled <= SavedBlock(run) <= cursor.block.num
            && (LibAtHand(events) ==> SavedBlock(run) == cursor.lib.num)
            && FlushesUpTo(events, run.settled)
  {
    var cursor := events[|events| - 1].cursor;
    SavedCursor(start, events, universe);
    SettledIsLib(start, events, Max(start.settled, cursor.lib.num));
    LegalAbove(start, events, universe);
    if LibAtHand(events) {
      HandledIsEvent(events, cursor.lib.id);
    }
  }

  lemma {:induction false} HandledIsEvent(events: seq<Event>, id: string)
    requires id in Handled(events)
    ensures exists i :: && 0 <= i < |events| && events[i].BlockEvent? && events[i].data.clock.id == id
                        && events[i].cursor == Handled(events)[id]
  {
    var n := |events| - 1;
    if events[n].BlockEvent? && events[n].data.clock.id == id {
    } else {
      HandledIsEvent(events[..n], id);
      var i :| && 0 <= i < n && events[..n][i].BlockEvent? && events[..n][i].data.clock.id == id
               && events[..n][i].cursor == Handled(events[..n])[id];
      assert events[i].cursor == Handled(events)[id];
    }
  }

  // ---- Recovery ----

  /** The run after a crash, from the restart through the blocks still to come. */
  ghost function Recovered(run: Run, tail: seq<Event>): Run {
    Exec(Step(run, RestartEvent), tail)
  }

  /** The replay is a legal run. */
  lemma {:induction false} ReplayLegal(run: Run, events: seq<Event>, universe: iset<Key>)
    requires Stream(events) && (forall i :: 0 <= i < |events| ==> BlockKeysIn(events[i].data, universe))
    requires FlushesUpTo(events, run.settled)
    requires |events| > 0 ==> run.settled < events[0].data.clock.num
    requires |events| > 0 ==> forall i :: 0 <= i < |run.chain| ==> run.chain[i].num < events[0].data.clock.num
    ensures Legal(run, events, universe)
    decreases |events|
  {
    if |events| > 0 {
      var next := Step(run, events[0]);
      assert next.settled == run.settled;
      if |events| > 1 {
        assert events[0].data.clock.num < events[1].data.clock.num;
      }
      ReplayLegal(next, events[1..], universe);
    }
  }

  lemma {:induction false} LegalKeys(run: Run, events: seq<Event>, universe: iset<Key>)
    requires Legal(run, events, universe)
    ensures forall i :: 0 <= i < |events| && events[i].BlockEvent? ==> BlockKeysIn(events[i].data, universe)
    decreases |events|
  {
    if |events| > 0 {
      LegalKeys(Step(run, events[0]), events[1..], universe);
      assert forall i :: 1 <= i < |events| ==> events[i] == events[1..][i - 1];
    }
  }

  /** A process of blocks in one mode, at least one block long, and the place its stream resumes at. */
  ghost predicate Crash(start: Run, events: seq<Event>, universe: iset<Key>, ifNotExist: bool, j: nat) {
    && Booted(start, universe, ifNotExist) && Legal(start, events, universe)
    && Stream(events) && InOneMode(events, ifNotExist) && |events| > 0
    && SplitsAt(events, SavedBlock(Exec(start, events)), j)
  }

  function FileBlock(file: Option<Cursor>): U64 {
    if file.Some? then file.value.block.num else 0
  }

  /** The block the stream resumes after. */
  ghost function SavedBlock(run: Run): U64 {
    FileBlock(run.sys.cursorFile)
  }

  lemma StreamSuffix(events: seq<Event>, j: nat, limit: U64, universe: iset<Key>, ifNotExist: bool)
    requires Stream(events) && j <= |events| && FlushesUpTo(events, limit) && InOneMode(events, ifNotExist)
    requires forall i :: 0 <= i < |events| && events[i].BlockEvent? ==> BlockKeysIn(events[i].data, universe)
    ensures Stream(events[j..]) && FlushesUpTo(events[j..], limit) && InOneMode(events[j..], ifNotExist)
    ensures forall i :: 0 <= i < |events[j..]| ==> BlockKeysIn(events[j..][i].data, universe)
  {
    var tail := events[j..];
    assert forall i :: 0 <= i < |tail| ==> tail[i] == events[j + i];
  }

  /** A restart keeps the store below and empties every slot. */
  lemma {:induction false} Reborn(run: Run, universe: iset<Key>)
    requires RunInv(run, universe)
    ensures var reborn := Step(run, RestartEvent);
            && RunInv(reborn, universe) && reborn.settled == run.settled
            && reborn.sys.store.back == run.sys.store.back && reborn.sys.store.cache == map[]
            && forall i :: 0 <= i < |reborn.chain| ==> reborn.chain[i].num <= run.settled
  {
    StepKeeps(run, RestartEvent, universe);
  }

  /** The replay is a legal run that moves no flush point. */
  lemma {:induction false} ReplayReady(start: Run, events: seq<Event>, universe: iset<Key>, ifNotExist: bool, j: nat)
    requires Crash(start, events, universe, ifNotExist, j)
    ensures var run, tail := Exec(start, events), events[j..];
            && RunInv(run, universe) && run.settled <= SavedBlock(run)
            && Legal(Step(run, RestartEvent), tail, universe)
            && OnlyBlocks(tail) && FlushesUpTo(tail, run.settled) && InOneMode(tail, ifNotExist)
  {
    var run := Exec(start, events);
    ExecKeeps(start, events, universe);
    SavedNotBehind(start, events, universe);
    LegalKeys(start, events, universe);
    Reborn(run, universe);
    StreamSuffix(events, j, run.settled, universe, ifNotExist);
    if j < |events| {
      assert events[j..][0] == events[j];
    }
    ReplayLegal(Step(run, RestartEvent), events[j..], universe);
  }

  /** The chain of the process splits where the replay begins. */
  lemma {:induction false} ChainSplits(start: Run, events: seq<Event>, saved: U64, j: nat)
    requires OnlyBlocks(events) && SplitsAt(events, saved, j)
    requires forall i :: 0 <= i < |start.chain| ==> start.chain[i].num <= saved
    ensures var early, late := start.chain + Blocks(events[..j]), Blocks(events[j..]);
            && Exec(start, events).chain == early + late
            && (forall i :: 0 <= i < |early| ==> early[i].num <= saved)
            && (forall i :: 0 <= i < |late| ==> late[i].num > saved)
  {
    var front, back := events[..j], events[j..];
    assert Exec(start, events).chain == start.chain + Blocks(front) + Blocks(back) by {
      ExecChain(start, events);
      BlocksSplit(events, j);
      Associates(start.chain, Blocks(front), Blocks(back));
    }
    forall i | 0 <= i < |Blocks(front)|
      ensures Blocks(front)[i].num <= saved
    {
      NumsOf(front);
      assert front[i] == events[i];
    }
    forall i | 0 <= i < |Blocks(back)|
      ensures Blocks(back)[i].num > saved
    {
      NumsOf(back);
      assert back[i] == events[j + i];
    }
  }

  lemma Associates(a: seq<Block>, b: seq<Block>, c: seq<Block>)
    ensures a + (b + c) == a + b + c
  {
  }

  lemma NumsOf(events: seq<Event>)
    requires OnlyBlocks(events)
    ensures |Blocks(events)| == |events|
    ensures forall i :: 0 <= i < |events| ==> Blocks(events)[i].num == events[i].data.clock.num
  {
    BlocksShape(events);
  }

  /** The replay keeps the store below. */
  lemma {:induction false} BackRecovered(start: Run, events: seq<Event>, universe: iset<Key>, ifNotExist: bool, j: nat)
    requires Crash(start, events, universe, ifNotExist, j)
    ensures var run := Exec(start, events);
            var again := Recovered(run, events[j..]);
            && RunInv(run, universe) && RunInv(again, universe)
            && again.sys.store.back == run.sys.store.back && again.settled == run.settled
  {
    ReplayReady(start, events, universe, ifNotExist, j);
    Reborn(Exec(start, events), universe);
    ReplayKeeps(Step(Exec(start, events), RestartEvent), events[j..], universe);
  }

  /** The chain of the process, split where its replay begins, with the facts the slots depend on. */
  lemma {:induction false} KeySplit(start: Run, events: seq<Event>, universe: iset<Key>, key: Key, ifNotExist: bool,
                                    j: nat)
    requires Crash(start, events, universe, ifNotExist, j) && key in universe
    ensures var run := Exec(start, events);
            var ks := Project(run.sys.store, key);
            var rebuilt := ReplayedSlot(ks.(slot := None), Writer(Blocks(events[j..]), key), ifNotExist);
            && (rebuilt == ks.slot <==> (ks.slot.Some? ==> ks.slot.value.blockNumber > SavedBlock(run)))
            && (rebuilt.Some? ==> rebuilt.value.blockNumber > SavedBlock(run))
            && (rebuilt != ks.slot && !ifNotExist ==> rebuilt.None?)
  {
    var run := Exec(start, events);
    ReplayReady(start, events, universe, ifNotExist, j);
    SettledGrows(start, events);
    ExecUniform(start, events, universe, ifNotExist);
    SlotAfter(start, events, universe, key, ifNotExist);
    ChainSplits(start, events, SavedBlock(run), j);
    SlotRebuilt(run.chain, start.chain + Blocks(events[..j]), Blocks(events[j..]), run.settled, SavedBlock(run),
                Project(run.sys.store, key), key, ifNotExist);
  }

  lemma {:induction false} SettledGrows(run: Run, events: seq<Event>)
    ensures run.settled <= Exec(run, events).settled
    decreases |events|
  {
    if |events| > 0 {
      SettledGrows(Step(run, events[0]), events[1..]);
    }
  }

  /** One key through crash and recovery: its slot is rebuilt unless it was written at or below the saved
      block, and no slot of such a write comes back. */
  lemma {:induction false} KeyRecovered(start: Run, events: seq<Event>, universe: iset<Key>, key: Key,
                                        ifNotExist: bool, j: nat)
    requires Crash(start, events, universe, ifNotExist, j) && key in universe
    ensures var run := Exec(start, events);
            var slot := Project(run.sys.store, key).slot;
            var slot' := Project(Recovered(run, events[j..]).sys.store, key).slot;
            && (slot'.Some? ==> slot'.value.blockNumber > SavedBlock(run))
            && (slot' == slot <==> (slot.Some? ==> slot.value.blockNumber > SavedBlock(run)))
            && (slot' != slot && !ifNotExist ==> slot'.None?)
  {
    var run := Exec(start, events);
    ReplayReady(start, events, universe, ifNotExist, j);
    Reborn(run, universe);
    Replay(Step(run, RestartEvent), events[j..], universe, key, ifNotExist);
    assert Project(Step(run, RestartEvent).sys.store, key) == Project(run.sys.store, key).(slot := None);
    KeySplit(start, events, universe, key, ifNotExist, j);
  }

  /** Every slot was written above the block the stream resumes from. */
  ghost predicate NothingUnsaved(run: Run) {
    forall k :: k in run.sys.store.cache ==> run.sys.store.cache[k].blockNumber > SavedBlock(run)
  }

  /**
   Crash recovery, exactly. For any process in one mode that has handled blocks only, restarting from the
   saved cursor and playing the blocks after it rebuilds cache and store if and only if no slot was written
   at or below the saved cursor's block.
   */
  lemma {:induction false} RecoveryExact(start: Run, events: seq<Event>, universe: iset<Key>, ifNotExist: bool, j: nat)
    requires Crash(start, events, universe, ifNotExist, j)
    ensures var run := Exec(start, events);
            var again := Recovered(run, events[j..]);
            && again.sys.store.back == run.sys.store.back
            && (again.sys.store.cache == run.sys.store.cache <==> NothingUnsaved(run))
  {
    var run := Exec(start, events);
    var again := Recovered(run, events[j..]);
    BackRecovered(start, events, universe, ifNotExist, j);
    forall k: Key
      ensures k in run.sys.store.cache && run.sys.store.cache[k].blockNumber <= SavedBlock(run) ==>
                again.sys.store.cache != run.sys.store.cache
      ensures NothingUnsaved(run) ==> (k in again.sys.store.cache <==> k in run.sys.store.cache)
      ensures NothingUnsaved(run) && k in run.sys.store.cache ==> again.sys.store.cache[k] == run.sys.store.cache[k]
    {
      if k in universe {
        KeyRecovered(start, events, universe, k, ifNotExist, j);
      }
    }
  }

  /** After a block with output, everything up to its irreversible block is flushed. */
  lemma {:induction false} FlushedToLib(start: Run, events: seq<Event>)
    requires |events| > 0 && events[|events| - 1].BlockEvent? && events[|events| - 1].data.output.Some?
    ensures Exec(start, events).settled >= events[|events| - 1].cursor.lib.num
  {
    var front, last := events[..|events| - 1], events[|events| - 1];
    assert events == front + [last];
    ExecSnoc(start, front, last);
  }

  /**
   Recovery at the irreversible block. If the last block carried output and its irreversible block's cursor
   was at hand, a crash loses nothing: every read of every key at every block is as before.
   */
  lemma {:induction false} RecoveryAtLib(start: Run, events: seq<Event>, universe: iset<Key>, ifNotExist: bool, j: nat)
    requires Crash(start, events, universe, ifNotExist, j)
    requires events[|events| - 1].data.output.Some? && LibAtHand(events)
    ensures var run := Exec(start, events);
            var again := Recovered(run, events[j..]);
            forall key, b: U64 :: ReadKey(again.sys.store, key, b) == ReadKey(run.sys.store, key, b)
  {
    SavedNotBehind(start, events, universe);
    ReplayReady(start, events, universe, ifNotExist, j);
    FlushedToLib(start, events);
    RecoveryExact(start, events, universe, ifNotExist, j);
  }

  /** Every slot the stream does not play again holds the value already stored below it. */
  ghost predicate NothingLost(run: Run) {
    forall k :: k in run.sys.store.cache && run.sys.store.cache[k].blockNumber <= SavedBlock(run) ==>
      Top(run.sys.store.back, k) == Some(run.sys.store.cache[k].value)
  }

  /**
   Recovery as answers see it, in either mode: every read of every key at every block is as before the crash
   if and only if every slot at or below the saved block holds the value its key already has below.
   */
  lemma {:induction false} RecoveryExactReads(start: Run, events: seq<Event>, universe: iset<Key>, ifNotExist: bool,
                                              j: nat)
    requires Crash(start, events, universe, ifNotExist, j)
    ensures var run := Exec(start, events);
            var again := Recovered(run, events[j..]);
            (forall key, b: U64 :: ReadKey(again.sys.store, key, b) == ReadKey(run.sys.store, key, b))
                <==> NothingLost(run)
  {
    var run := Exec(start, events);
    var again := Recovered(run, events[j..]);
    BackRecovered(start, events, universe, ifNotExist, j);
    if NothingLost(run) {
      forall key, b: U64
        ensures ReadKey(again.sys.store, key, b) == ReadKey(run.sys.store, key, b)
      {
        if key in universe {
          ReadRecovered(start, events, universe, key, b, ifNotExist, j);
        }
      }
    } else {
      var k :| && k in run.sys.store.cache && run.sys.store.cache[k].blockNumber <= SavedBlock(run)
               && Top(run.sys.store.back, k) != Some(run.sys.store.cache[k].value);
      KeyRecovered(start, events, universe, k, ifNotExist, j);
      LostShows(run.sys.store, again.sys.store, universe, run.settled, k);
    }
  }

  /** A slot that differs from the value below shows at its own block, once it is gone. */
  lemma {:induction false} LostShows(st: ForkAwareSpec.State, st': ForkAwareSpec.State, universe: iset<Key>,
                                     settled: U64, k: Key)
    requires Sound(st, universe, settled) && st'.back == st.back
    requires k in st.cache && (k in st'.cache ==> st'.cache[k].blockNumber > st.cache[k].blockNumber)
    requires Top(st.back, k) != Some(st.cache[k].value)
    ensures ReadKey(st', k, st.cache[k].blockNumber) != ReadKey(st, k, st.cache[k].blockNumber)
  {
    ReadAbove(st.back, universe, settled, k, st.cache[k].blockNumber);
  }

  lemma {:induction false} ReadRecovered(start: Run, events: seq<Event>, universe: iset<Key>, key: Key, b: U64,
                                         ifNotExist: bool, j: nat)
    requires Crash(start, events, universe, ifNotExist, j) && NothingLost(Exec(start, events)) && key in universe
    ensures var run := Exec(start, events);
            ReadKey(Recovered(run, events[j..]).sys.store, key, b) == ReadKey(run.sys.store, key, b)
  {
    var run := Exec(start, events);
    var again := Recovered(run, events[j..]);
    BackRecovered(start, events, universe, ifNotExist, j);
    KeyRecovered(start, events, universe, key, ifNotExist, j);
    var slot := Project(run.sys.store, key).slot;
    if slot.Some? && slot.value.blockNumber <= SavedBlock(run) {
      if ifNotExist {
        SlotOverNothing(start, events, universe, key);
      }
      if slot.value.blockNumber <= b {
        ReadAbove(run.sys.store.back, universe, run.settled, key, b);
      }
    }
  }

  /** In if-not-exist mode a key with a slot has nothing stored. */
  lemma {:induction false} SlotOverNothing(start: Run, events: seq<Event>, universe: iset<Key>, key: Key)
    requires Booted(start, universe, true) && Legal(start, events, universe) && InOneMode(events, true)
        && key in universe
    ensures var ks := Project(Exec(start, events).sys.store, key); ks.slot.Some? ==> ks.top.None?
  {
    BootedInSync(start, universe, key);
    First.ExecInSync(start, events, universe, key);
    var run := Exec(start, events);
    WriterUpTo(run.chain, key, run.settled);
    WriterBounded(run.chain, key, run.settled);
  }

  /**
   When the irreversible block's cursor is not at hand, as for the first block after any start whose
   irreversible block lies before it, the current cursor is saved and a crash loses that block's writes:
   here block 5 (irreversible block 3) writes `key`, is acknowledged, and is gone after a restart.
   */
  lemma {:induction false} FreshStartLosesWrites(start: Run, key: Key, value: Value)
    requires IsStart(start, iset{key})
    ensures var b3, b5 := BlockRef("b3", 3), BlockRef("b5", 5);
            var five := OneWrite(Cursor(b5, b3, b5), key, value, true);
            var run := Step(start, five);
            && LegalStep(start, five, iset{key})
            && ReadKey(run.sys.store, key, 5) == Hit(value)
            && SavedBlock(run) == 5
            && ReadKey(Recovered(run, []).sys.store, key, 5) == Miss
  {
    var b3, b5 := BlockRef("b3", 3), BlockRef("b5", 5);
    var run := Step(start, OneWrite(Cursor(b5, b3, b5), key, value, true));
    StartInv(start, iset{key});
    OneWriteStep(start, Cursor(b5, b3, b5), key, value, true);
    ReadProjects(run.sys.store, iset{key}, 3, key, 5);
    RestartProjects(run.sys, iset{key}, 3);
    ReadProjects(Restart(run.sys).store, iset{key}, 3, key, 5);
  }
}
