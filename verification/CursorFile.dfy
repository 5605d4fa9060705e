/**
 The cursor file over whole runs, restarts included: it holds what the last block or undo signal saved, and a
 restart only reads it. What a process resumes from therefore does not depend on how often it restarts.
 */
module CursorFile {
  import opened ByteOrder
  import opened Chain
  import opened CrashRecovery
  import opened CursorHistory
  import opened Entries
  import opened ForkAwareSpec
  import opened ForkRuns
  import opened KeyView
  import opened SinkerSpec
  import opened Wrappers

  // ---- The reference: what the events amount to ----

  /** The events of the running process: those after the last restart. */
  function SinceRestart(events: seq<Event>): seq<Event> {
    if |events| == 0 || events[|events| - 1].RestartEvent? then []
    else SinceRestart(events[..|events| - 1]) + [events[|events| - 1]]
  }

  /** The cursors the running process still has in memory. */
  function Remembered(events: seq<Event>): map<string, Cursor> {
    if |events| == 0 then map[]
    else
      var before := Remembered(events[..|events| - 1]);
      match events[|events| - 1]
      case BlockEvent(data, cursor) => Prune(before[data.clock.id := cursor], cursor.lib.num)
      case UndoEvent(_, _) => before
      case RestartEvent => map[]
  }

  /** What the last block or undo signal saved, however many restarts came after it. */
  function Saved(events: seq<Event>): Option<Cursor> {
    if |events| == 0 then None
    else
      var front := events[..|events| - 1];
      match events[|events| - 1]
      case BlockEvent(data, cursor) => Some(CursorToSave(Remembered(front)[data.clock.id := cursor], cursor))
      case UndoEvent(_, cursor) => Some(cursor)
      case RestartEvent => Saved(front)
  }

  /** The file after these events: what they saved, or what was there before. */
  function FileAfter(file: Option<Cursor>, events: seq<Event>): Option<Cursor> {
    if Saved(events).Some? then Saved(events) else file
  }

  /** In terms of the cursors handled: within an orderly process the memory is those above the irreversible block. */
  lemma {:induction false} RememberedSince(events: seq<Event>)
    requires Orderly(SinceRestart(events))
    ensures Remembered(events) == Prune(Handled(SinceRestart(events)), LastLib(SinceRestart(events)))
  {
    if |events| > 0 && !events[|events| - 1].RestartEvent? {
      var front, last, process := events[..|events| - 1], events[|events| - 1], SinceRestart(events);
      assert process[..|process| - 1] == SinceRestart(front);
      assert Orderly(SinceRestart(front));
      RememberedSince(front);
      if last.BlockEvent? {
        LastLibBelow(process);
        PruneTwice(Handled(SinceRestart(front)), LastLib(SinceRestart(front)), last.cursor, last.data.clock.id);
      }
    }
  }

  /** A block saves the irreversible block's own cursor exactly when its process has that at hand, else its own. */
  lemma {:induction false} SavedExact(events: seq<Event>)
    requires |events| > 0 && events[|events| - 1].BlockEvent? && Orderly(SinceRestart(events))
    ensures var process, cursor := SinceRestart(events), events[|events| - 1].cursor;
            && |process| > 0 && process[|process| - 1] == events[|events| - 1]
            && (LibAtHand(process) ==>
                  cursor.lib.id in Handled(process) && Saved(events) == Some(Handled(process)[cursor.lib.id]))
            && (!LibAtHand(process) ==> Saved(events) == Some(cursor) && cursor.block.id != cursor.lib.id)
  {
    var front, last, process := events[..|events| - 1], events[|events| - 1], SinceRestart(events);
    assert process[..|process| - 1] == SinceRestart(front);
    assert Orderly(SinceRestart(front));
    assert process[|process| - 1].data.clock.id == last.cursor.block.id;
    RememberedSince(front);
  }

  // ---- The file of a run ----

  /**
   The cursor file after any legal run, restarts included: what the last block or undo signal saved, or what
   the run started with if there was none.
   */
  lemma {:induction false} FileIsSaved(start: Run, events: seq<Event>, universe: iset<Key>)
    requires RunInv(start, universe) && start.sys.history == map[] && Legal(start, events, universe)
    ensures RunInv(Exec(start, events), universe)
    ensures Exec(start, events).sys.history == Remembered(events)
    ensures Exec(start, events).sys.cursorFile == FileAfter(start.sys.cursorFile, events)
  {
    if |events| > 0 {
      var front, last := events[..|events| - 1], events[|events| - 1];
      assert events == front + [last];
      LegalSnoc(start, front, last, universe);
      ExecSnoc(start, front, last);
      FileIsSaved(start, front, universe);
      var before := Exec(start, front);
      StepKeeps(before, last, universe);
      if last.BlockEvent? {
        BlockSound(before.sys, universe, before.settled, last.data, last.cursor);
      }
    }
  }

  // ---- Restarting again ----

  /** The run after `n` restarts in a row. */
  ghost function Restarted(run: Run, n: nat): Run {
    if n == 0 then run else Step(Restarted(run, n - 1), RestartEvent)
  }

  lemma {:induction false} RestartTwice(run: Run, universe: iset<Key>)
    requires RunInv(run, universe)
    ensures Step(Step(run, RestartEvent), RestartEvent) == Step(run, RestartEvent)
  {
    var once := Step(run, RestartEvent);
    assert Restart(once.sys) == once.sys;
    UpToWhole(once.chain, once.settled);
    assert once.marks == run.marks[..|once.chain|] && once.marks[..|once.chain|] == once.marks;
  }

  /** However often a process restarts, it is in the state of the first restart and resumes at the same block. */
  lemma {:induction false} RestartsSettle(run: Run, universe: iset<Key>, n: nat)
    requires RunInv(run, universe)
    ensures n > 0 ==> Restarted(run, n) == Step(run, RestartEvent)
    ensures Restarted(run, n).sys.cursorFile == run.sys.cursorFile && SavedBlock(Restarted(run, n)) == SavedBlock(run)
  {
    if n > 1 {
      RestartsSettle(run, universe, n - 1);
      RestartTwice(run, universe);
    }
  }

  /**
   Recovery after any number of restarts. Each process reads the file it finds; replaying from the block after
   that gives back cache and store, and all answers, exactly when that is so for a single restart.
   */
  lemma {:induction false} RecoveryAfterRestarts(start: Run, events: seq<Event>, universe: iset<Key>, ifNotExist: bool,
                                                 n: nat, j: nat)
    requires n > 0 && Booted(start, universe, ifNotExist) && Legal(start, events, universe)
    requires Stream(events) && InOneMode(events, ifNotExist) && |events| > 0
    requires SplitsAt(events, SavedBlock(Restarted(Exec(start, events), n)), j)
    ensures var run := Exec(start, events);
            var again := Exec(Restarted(run, n), events[j..]);
            && again.sys.store.back == run.sys.store.back
            && (again.sys.store.cache == run.sys.store.cache <==> NothingUnsaved(run))
            && ((forall key, b: U64 :: ReadKey(again.sys.store, key, b) == ReadKey(run.sys.store, key, b))
                <==> NothingLost(run))
  {
    var run := Exec(start, events);
    ExecKeeps(start, events, universe);
    RestartsSettle(run, universe, n);
    RecoveryExact(start, events, universe, ifNotExist, j);
    RecoveryExactReads(start, events, universe, ifNotExist, j);
  }
}
