/**
 The cursor file. After each block the sinker saves the irreversible block's own cursor if it still has it
 on file, and the current cursor otherwise; then it forgets the cursors at or below the irreversible block.
 */
module CursorHistory {
  import opened ByteOrder
  import opened ForkAwareSpec
  import opened ForkRuns
  import opened KeyView
  import opened SinkerSpec
  import opened Wrappers
  import opened Entries

  /** Blocks and undo signals of one process: each block filed under its own id, irreversible blocks never
      going back. `lib` is the last irreversible block seen before. */
  ghost predicate Orderly(events: seq<Event>) {
    && (forall i :: 0 <= i < |events| ==> !events[i].RestartEvent?)
    && (forall i :: 0 <= i < |events| && events[i].BlockEvent? ==> events[i].data.clock.id == events[i].cursor.block.id)
    && (forall i, j :: 0 <= i < j < |events| && events[i].BlockEvent? && events[j].BlockEvent? ==>
          events[i].cursor.lib.num <= events[j].cursor.lib.num)
  }

  /** The latest cursor handled for each block id. */
  function Handled(events: seq<Event>): map<string, Cursor> {
    if |events| == 0 then map[]
    else
      var last, front := events[|events| - 1], Handled(events[..|events| - 1]);
      if last.BlockEvent? then front[last.data.clock.id := last.cursor] else front
  }

  /** The irreversible block as of the last block handled; 0 before any. */
  function LastLib(events: seq<Event>): U64 {
    if |events| == 0 then 0
    else
      var last := events[|events| - 1];
      if last.BlockEvent? then last.cursor.lib.num else LastLib(events[..|events| - 1])
  }

  lemma {:induction false} LastLibBelow(events: seq<Event>)
    requires Orderly(events) && |events| > 0 && events[|events| - 1].BlockEvent?
    ensures LastLib(events[..|events| - 1]) <= LastLib(events)
  {
    LastLibBelowCursor(events, |events| - 1);
  }

  lemma {:induction false} LastLibBelowCursor(events: seq<Event>, n: nat)
    requires Orderly(events) && |events| > 0 && events[|events| - 1].BlockEvent? && n < |events|
    ensures LastLib(events[..n]) <= events[|events| - 1].cursor.lib.num
  {
    if n > 0 {
      LastLibBelowCursor(events, n - 1);
      assert events[..n][..n - 1] == events[..n - 1];
    }
  }

  lemma {:induction false} HandledWellKeyed(events: seq<Event>)
    requires Orderly(events)
    ensures WellKeyed(Handled(events))
  {
    if |events| > 0 {
      HandledWellKeyed(events[..|events| - 1]);
    }
  }

  /** The irreversible block's own cursor is at hand: it is this block, or it was handled since start with
      a number above the previous irreversible block. */
  ghost predicate LibAtHand(events: seq<Event>)
    requires |events| > 0 && events[|events| - 1].BlockEvent?
  {
    var before, cursor := events[..|events| - 1], events[|events| - 1].cursor;
    || cursor.lib.id == cursor.block.id
    || (cursor.lib.id in Handled(before) && Handled(before)[cursor.lib.id].block.num > LastLib(before))
  }

  /**
   The history after any events of one process: exactly the latest cursors handled since its start whose
   number is above the irreversible block.
   */
  lemma {:induction false} HistoryInvariant(run: Run, events: seq<Event>, universe: iset<Key>)
    requires RunInv(run, universe) && run.sys.history == map[] && Legal(run, events, universe)
    requires Orderly(events)
    ensures RunInv(Exec(run, events), universe)
    ensures Exec(run, events).sys.history == Prune(Handled(events), LastLib(events))
  {
    if |events| > 0 {
      var front, last := events[..|events| - 1], events[|events| - 1];
      assert events == front + [last];
      LegalSnoc(run, front, last, universe);
      ExecSnoc(run, front, last);
      HistoryInvariant(run, front, universe);
      var before := Exec(run, front);
      StepKeeps(before, last, universe);
      if last.BlockEvent? {
        BlockSound(before.sys, universe, before.settled, last.data, last.cursor);
        LastLibBelow(events);
        PruneTwice(Handled(front), LastLib(front), last.cursor, last.data.clock.id);
      }
    }
  }

  /** Adding a cursor and pruning again forgets nothing that pruning the full history would keep. */
  lemma PruneTwice(handled: map<string, Cursor>, lib: U64, cursor: Cursor, id: string)
    requires lib <= cursor.lib.num
    ensures Prune(Prune(handled, lib)[id := cursor], cursor.lib.num) == Prune(handled[id := cursor], cursor.lib.num)
  {
  }

  /** What the file holds after a block, in terms of the history before it. */
  lemma {:induction false} SavedFrom(run: Run, events: seq<Event>, universe: iset<Key>)
    requires RunInv(run, universe) && run.sys.history == map[] && Legal(run, events, universe)
    requires Orderly(events) && |events| > 0 && events[|events| - 1].BlockEvent?
    ensures var front, cursor := events[..|events| - 1], events[|events| - 1].cursor;
            Exec(run, events).sys.cursorFile
            == Some(CursorToSave(Prune(Handled(front), LastLib(front))[cursor.block.id := cursor], cursor))
  {
    var front, last := events[..|events| - 1], events[|events| - 1];
    assert events == front + [last];
    LegalSnoc(run, front, last, universe);
    ExecSnoc(run, front, last);
    HistoryInvariant(run, front, universe);
    var before := Exec(run, front);
    BlockSound(before.sys, universe, before.settled, last.data, last.cursor);
  }

  /**
   The saved cursor after a block is the irreversible block's own exactly when that is at hand; otherwise
   it is the current block's, whatever is still unflushed.
   */
  lemma {:induction false} SavedCursor(run: Run, events: seq<Event>, universe: iset<Key>)
    requires RunInv(run, universe) && run.sys.history == map[] && Legal(run, events, universe)
    requires Orderly(events) && |events| > 0 && events[|events| - 1].BlockEvent?
    ensures var cursor := events[|events| - 1].cursor;
            var saved := Exec(run, events).sys.cursorFile;
            && saved.Some?
            && (saved.value.block.id == cursor.lib.id <==> LibAtHand(events))
            && (LibAtHand(events) ==> cursor.lib.id in Handled(events) && saved.value == Handled(events)[cursor.lib.id])
            && (!LibAtHand(events) ==> saved.value == cursor)
  {
    SavedFrom(run, events, universe);
    var front, cursor := events[..|events| - 1], events[|events| - 1].cursor;
    HandledWellKeyed(front);
    assert Handled(events) == Handled(front)[cursor.block.id := cursor];
  }

  /** Without restarts, and with irreversible blocks never going back, the bound of the run theorems is the
      cache's own flush point. */
  lemma {:induction false} SettledIsFlushPoint(run: Run, events: seq<Event>, universe: iset<Key>)
    requires RunInv(run, universe) && Legal(run, events, universe) && Orderly(events)
    requires run.settled == run.sys.store.flushUpTo == 0
    ensures RunInv(Exec(run, events), universe)
    ensures Exec(run, events).settled == Exec(run, events).sys.store.flushUpTo <= LastLib(events)
  {
    if |events| > 0 {
      var front, last := events[..|events| - 1], events[|events| - 1];
      assert events == front + [last];
      LegalSnoc(run, front, last, universe);
      ExecSnoc(run, front, last);
      SettledIsFlushPoint(run, front, universe);
      var before := Exec(run, front);
      StepKeeps(before, last, universe);
      if last.BlockEvent? {
        LastLibBelow(events);
        BlockSound(before.sys, universe, before.settled, last.data, last.cursor);
      }
    }
  }
}
