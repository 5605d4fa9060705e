/**
 The fan-out both Badger readers share: one goroutine a key, a counting semaphore of `numWorkers`
 slots, a result slice filled by index and a one-place error channel written without blocking.

 A worker's turn is decided by its own phase; the scheduler chooses only who moves next. The lemmas
 speak of every schedule.
 */
module FanOut {
  import opened Wrappers

  /** `Spawned` waits for the semaphore, `Failed` still has to offer its error to the channel,
      `Finishing` still holds its semaphore slot. */
  datatype Phase<+E> = Spawned | Holding | Failed(error: E) | Finishing | Done

  datatype Fan<+T, +E> = Fan(phases: seq<Phase<E>>, slots: seq<Option<T>>, sem: nat, errChan: Option<E>)

  function Start<T, E>(n: nat): Fan<T, E> {
    Fan(seq(n, i => Spawned), seq(n, i => None), 0, None)
  }

  predicate AllDone<T, E(==)>(f: Fan<T, E>) {
    forall i :: 0 <= i < |f.phases| ==> f.phases[i].Done?
  }

  predicate Enabled<T, E>(f: Fan<T, E>, workers: nat, i: nat) {
    && i < |f.phases|
    && !f.phases[i].Done?
    && (f.phases[i].Spawned? ==> f.sem < workers)
  }

  /** Worker `i`, not in the middle of its lookup, moves on. */
  function Advance<T, E>(f: Fan<T, E>, i: nat): Fan<T, E>
    requires i < |f.phases| && !f.phases[i].Holding?
  {
    match f.phases[i]
    case Spawned => f.(phases := f.phases[i := Holding], sem := f.sem + 1)
    case Failed(e) => f.(phases := f.phases[i := Finishing], errChan := if f.errChan.None? then Some(e) else f.errChan)
    case Finishing => f.(phases := f.phases[i := Done], sem := if f.sem > 0 then f.sem - 1 else 0)
    case Done => f
  }

  /** Worker `i`'s lookup comes back with `outcome`. */
  function Deliver<T, E>(f: Fan<T, E>, i: nat, outcome: Result<T, E>): Fan<T, E>
    requires i < |f.phases| == |f.slots|
  {
    match outcome
    case Ok(v) => f.(phases := f.phases[i := Finishing], slots := f.slots[i := Some(v)])
    case Err(e) => f.(phases := f.phases[i := Failed(e)])
  }

  /** Without an error, no slot has been left empty. */
  predicate Filled<T, E>(f: Fan<T, E>) {
    f.errChan.None? ==> forall i :: 0 <= i < |f.slots| ==> f.slots[i].Some?
  }

  /** What the caller returns after `wg.Wait()`. */
  function Collect<T, E>(f: Fan<T, E>): Result<seq<T>, E>
    requires Filled(f)
  {
    match f.errChan
    case Some(e) => Err(e)
    case None => Ok(seq(|f.slots|, i requires 0 <= i < |f.slots| => f.slots[i].value))
  }

  /** The sequential meaning: every outcome in place, or one of the errors if there is any. */
  ghost predicate Gathers<T, E>(outcomes: seq<Result<T, E>>, r: Result<seq<T>, E>) {
    match r
    case Err(e) => exists i :: 0 <= i < |outcomes| && outcomes[i] == Err(e)
    case Ok(values) =>
      && |values| == |outcomes|
      && forall i :: 0 <= i < |outcomes| ==> outcomes[i] == Ok(values[i])
  }

  // ---- Invariant ----

  predicate Active<E>(p: Phase<E>) {
    p.Holding? || p.Failed? || p.Finishing?
  }

  /** How many workers sit between their acquire and their release. */
  function Holders<E>(phases: seq<Phase<E>>): nat {
    if |phases| == 0 then 0
    else Holders(phases[..|phases| - 1]) + if Active(phases[|phases| - 1]) then 1 else 0
  }

  lemma {:induction false} HoldersUpdate<E>(phases: seq<Phase<E>>, i: nat, p: Phase<E>)
    requires i < |phases|
    ensures Holders(phases[i := p])
         == Holders(phases) - (if Active(phases[i]) then 1 else 0) + (if Active(p) then 1 else 0)
  {
    var n := |phases| - 1;
    if i < n {
      HoldersUpdate(phases[..n], i, p);
      assert phases[i := p][..n] == phases[..n][i := p];
    } else {
      assert phases[i := p][..n] == phases[..n];
    }
  }

  lemma {:induction false} NoHolders<E>(phases: seq<Phase<E>>)
    requires forall i :: 0 <= i < |phases| ==> !Active(phases[i])
    ensures Holders(phases) == 0
  {
    if |phases| > 0 {
      NoHolders(phases[..|phases| - 1]);
    }
  }

  /** What worker `i`'s phase says about its slot and the channel. */
  ghost predicate WorkerInv<T, E>(f: Fan<T, E>, outcomes: seq<Result<T, E>>, i: nat)
    requires i < |f.phases| == |f.slots| == |outcomes|
  {
    match f.phases[i]
    case Spawned => true
    case Holding => true
    case Failed(e) => outcomes[i] == Err(e)
    case _ => (match outcomes[i]
               case Ok(v) => f.slots[i] == Some(v)
               case Err(_) => f.errChan.Some?)
  }

  ghost predicate Inv<T, E>(f: Fan<T, E>, outcomes: seq<Result<T, E>>, workers: nat) {
    && |f.phases| == |f.slots| == |outcomes|
    && f.sem == Holders(f.phases) <= workers
    && (forall i :: 0 <= i < |f.phases| ==> WorkerInv(f, outcomes, i))
    && (f.errChan.Some? ==> exists i :: 0 <= i < |outcomes| && outcomes[i] == Err(f.errChan.value))
  }

  lemma StartInv<T, E>(outcomes: seq<Result<T, E>>, workers: nat)
    ensures Inv(Start<T, E>(|outcomes|), outcomes, workers)
  {
    NoHolders(Start<T, E>(|outcomes|).phases);
  }

  lemma {:induction false} AdvanceInv<T, E>(f: Fan<T, E>, outcomes: seq<Result<T, E>>, workers: nat, i: nat)
    requires Inv(f, outcomes, workers) && Enabled(f, workers, i) && !f.phases[i].Holding?
    ensures Inv(Advance(f, i), outcomes, workers)
  {
    var f' := Advance(f, i);
    HoldersUpdate(f.phases, i, f'.phases[i]);
    assert WorkerInv(f, outcomes, i);
    forall j | 0 <= j < |f'.phases|
      ensures WorkerInv(f', outcomes, j)
    {
      assert WorkerInv(f, outcomes, j);
    }
    if f.phases[i].Failed? {
      assert outcomes[i] == Err(f.phases[i].error);
    }
  }

  lemma {:induction false} DeliverInv<T, E>(f: Fan<T, E>, outcomes: seq<Result<T, E>>, workers: nat, i: nat)
    requires Inv(f, outcomes, workers) && i < |f.phases| && f.phases[i].Holding?
    ensures Inv(Deliver(f, i, outcomes[i]), outcomes, workers)
  {
    var f' := Deliver(f, i, outcomes[i]);
    HoldersUpdate(f.phases, i, f'.phases[i]);
    forall j | 0 <= j < |f'.phases|
      ensures WorkerInv(f', outcomes, j)
    {
      assert WorkerInv(f, outcomes, j);
    }
  }

  /** With a worker slot to give out, someone can always move. */
  lemma {:induction false} NeverStuck<T, E>(f: Fan<T, E>, outcomes: seq<Result<T, E>>, workers: nat)
    requires Inv(f, outcomes, workers) && workers >= 1 && !AllDone(f)
    ensures exists i :: 0 <= i < |f.phases| && Enabled(f, workers, i)
  {
    if forall i :: 0 <= i < |f.phases| ==> !Active(f.phases[i]) {
      NoHolders(f.phases);
      var i :| 0 <= i < |f.phases| && !f.phases[i].Done?;
      assert Enabled(f, workers, i);
    } else {
      var i :| 0 <= i < |f.phases| && Active(f.phases[i]);
      assert Enabled(f, workers, i);
    }
  }

  lemma {:induction false} DoneGathers<T, E>(f: Fan<T, E>, outcomes: seq<Result<T, E>>, workers: nat)
    requires Inv(f, outcomes, workers) && AllDone(f)
    ensures Filled(f) && Gathers(outcomes, Collect(f))
  {
    forall i | 0 <= i < |outcomes| && f.errChan.None?
      ensures outcomes[i].Ok? && f.slots[i] == Some(outcomes[i].value)
    {
      assert WorkerInv(f, outcomes, i);
    }
  }

  // ---- Termination ----

  function Rank<E>(p: Phase<E>): nat {
    match p
    case Spawned => 4
    case Holding => 3
    case Failed(_) => 2
    case Finishing => 1
    case Done => 0
  }

  function Remaining<E>(phases: seq<Phase<E>>): nat {
    if |phases| == 0 then 0 else Remaining(phases[..|phases| - 1]) + Rank(phases[|phases| - 1])
  }

  lemma {:induction false} RemainingUpdate<E>(phases: seq<Phase<E>>, i: nat, p: Phase<E>)
    requires i < |phases|
    ensures Remaining(phases[i := p]) == Remaining(phases) - Rank(phases[i]) + Rank(p)
  {
    var n := |phases| - 1;
    if i < n {
      RemainingUpdate(phases[..n], i, p);
      assert phases[i := p][..n] == phases[..n][i := p];
    } else {
      assert phases[i := p][..n] == phases[..n];
    }
  }

  lemma {:induction false} RemainingBound<E>(phases: seq<Phase<E>>)
    ensures Remaining(phases) <= 4 * |phases|
  {
    if |phases| > 0 {
      RemainingBound(phases[..|phases| - 1]);
    }
  }

  // ---- Whole schedules ----

  /** Worker `i`'s turn, given what each lookup will answer. */
  function Turn<T, E>(f: Fan<T, E>, outcomes: seq<Result<T, E>>, i: nat): Fan<T, E>
    requires i < |f.phases| == |f.slots| == |outcomes|
  {
    if f.phases[i].Holding? then Deliver(f, i, outcomes[i]) else Advance(f, i)
  }

  lemma {:induction false} TurnKeeps<T, E>(f: Fan<T, E>, outcomes: seq<Result<T, E>>, workers: nat, i: nat)
    requires Inv(f, outcomes, workers) && Enabled(f, workers, i)
    ensures Inv(Turn(f, outcomes, i), outcomes, workers)
    ensures Remaining(Turn(f, outcomes, i).phases) < Remaining(f.phases)
  {
    if f.phases[i].Holding? {
      DeliverInv(f, outcomes, workers, i);
    } else {
      AdvanceInv(f, outcomes, workers, i);
    }
    RemainingUpdate(f.phases, i, Turn(f, outcomes, i).phases[i]);
  }

  /** `end` is reached from `f` by giving turns in the order of `schedule`, each one possible. */
  ghost predicate Runs<T, E>(f: Fan<T, E>, outcomes: seq<Result<T, E>>, workers: nat, schedule: seq<nat>,
      end: Fan<T, E>)
    decreases |schedule|
  {
    if |schedule| == 0 then f == end
    else
      && |f.phases| == |f.slots| == |outcomes|
      && Enabled(f, workers, schedule[0])
      && Runs(Turn(f, outcomes, schedule[0]), outcomes, workers, schedule[1..], end)
  }

  lemma {:induction false} RunsKeep<T, E>(f: Fan<T, E>, outcomes: seq<Result<T, E>>, workers: nat,
                                          schedule: seq<nat>, end: Fan<T, E>)
    requires Inv(f, outcomes, workers) && Runs(f, outcomes, workers, schedule, end)
    ensures Inv(end, outcomes, workers)
    ensures Remaining(end.phases) + |schedule| <= Remaining(f.phases)
    decreases |schedule|
  {
    if |schedule| > 0 {
      TurnKeeps(f, outcomes, workers, schedule[0]);
      RunsKeep(Turn(f, outcomes, schedule[0]), outcomes, workers, schedule[1..], end);
    }
  }

  /**
   Every interleaving: the semaphore bounds the holders, the run is at most four turns a key long, it
   can go on until all are done, and what is then collected is the sequential answer.
   */
  lemma {:induction false} EveryScheduleGathers<T, E>(outcomes: seq<Result<T, E>>, workers: nat,
                                                      schedule: seq<nat>, end: Fan<T, E>)
    requires workers >= 1
    requires Runs(Start<T, E>(|outcomes|), outcomes, workers, schedule, end)
    ensures Holders(end.phases) <= workers
    ensures |schedule| <= 4 * |outcomes|
    ensures AllDone(end) ==> Filled(end) && Gathers(outcomes, Collect(end))
    ensures !AllDone(end) ==> exists i :: 0 <= i < |outcomes| && Enabled(end, workers, i)
  {
    var f := Start<T, E>(|outcomes|);
    StartInv(outcomes, workers);
    RunsKeep(f, outcomes, workers, schedule, end);
    RemainingBound(f.phases);
    if AllDone(end) {
      DoneGathers(end, outcomes, workers);
    } else {
      NeverStuck(end, outcomes, workers);
    }
  }

  /** Two ways to meet `Gathers` differ at most in which error they report. */
  lemma {:induction false} GathersAgree<T, E>(outcomes: seq<Result<T, E>>, r: Result<seq<T>, E>, r': Result<seq<T>, E>)
    requires Gathers(outcomes, r) && Gathers(outcomes, r')
    ensures r.Ok? <==> r'.Ok?
    ensures r.Ok? ==> r == r'
    ensures r.Ok? <==> forall i :: 0 <= i < |outcomes| ==> outcomes[i].Ok?
  {
    if r.Ok? && r'.Ok? {
      assert r.value == r'.value;
    }
  }

  /** No worker slots: the readers wait for ever exactly when there is a key to read. */
  lemma NoWorkersMeansStuck<T, E>(n: nat)
    ensures (AllDone(Start<T, E>(n)) || exists i :: 0 <= i < n && Enabled(Start<T, E>(n), 0, i)) <==> n == 0
  {
    if n > 0 {
      assert Start<T, E>(n).phases[0].Spawned?;
    }
  }
}
