/** The write-back cache in front of a wrapped store: unfinalized writes stay in memory until flushed. */
module ForkAware {
  import opened Backing
  import opened ByteOrder
  import opened Entries
  import opened FanOut
  import opened OrderedDb
  import opened Wrappers
  import Spec = ForkAwareSpec

  class Store {
    const wrapped: Wrapped
    var cache: map<Key, Spec.Cached>
    var flushUpToBlock: U64

    constructor (wrapped: Wrapped)
      ensures this.wrapped == wrapped
      ensures View() == Spec.State(wrapped.Contents(), map[], 0)
    {
      this.wrapped := wrapped;
      cache := map[];
      flushUpToBlock := 0;
    }

    ghost function View(): Spec.State
      reads this, wrapped.Db()
    {
      Spec.State(wrapped.Contents(), cache, flushUpToBlock)
    }

    /** Builds the list of entries without a slot. */
    method WithoutSlot(entries: seq<Entry>, ifNotExist: bool) returns (toSet: seq<Entry>)
      ensures LastWins(toSet) == Spec.Uncached(cache, LastWins(entries), ifNotExist)
    {
      toSet := [];
      for i := 0 to |entries|
        invariant LastWins(toSet) == Spec.Uncached(cache, LastWins(entries[..i]), ifNotExist)
      {
        var entry := entries[i];
        LastWinsStep(entries, i);
        LastWinsSnoc(toSet, entry);
        UncachedStep(cache, LastWins(entries[..i]), ifNotExist, entry.key, entry.value);
        if ifNotExist {
          if entry.key in cache {
            continue;
          }
          toSet := toSet + [entry];
        } else {
          toSet := toSet + [entry];
        }
      }
      LastWinsWhole(entries);
    }

    /** Drops from an if-not-exist batch what the wrapped store finds: answer `i` decides about entry `i`. */
    method WithoutFound(toSet: seq<Entry>, blockNumber: U64) returns (filtered: seq<Entry>, err: Option<StoreError>)
      requires wrapped.HasWorkers()
      ensures err.Some? <==> exists k :: k in LastWins(toSet) && Read(wrapped.Contents(), k, blockNumber).Corrupt?
      ensures err.None? ==> LastWins(filtered) == Spec.Unfound(wrapped.Contents(), LastWins(toSet), true, blockNumber)
    {
      filtered := [];
      ghost var back := wrapped.Contents();
      var keysToCheck: seq<Key> := [];
      for i := 0 to |toSet|
        invariant |keysToCheck| == i && forall j :: 0 <= j < i ==> keysToCheck[j] == toSet[j].key
      {
        keysToCheck := keysToCheck + [toSet[i].key];
      }
      var resp := wrapped.Get(keysToCheck, blockNumber);
      if resp.Err? {
        ErrorMeansCorrupt(back, toSet, keysToCheck, blockNumber, resp.error);
        return [], Some(resp.error);
      }
      var answers := resp.value;
      AnswersAlign(back, toSet, keysToCheck, blockNumber, answers);
      for i := 0 to |answers|
        invariant LastWins(filtered) == Spec.Unfound(back, LastWins(toSet[..i]), true, blockNumber)
      {
        LastWinsStep(toSet, i);
        LastWinsSnoc(filtered, toSet[i]);
        UnfoundStep(back, LastWins(toSet[..i]), blockNumber, toSet[i].key, toSet[i].value);
        if answers[i].NotFound? {
          filtered := filtered + [toSet[i]];
        }
      }
      LastWinsWhole(toSet);
      err := None;
    }

    /** Puts the accepted entries into their slots, in order. */
    method Fill(toSet: seq<Entry>, blockNumber: U64)
      modifies this`cache
      ensures cache == old(cache) + Spec.Stamped(LastWins(toSet), blockNumber)
    {
      for i := 0 to |toSet|
        invariant cache == old(cache) + Spec.Stamped(LastWins(toSet[..i]), blockNumber)
      {
        LastWinsStep(toSet, i);
        StampedStep(old(cache), LastWins(toSet[..i]), blockNumber, toSet[i].key, toSet[i].value);
        cache := cache[toSet[i].key := Spec.Cached(toSet[i].value, blockNumber)];
      }
      LastWinsWhole(toSet);
    }

    method SetAll(entries: seq<Entry>, ifNotExist: bool, blockNumber: U64) returns (err: Option<StoreError>)
      requires wrapped.HasWorkers()
      modifies this`cache, wrapped.Db()
      ensures err.Some? <==> Spec.SetAllFails(old(View()), LastWins(entries), ifNotExist, blockNumber)
      ensures View() == if err.Some? then old(View())
                        else Spec.SetAll(old(View()), LastWins(entries), ifNotExist, blockNumber)
    {
      var toSet := WithoutSlot(entries, ifNotExist);
      if ifNotExist && |toSet| > 0 {
        var filtered, failure := WithoutFound(toSet, blockNumber);
        if failure.Some? {
          return failure;
        }
        toSet := filtered;
      }
      assert LastWins(toSet) == Spec.Accepted(old(View()), LastWins(entries), ifNotExist, blockNumber);
      Fill(toSet, blockNumber);
      var toFlush: seq<Entry> := [];
      for i := 0 to |toSet|
        invariant toFlush == if blockNumber <= flushUpToBlock then toSet[..i] else []
      {
        if blockNumber <= flushUpToBlock {
          toFlush := toFlush + [toSet[i]];
        }
      }
      assert blockNumber <= flushUpToBlock ==> toFlush == toSet;
      if |toFlush| > 0 {
        wrapped.SetAll(toFlush, ifNotExist, blockNumber);
      } else {
        Spec.PutNothing(wrapped.Contents(), ifNotExist, blockNumber);
      }
      err := None;
    }

    /** The wrapped store's answers with cache slots laid over them, position by position. */
    method Get(keys: seq<Key>, blockNumber: U64) returns (r: Result<seq<Answer>, StoreError>)
      requires wrapped.HasWorkers()
      ensures Spec.Responds(View(), keys, blockNumber, r)
    {
      ghost var back := wrapped.Contents();
      r := wrapped.Get(keys, blockNumber);
      if r.Err? {
        ghost var i :| 0 <= i < |keys| && Outcomes(back, keys, blockNumber)[i] == Err(r.error);
        OutcomeAt(back, keys, blockNumber, i);
        return;
      }
      var entries := r.value;
      forall i | 0 <= i < |keys|
        ensures Ok(entries[i]) == Outcome(keys[i], Read(back, keys[i], blockNumber))
      {
        OutcomeAt(back, keys, blockNumber, i);
      }
      for i := 0 to |keys|
        invariant |entries| == |keys|
        invariant forall j :: 0 <= j < i ==>
                    Ok(entries[j]) == Outcome(keys[j], Spec.ReadKey(View(), keys[j], blockNumber))
        invariant forall j :: i <= j < |keys| ==> Ok(entries[j]) == Outcome(keys[j], Read(back, keys[j], blockNumber))
      {
        if keys[i] in cache {
          var cached := cache[keys[i]];
          if cached.blockNumber <= blockNumber {
            entries := entries[i := Found(keys[i], cached.value)];
          }
        }
      }
      r := Ok(entries);
    }

    method GetFirst(keys: seq<Key>, blockNumber: U64) returns (r: Result<seq<Answer>, StoreError>)
      requires wrapped.HasWorkers()
      ensures Spec.RespondsFirst(View(), keys, blockNumber, r)
    {
      ghost var back := wrapped.Contents();
      r := wrapped.GetFirst(keys, blockNumber);
      if r.Err? {
        ghost var i :| 0 <= i < |keys| && OutcomesFirst(back, keys, blockNumber)[i] == Err(r.error);
        OutcomeAt(back, keys, blockNumber, i);
        return;
      }
      var entries := r.value;
      forall i | 0 <= i < |keys|
        ensures Ok(entries[i]) == Outcome(keys[i], ReadFirst(back, keys[i], blockNumber))
      {
        OutcomeAt(back, keys, blockNumber, i);
      }
      for i := 0 to |keys|
        invariant |entries| == |keys|
        invariant forall j :: 0 <= j < i ==>
                    Ok(entries[j]) == Outcome(keys[j], Spec.ReadKeyFirst(View(), keys[j], blockNumber))
        invariant forall j :: i <= j < |keys| ==>
                    Ok(entries[j]) == Outcome(keys[j], ReadFirst(back, keys[j], blockNumber))
      {
        if keys[i] in cache {
          var cached := cache[keys[i]];
          if cached.blockNumber <= blockNumber {
            entries := entries[i := Found(keys[i], cached.value)];
          }
        }
      }
      r := Ok(entries);
    }

    /** Collects every slot at or below `blockNum`, in whatever order the map yields them. */
    method Collect(blockNum: U64) returns (toFlush: seq<Entry>)
      ensures LastWins(toFlush) == Spec.Flushable(cache, blockNum)
    {
      toFlush := [];
      var unseen := cache.Keys;
      while unseen != {}
        invariant unseen <= cache.Keys
        invariant LastWins(toFlush) == Spec.Flushable(cache, blockNum) - unseen
        decreases unseen
      {
        var key :| key in unseen;
        LastWinsSnoc(toFlush, Entry(key, cache[key].value));
        if cache[key].blockNumber <= blockNum {
          toFlush := toFlush + [Entry(key, cache[key].value)];
        }
        unseen := unseen - {key};
      }
    }

    /** Deletes the slots of the entries just flushed. */
    method Remove(flushed: seq<Entry>)
      modifies this`cache
      ensures cache == old(cache) - LastWins(flushed).Keys
    {
      for i := 0 to |flushed|
        invariant cache == old(cache) - LastWins(flushed[..i]).Keys
      {
        LastWinsStep(flushed, i);
        cache := cache - {flushed[i].key};
      }
      LastWinsWhole(flushed);
    }

    /** Hands the collected slots to the wrapped store, all of them stamped `blockNum`. */
    method FlushUpToBlock(blockNum: U64, ifNotExist: bool)
      modifies this, wrapped.Db()
      ensures View() == Spec.Flush(old(View()), blockNum, ifNotExist)
    {
      flushUpToBlock := blockNum;
      var toFlush := Collect(blockNum);
      if |toFlush| > 0 {
        wrapped.SetAll(toFlush, ifNotExist, blockNum);
        Remove(toFlush);
      } else {
        Spec.FlushNothing(old(View()), blockNum, ifNotExist);
      }
    }

    /** Drops every slot at or above `upToBlockNumber`. */
    method EvictUpToBlock(upToBlockNumber: U64)
      modifies this`cache
      ensures View() == Spec.Evict(old(View()), upToBlockNumber)
    {
      var keysToEvict: set<Key> := {};
      var unseen := cache.Keys;
      while unseen != {}
        invariant cache == old(cache) && unseen <= cache.Keys
        invariant keysToEvict == set k | k in cache && k !in unseen && cache[k].blockNumber >= upToBlockNumber
        decreases unseen
      {
        var key :| key in unseen;
        if cache[key].blockNumber >= upToBlockNumber {
          keysToEvict := keysToEvict + {key};
        }
        unseen := unseen - {key};
      }
      var pending := keysToEvict;
      while pending != {}
        invariant pending <= keysToEvict
        invariant cache == old(cache) - (keysToEvict - pending)
        decreases pending
      {
        var key :| key in pending;
        cache := cache - {key};
        pending := pending - {key};
      }
      assert cache == Spec.Evict(old(View()), upToBlockNumber).cache;
    }
  }

  // ---- Steps of the loops above ----

  lemma LastWinsSnoc(entries: seq<Entry>, entry: Entry)
    ensures LastWins(entries + [entry]) == LastWins(entries)[entry.key := entry.value]
  {
    assert (entries + [entry])[..|entries|] == entries;
  }

  lemma MentionedInLastWins(entries: seq<Entry>, i: nat)
    requires i < |entries|
    ensures entries[i].key in LastWins(entries)
  {
    LastWinsIsLastMention(entries, entries[i].key);
  }

  lemma {:induction false} ErrorMeansCorrupt(back: Back, toSet: seq<Entry>, keys: seq<Key>, b: U64, e: StoreError)
    requires |keys| == |toSet| && forall i :: 0 <= i < |keys| ==> keys[i] == toSet[i].key
    requires Gathers(Outcomes(back, keys, b), Err(e))
    ensures exists k :: k in LastWins(toSet) && Read(back, k, b).Corrupt?
  {
    var i :| 0 <= i < |Outcomes(back, keys, b)| && Outcomes(back, keys, b)[i] == Err(e);
    OutcomeAt(back, keys, b, i);
    MentionedInLastWins(toSet, i);
  }

  /** Answer `i` of a successful check is about entry `i`, and nothing checked was unreadable. */
  lemma {:induction false} AnswersAlign(back: Back, toSet: seq<Entry>, keys: seq<Key>, b: U64, answers: seq<Answer>)
    requires |keys| == |toSet| && forall i :: 0 <= i < |keys| ==> keys[i] == toSet[i].key
    requires Gathers(Outcomes(back, keys, b), Ok(answers))
    ensures |answers| == |toSet|
    ensures forall i :: 0 <= i < |toSet| ==> Ok(answers[i]) == Outcome(toSet[i].key, Read(back, toSet[i].key, b))
    ensures forall k :: k in LastWins(toSet) ==> !Read(back, k, b).Corrupt?
  {
    forall i | 0 <= i < |toSet|
      ensures Ok(answers[i]) == Outcome(toSet[i].key, Read(back, toSet[i].key, b))
    {
      OutcomeAt(back, keys, b, i);
    }
    forall k | k in LastWins(toSet)
      ensures !Read(back, k, b).Corrupt?
    {
      LastWinsIsLastMention(toSet, k);
    }
  }

  lemma UncachedStep(cache: map<Key, Spec.Cached>, batch: map<Key, Value>, ifNotExist: bool, k: Key, v: Value)
    ensures Spec.Uncached(cache, batch[k := v], ifNotExist)
         == if ifNotExist && k in cache then Spec.Uncached(cache, batch, ifNotExist)
            else Spec.Uncached(cache, batch, ifNotExist)[k := v]
  {
  }

  lemma UnfoundStep(back: Back, batch: map<Key, Value>, b: U64, k: Key, v: Value)
    ensures Spec.Unfound(back, batch[k := v], true, b)
         == if Read(back, k, b).Miss? then Spec.Unfound(back, batch, true, b)[k := v]
            else Spec.Unfound(back, batch, true, b)
  {
  }

  lemma StampedStep(cache: map<Key, Spec.Cached>, batch: map<Key, Value>, b: U64, k: Key, v: Value)
    ensures cache + Spec.Stamped(batch[k := v], b) == (cache + Spec.Stamped(batch, b))[k := Spec.Cached(v, b)]
  {
  }
}
